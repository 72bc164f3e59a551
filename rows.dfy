/**
 * The row assembler: an `EndpointOverview` record becomes one output row of
 * eight cells (Endpoint, IP, Customer Name, Vendor Name, Packet Loss Rate,
 * Jitter, Latency, RTT). The value -1, as text or as a number, means "not
 * available" and is shown as "N/A".
 */
module Rows {
  import opened Text
  import opened Tables
  import opened Endpoints

  const NotAvailable: string := "N/A"

  /** `ParseStringValue`: an empty value or the sentinel "-1" is shown as "N/A";
      any other text is shown as it is. */
  function ParseStringValue(value: string): (shown: string)
    ensures shown != "" && shown != "-1"
    ensures value != "" && value != "-1" ==> shown == value
    ensures shown == NotAvailable <==> value == "" || value == "-1" || value == NotAvailable
  {
    if value == "" || value == "-1" then NotAvailable else value
  }

  /** A name cell holding a number is shown as "N/A" exactly when the number is
      -1, however many decimal places it carries. */
  lemma NumberShownNotAvailable(d: Decimal)
    ensures ParseStringValue(ToText(NumberValue(d))) == NotAvailable <==> IsMinusOne(d)
  {
    FormatDecimalStart(d);
  }

  /** Normalising a shown value again changes nothing. */
  lemma ParseStringValueIdempotent(value: string)
    ensures ParseStringValue(ParseStringValue(value)) == ParseStringValue(value)
  {
  }

  /** The display text of a numeric cell: "N/A", or the value rounded to two
      decimals followed by a space and the unit (the rounding and the
      rendering of the number are not modelled). */
  datatype Display = NotAvailableDisplay | Rounded(value: Decimal, unit: string)

  /** `ParseDoubleValue(value, unit)` */
  function ParseDoubleValue(value: Decimal, unit: string): (shown: Display)
    ensures shown.NotAvailableDisplay? <==> IsMinusOne(value)
    ensures shown.Rounded? ==> shown.value == value && shown.unit == unit
  {
    if SameValue(value, Decimal(-1, 0)) then NotAvailableDisplay else Rounded(value, unit)
  }

  /** A numeric output cell: the raw value and its display text. */
  datatype Metric = Metric(value: Decimal, display: Display)

  /** `GQIRow` with the eight cells of `GetColumns`, in column order. */
  datatype Row = Row(
    endpoint: string,
    ip: string,
    customerName: string,
    vendorName: string,
    packetLossRate: Metric,
    jitter: Metric,
    latency: Metric,
    rtt: Metric)

  /** A numeric cell keeps the raw value and shows "N/A" exactly for -1. */
  predicate ShowsMetric(m: Metric, value: Decimal, unit: string) {
    m.value == value &&
    (m.display.NotAvailableDisplay? <==> IsMinusOne(value)) &&
    (m.display.Rounded? ==> m.display.value == value && m.display.unit == unit)
  }

  /** The row `AddAllCableModems` builds for one record. */
  function RowOf(e: EndpointOverview): (r: Row)
    ensures r.endpoint == e.name && r.ip == e.ip
    ensures r.customerName == ParseStringValue(e.customerName) && r.vendorName == ParseStringValue(e.vendorName)
    ensures r.customerName != "" && r.customerName != "-1" && r.vendorName != "" && r.vendorName != "-1"
    ensures e.customerName != "" && e.customerName != "-1" ==> r.customerName == e.customerName
    ensures e.vendorName != "" && e.vendorName != "-1" ==> r.vendorName == e.vendorName
    ensures ShowsMetric(r.packetLossRate, e.packetLossRate, "%")
    ensures ShowsMetric(r.jitter, e.jitter, "ms")
    ensures ShowsMetric(r.latency, e.latency, "ms")
    ensures ShowsMetric(r.rtt, e.rtt, "ms")
  {
    Row(e.name, e.ip,
        ParseStringValue(e.customerName),
        ParseStringValue(e.vendorName),
        Metric(e.packetLossRate, ParseDoubleValue(e.packetLossRate, "%")),
        Metric(e.jitter, ParseDoubleValue(e.jitter, "ms")),
        Metric(e.latency, ParseDoubleValue(e.latency, "ms")),
        Metric(e.rtt, ParseDoubleValue(e.rtt, "ms")))
  }

  /** One row per record, in order. */
  function RowsOf(es: seq<EndpointOverview>): seq<Row> {
    seq(|es|, i requires 0 <= i < |es| => RowOf(es[i]))
  }

  /** Rows of consecutive record lists are consecutive. */
  lemma RowsOfAppend(es: seq<EndpointOverview>, e: EndpointOverview)
    ensures RowsOf(es + [e]) == RowsOf(es) + [RowOf(e)]
  {
  }
}
