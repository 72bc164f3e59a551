/**
 * The endpoint extractor: one collector's column-oriented table becomes one
 * `EndpointOverview` record per row, collected in a dictionary keyed by the
 * endpoint name (`ExtractCollectorData`). The column positions are a fixed
 * contract with the remote endpoint table.
 */
module Endpoints {
  import opened Wrappers
  import opened Text
  import opened Tables

  /** `EndpointOverview`: one endpoint of one collector. */
  datatype EndpointOverview = EndpointOverview(
    name: string,
    ip: string,
    customerName: string,
    vendorName: string,
    packetLossRate: Decimal,
    jitter: Decimal,
    latency: Decimal,
    rtt: Decimal)

  // Positions of the fields in the remote endpoint table.
  const NameColumn: nat := 0
  const IpColumn: nat := 1
  const CustomerColumn: nat := 9
  const VendorColumn: nat := 10
  const JitterColumn: nat := 16
  const LatencyColumn: nat := 17
  const PacketLossColumn: nat := 18
  const RttColumn: nat := 19

  /** `table[column][row]`, which throws past the end of either list. */
  function CellAt(t: Table, column: nat, row: nat): Result<CellValue, Fault> {
    if column < |t| && row < |t[column]| then Success(t[column][row]) else Failure(IndexOutOfRange)
  }

  /** `Convert.ToString(table[column][row].CellValue)` */
  function TextAt(t: Table, column: nat, row: nat): Result<string, Fault> {
    var v :- CellAt(t, column, row);
    Success(ToText(v))
  }

  /** `Convert.ToDouble(table[column][row].CellValue)` */
  function NumberAt(t: Table, column: nat, row: nat): Result<Decimal, Fault> {
    var v :- CellAt(t, column, row);
    match ToDouble(v)
    case None => Failure(FormatFault)
    case Some(x) => Success(x)
  }

  /** The cell of a row exists in the column. */
  predicate HasCell(t: Table, column: nat, row: nat) {
    column < |t| && row < |t[column]|
  }

  /** A row can be turned into a record: the table reaches column 19, every
      field column is long enough, and every metric cell is numeric. */
  predicate Readable(t: Table, row: nat) {
    HasCell(t, IpColumn, row) && HasCell(t, CustomerColumn, row) && HasCell(t, VendorColumn, row) &&
    HasCell(t, JitterColumn, row) && HasCell(t, LatencyColumn, row) &&
    HasCell(t, PacketLossColumn, row) && HasCell(t, RttColumn, row) &&
    ToDouble(t[JitterColumn][row]).Some? && ToDouble(t[LatencyColumn][row]).Some? &&
    ToDouble(t[PacketLossColumn][row]).Some? && ToDouble(t[RttColumn][row]).Some?
  }

  /** The record built from one row, reading the cells in the order the
      source does; an exception on any cell fails the row. */
  function BuildRecord(t: Table, row: nat): (r: Result<EndpointOverview, Fault>)
    requires 0 < |t| && row < |t[0]|
    ensures r.Success? <==> Readable(t, row)
    ensures r.Success? ==>
              r.value.name == ToText(t[NameColumn][row]) &&
              r.value.ip == ToText(t[IpColumn][row]) &&
              r.value.customerName == ToText(t[CustomerColumn][row]) &&
              r.value.vendorName == ToText(t[VendorColumn][row]) &&
              ToDouble(t[PacketLossColumn][row]) == Some(r.value.packetLossRate) &&
              ToDouble(t[JitterColumn][row]) == Some(r.value.jitter) &&
              ToDouble(t[LatencyColumn][row]) == Some(r.value.latency) &&
              ToDouble(t[RttColumn][row]) == Some(r.value.rtt)
  {
    var name := ToText(t[0][row]);
    var ip :- TextAt(t, 1, row);
    var customerName :- TextAt(t, 9, row);
    var vendorName :- TextAt(t, 10, row);
    var packetLossRate :- NumberAt(t, 18, row);
    var jitter :- NumberAt(t, 16, row);
    var latency :- NumberAt(t, 17, row);
    var rtt :- NumberAt(t, 19, row);
    Success(EndpointOverview(name, ip, customerName, vendorName, packetLossRate, jitter, latency, rtt))
  }

  /** A table with fewer than twenty columns yields no record. */
  lemma NarrowTableFails(t: Table, row: nat)
    requires 0 < |t| < 20 && row < |t[0]|
    ensures BuildRecord(t, row).Failure?
  {
  }

  // ---------------------------------------------------------------------------
  // The dictionary of records

  /** `Dictionary<string, EndpointOverview>`: the entries, and the keys in the
      order they were first added, which is the order `Values` visits them. */
  datatype Dict = Dict(order: seq<string>, entries: map<string, EndpointOverview>)

  const EmptyDict := Dict([], map[])

  ghost predicate Valid(d: Dict) {
    (forall i, j :: 0 <= i < j < |d.order| ==> d.order[i] != d.order[j]) &&
    (forall i :: 0 <= i < |d.order| ==> d.order[i] in d.entries) &&
    |d.order| == |d.entries|
  }

  /** `d[key] = value`: an existing key keeps its place and gets the new value;
      a new key goes last. */
  function Put(d: Dict, key: string, value: EndpointOverview): (r: Dict)
    requires Valid(d)
    ensures Valid(r)
    ensures r.entries == d.entries[key := value]
    ensures key in d.entries ==> r.order == d.order
    ensures key !in d.entries ==> r.order == d.order + [key]
  {
    if key in d.entries then Dict(d.order, d.entries[key := value])
    else Dict(d.order + [key], d.entries[key := value])
  }

  /** `d.Values`, in key order. */
  function Values(d: Dict): (vs: seq<EndpointOverview>)
    requires Valid(d)
    ensures |vs| == |d.entries|
    ensures forall i :: 0 <= i < |d.order| ==> vs[i] == d.entries[d.order[i]]
  {
    seq(|d.order|, i requires 0 <= i < |d.order| => d.entries[d.order[i]])
  }

  // ---------------------------------------------------------------------------
  // Extraction

  /** The key of a row: its column-0 value as text. */
  function KeyAt(t: Table, row: nat): string
    requires 0 < |t| && row < |t[0]|
  {
    ToText(t[0][row])
  }

  /** What reading one row gives: its key, and its record or the exception
      building the record threw. */
  datatype Outcome = Outcome(key: string, record: Result<EndpointOverview, Fault>)

  /** The outcome of every row of column 0, in row order. */
  function RowOutcomes(t: Table): (os: seq<Outcome>)
    requires 0 < |t|
    ensures |os| == |t[0]|
    ensures forall i :: 0 <= i < |t[0]| ==> os[i] == Outcome(KeyAt(t, i), BuildRecord(t, i))
  {
    seq(|t[0]|, i requires 0 <= i < |t[0]| => Outcome(KeyAt(t, i), BuildRecord(t, i)))
  }

  /** The dictionary the loop of `ExtractCollectorData` holds after the given
      rows, or the exception it stopped at. */
  function Accumulate(os: seq<Outcome>): (r: Result<Dict, Fault>)
    ensures r.Success? ==> Valid(r.value) && |r.value.entries| <= |os|
    decreases |os|
  {
    if os == [] then Success(EmptyDict)
    else
      var d :- Accumulate(os[..|os| - 1]);
      var record :- os[|os| - 1].record;
      Success(Put(d, os[|os| - 1].key, record))
  }

  /** `ExtractCollectorData(table)`: no columns give an empty dictionary,
      otherwise every row of column 0 is turned into a record. */
  function Extract(t: Table): (r: Result<Dict, Fault>)
    ensures r.Success? ==> Valid(r.value)
    ensures r.Success? ==> |r.value.entries| <= if |t| == 0 then 0 else |t[0]|
  {
    if |t| == 0 then Success(EmptyDict) else Accumulate(RowOutcomes(t))
  }

  /** One more row: the previous dictionary with that row's record put in, or
      the first exception met. */
  lemma AccumulateStep(os: seq<Outcome>, n: nat)
    requires 0 < n <= |os|
    ensures Accumulate(os[..n]).Success? <==> Accumulate(os[..n - 1]).Success? && os[n - 1].record.Success?
    ensures Accumulate(os[..n]).Success? ==>
              Accumulate(os[..n]).value == Put(Accumulate(os[..n - 1]).value, os[n - 1].key, os[n - 1].record.value)
    ensures Accumulate(os[..n - 1]).Failure? ==> Accumulate(os[..n]) == Accumulate(os[..n - 1])
    ensures Accumulate(os[..n - 1]).Success? && os[n - 1].record.Failure? ==>
              Accumulate(os[..n]) == Failure(os[n - 1].record.error)
  {
    assert os[..n][..n - 1] == os[..n - 1];
  }

  /** After an exception the loop is over: later rows change nothing. */
  lemma {:induction false} AccumulateStops(os: seq<Outcome>, k: nat, n: nat)
    requires k <= n <= |os|
    requires Accumulate(os[..k]).Failure?
    ensures Accumulate(os[..n]) == Accumulate(os[..k])
    decreases n
  {
    if k < n {
      AccumulateStops(os, k, n - 1);
      AccumulateStep(os, n);
    }
  }

  /** Extraction fails exactly when one of the rows fails. */
  lemma {:induction false} AccumulateSucceeds(os: seq<Outcome>, n: nat)
    requires n <= |os|
    ensures Accumulate(os[..n]).Success? <==> forall i :: 0 <= i < n ==> os[i].record.Success?
    decreases n
  {
    if n > 0 {
      AccumulateStep(os, n);
      AccumulateSucceeds(os, n - 1);
    }
  }

  /** The keys of the first n outcomes. */
  function KeysUpTo(os: seq<Outcome>, n: nat): set<string>
    requires n <= |os|
  {
    set i | 0 <= i < n :: os[i].key
  }

  lemma KeysUpToStep(os: seq<Outcome>, n: nat)
    requires 0 < n <= |os|
    ensures KeysUpTo(os, n) == KeysUpTo(os, n - 1) + {os[n - 1].key}
  {
    forall x | x in KeysUpTo(os, n) ensures x in KeysUpTo(os, n - 1) + {os[n - 1].key} {
      var i :| 0 <= i < n && os[i].key == x;
      if i < n - 1 {
        assert x in KeysUpTo(os, n - 1);
      }
    }
  }

  /** The dictionary holds exactly the keys of the rows read. */
  lemma {:induction false} AccumulateKeys(os: seq<Outcome>, n: nat)
    requires n <= |os|
    requires Accumulate(os[..n]).Success?
    ensures Accumulate(os[..n]).value.entries.Keys == KeysUpTo(os, n)
    decreases n
  {
    if n > 0 {
      AccumulateStep(os, n);
      AccumulateKeys(os, n - 1);
      KeysUpToStep(os, n);
    }
  }

  /** Last write wins: a key maps to the record of the last row carrying it. */
  lemma {:induction false} AccumulateLastWins(os: seq<Outcome>, n: nat, i: nat)
    requires i < n <= |os|
    requires Accumulate(os[..n]).Success?
    requires forall j :: i < j < n ==> os[j].key != os[i].key
    ensures os[i].key in Accumulate(os[..n]).value.entries && os[i].record.Success?
    ensures Accumulate(os[..n]).value.entries[os[i].key] == os[i].record.value
    decreases n
  {
    AccumulateStep(os, n);
    if i < n - 1 {
      AccumulateLastWins(os, n - 1, i);
      assert os[n - 1].key != os[i].key;
    }
  }

  /** A whole table is extracted exactly when every one of its rows can be read. */
  lemma ExtractSucceeds(t: Table)
    requires 0 < |t|
    ensures Extract(t).Success? <==> forall i :: 0 <= i < |t[0]| ==> Readable(t, i)
  {
    var os, n := RowOutcomes(t), |t[0]|;
    assert os[..n] == os;
    AccumulateSucceeds(os, n);
    forall i | 0 <= i < n ensures os[i].record.Success? <==> Readable(t, i) {
    }
  }

  /** The dictionary of a table has one entry per distinct key of column 0, and
      its values are listed once each. */
  lemma ExtractKeys(t: Table)
    requires 0 < |t| && Extract(t).Success?
    ensures Extract(t).value.entries.Keys == (set i | 0 <= i < |t[0]| :: KeyAt(t, i))
    ensures |Values(Extract(t).value)| == |Extract(t).value.entries.Keys|
  {
    var os, n := RowOutcomes(t), |t[0]|;
    assert os[..n] == os;
    AccumulateKeys(os, n);
    assert KeysUpTo(os, n) == (set i | 0 <= i < n :: KeyAt(t, i));
    assert |Extract(t).value.entries.Keys| == |Extract(t).value.entries|;
  }

  /** In the dictionary of a table, a key holds the record of the last row
      carrying that key. */
  lemma ExtractLastWins(t: Table, i: nat)
    requires 0 < |t| && Extract(t).Success? && i < |t[0]|
    requires forall j :: i < j < |t[0]| ==> KeyAt(t, j) != KeyAt(t, i)
    ensures BuildRecord(t, i).Success? && KeyAt(t, i) in Extract(t).value.entries
    ensures Extract(t).value.entries[KeyAt(t, i)] == BuildRecord(t, i).value
  {
    var os, n := RowOutcomes(t), |t[0]|;
    assert os[..n] == os;
    AccumulateLastWins(os, n, i);
  }
}
