/**
 * The remote table client behind `CmData.GetTable`: the element address
 * "dmaId/elementId", the partial-table request sent to the DataMiner system,
 * and the reply. The DataMiner connection (`GQIDMS.SendMessage`) is foreign
 * code; it is modelled as a fixed answer per request plus a log of the
 * requests sent.
 */
module Transport {
  import opened Wrappers
  import opened Text
  import opened Tables

  /** `GetPartialTableMessage(dmaId, elemId, tableId, filter)` */
  datatype Request = GetPartialTable(dmaId: int, elementId: int, tableId: int, filters: seq<string>)

  /** What `SendMessage` does with a request: it throws (or answers with
      something that is not a `ParameterChangeEventMessage`, which fails the
      cast), or it answers with a payload that may hold nulls. */
  datatype Reply = Thrown | Answered(payload: Payload)

  /** The connection to the DataMiner system. */
  class Dms {
    /** The reply the system gives to each request. */
    const answer: Request -> Reply
    /** Every request sent so far, oldest first. */
    var sent: seq<Request>

    constructor (answer: Request -> Reply)
      ensures this.answer == answer && sent == []
    {
      this.answer := answer;
      sent := [];
    }

    method SendMessage(request: Request) returns (reply: Reply)
      modifies this
      ensures sent == old(sent) + [request]
      ensures reply == answer(request)
    {
      sent := sent + [request];
      reply := answer(request);
    }
  }

  /** The DMA id and element id of an element address: at least two
      '/'-separated parts, the first two both Int32 numerals. */
  function AddressOf(element: string): (r: Option<(int, int)>)
    ensures r.Some? ==> Int32Min <= r.value.0 <= Int32Max && Int32Min <= r.value.1 <= Int32Max
  {
    var ids := Split(element, '/');
    if |ids| > 1 && ParseInt32(ids[0]).Some? && ParseInt32(ids[1]).Some?
    then Some((ParseInt32(ids[0]).value, ParseInt32(ids[1]).value))
    else None
  }

  /** An address without a separator is rejected. */
  lemma AddressNeedsSeparator(element: string)
    requires '/' !in element
    ensures AddressOf(element) == None
  {
    SplitWithoutSeparator(element, '/');
  }

  /** Only the first two parts of an address count; anything after a second
      separator is ignored. */
  lemma AddressIgnoresExtraParts(dma: string, elem: string, rest: string)
    requires '/' !in dma && '/' !in elem
    ensures AddressOf(dma + "/" + elem + "/" + rest) == AddressOf(dma + "/" + elem)
  {
    SplitAtSeparator(elem, rest, '/');
    assert dma + "/" + elem + "/" + rest == dma + ['/'] + (elem + ['/'] + rest);
    SplitAtSeparator(dma, elem + ['/'] + rest, '/');
    SplitWithoutSeparator(elem, '/');
    SplitAtSeparator(dma, elem, '/');
  }

  /** An address written from two Int32 ids is read back as those ids. */
  lemma AddressRoundTrip(dmaId: int, elementId: int)
    requires Int32Min <= dmaId <= Int32Max && Int32Min <= elementId <= Int32Max
    ensures AddressOf(FormatDecimal(Decimal(dmaId, 0)) + "/" + FormatDecimal(Decimal(elementId, 0))) == Some((dmaId, elementId))
  {
    var dma, elem := FormatDecimal(Decimal(dmaId, 0)), FormatDecimal(Decimal(elementId, 0));
    assert Split(dma + "/" + elem, '/') == [dma, elem] by {
      NumeralHasNoSlash(dmaId);
      NumeralHasNoSlash(elementId);
      SplitWithoutSeparator(elem, '/');
      SplitAtSeparator(dma, elem, '/');
    }
    assert ParseInt32(dma) == Some(dmaId) by {
      Int32RoundTrip(dmaId);
    }
    assert ParseInt32(elem) == Some(elementId) by {
      Int32RoundTrip(elementId);
    }
    AddressOfPieces(dma + "/" + elem, dma, elem);
  }

  /** How AddressOf reads an address whose first two parts are known. */
  lemma AddressOfPieces(element: string, dma: string, elem: string)
    requires Split(element, '/') == [dma, elem]
    ensures ParseInt32(dma).Some? && ParseInt32(elem).Some? ==>
              AddressOf(element) == Some((ParseInt32(dma).value, ParseInt32(elem).value))
  {
  }

  lemma NumeralHasNoSlash(n: int)
    ensures '/' !in FormatDecimal(Decimal(n, 0))
  {
    FormatWhole(n);
    DigitsHaveNoSeparator(BodyText(Decimal(n, 0)), '/');
  }

  /** The request `GetTable` sends, or None when the address is rejected. */
  function TableRequest(element: string, tableId: int, filters: seq<string>): Option<Request> {
    match AddressOf(element)
    case None => None
    case Some((dmaId, elementId)) => Some(GetPartialTable(dmaId, elementId, tableId, filters))
  }

  /** The requests `GetTable` sends: one, or none for a rejected address. */
  function RequestsOf(element: string, tableId: int, filters: seq<string>): (sent: seq<Request>)
    ensures |sent| <= 1
    ensures sent == [] <==> AddressOf(element).None?
  {
    match TableRequest(element, tableId, filters)
    case None => []
    case Some(request) => [request]
  }

  /** What `GetTable(element, tableId, filters)` returns against a system that
      answers with `answer`: an empty table for a rejected address, the
      transport's exception, or the cleaned-up reply. */
  function FetchTable(answer: Request -> Reply, element: string, tableId: int, filters: seq<string>): (r: Result<Table, Fault>)
    ensures AddressOf(element).None? ==> r == Success([])
    ensures r.Failure? <==> TableRequest(element, tableId, filters).Some? && answer(TableRequest(element, tableId, filters).value).Thrown?
    ensures r.Failure? ==> r.error == TransportFault
    ensures AddressOf(element).Some? && r.Success? ==>
              r.value == CleanColumns(answer(TableRequest(element, tableId, filters).value).payload)
  {
    match TableRequest(element, tableId, filters)
    case None => Success([])
    case Some(request) =>
      match answer(request)
      case Thrown => Failure(TransportFault)
      case Answered(payload) => Success(CleanColumns(payload))
  }
}
