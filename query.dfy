/**
 * The query pipeline of the "All Endpoint Data" data source (`CmData`): it
 * discovers the collectors of a front-end element, fetches each collector's
 * endpoint table under the organisational filter, and accumulates one output
 * row per endpoint. Any exception discards every row accumulated so far.
 */
module Query {
  import opened Wrappers
  import opened Text
  import opened Tables
  import opened Transport
  import opened Filters
  import opened Endpoints
  import opened Rows

  /** The front-end table listing the collectors. */
  const CollectorsTableId: int := 700
  /** The collector table listing the endpoints. */
  const EndpointsTableId: int := 2000
  /** The filter used for the collector table. */
  const FullTable: string := "forceFullTable=true"

  /** What `GetAllCollectors` returns: the first column of the front end's
      collector table, as text; no collectors when the table has no columns. */
  function Collectors(answer: Request -> Reply, frontEndElement: string): (r: Result<seq<string>, Fault>)
    ensures r.Success? <==> FetchTable(answer, frontEndElement, CollectorsTableId, [FullTable]).Success?
    ensures r.Success? ==>
              var t := FetchTable(answer, frontEndElement, CollectorsTableId, [FullTable]).value;
              (|t| == 0 ==> r.value == []) &&
              (|t| > 0 ==> |r.value| == |t[0]| && forall i :: 0 <= i < |t[0]| ==> r.value[i] == ToText(t[0][i]))
  {
    var t :- FetchTable(answer, frontEndElement, CollectorsTableId, [FullTable]);
    if |t| > 0 then Success(seq(|t[0]|, i requires 0 <= i < |t[0]| => ToText(t[0][i])))
    else Success([])
  }

  /** The rows one collector contributes: fetch its table under the filter,
      extract the records, turn each into a row. */
  function CollectorRows(answer: Request -> Reply, collector: string, filter: string): (r: Result<seq<Row>, Fault>)
    ensures var table := FetchTable(answer, collector, EndpointsTableId, [filter]);
            (r.Success? <==> table.Success? && Extract(table.value).Success?) &&
            (r.Success? ==> |r.value| == |Extract(table.value).value.entries|)
    ensures AddressOf(collector).None? ==> r == Success([])
  {
    var t :- FetchTable(answer, collector, EndpointsTableId, [filter]);
    var d :- Extract(t);
    Success(RowsOf(Values(d)))
  }

  /** The requests a run sent, and its rows or the exception that ended it. */
  datatype Run = Run(sent: seq<Request>, rows: Result<seq<Row>, Fault>)

  /** One pass of the collector loop body: the request `GetTable` sends for the
      collector, and the collector's rows. */
  function CollectorStep(answer: Request -> Reply, filter: string, collector: string): Run {
    Run(RequestsOf(collector, EndpointsTableId, [filter]), CollectorRows(answer, collector, filter))
  }

  function CollectorStepOf(answer: Request -> Reply, filter: string): string -> Run {
    collector => CollectorStep(answer, filter, collector)
  }

  /** A loop over the collectors running `step` on each, in order, and
      stopping at the first exception. */
  function LoopOver(step: string -> Run, collectors: seq<string>): (r: Run)
    ensures r.rows.Success? ==> forall i :: 0 <= i < |collectors| ==> step(collectors[i]).rows.Success?
    decreases |collectors|
  {
    if collectors == [] then Run([], Success([]))
    else
      var before := LoopOver(step, collectors[..|collectors| - 1]);
      var last := step(collectors[|collectors| - 1]);
      if before.rows.Failure? then before
      else
        Run(before.sent + last.sent,
            match last.rows
            case Failure(e) => Failure(e)
            case Success(rows) => Success(before.rows.value + rows))
  }

  /** The collector loop of `OnArgumentsProcessed`. */
  function CollectorLoop(answer: Request -> Reply, collectors: seq<string>, filter: string): (r: Run)
    ensures r.rows.Success? <==> forall i :: 0 <= i < |collectors| ==> CollectorRows(answer, collectors[i], filter).Success?
  {
    LoopAllOrNothing(CollectorStepOf(answer, filter), collectors);
    LoopOver(CollectorStepOf(answer, filter), collectors)
  }

  /** A whole query: discovery first, then the filter, then the collector loop. */
  function QueryRun(answer: Request -> Reply, frontEndElement: string, systemType: string, systemName: string): (r: Run)
    ensures RequestsOf(frontEndElement, CollectorsTableId, [FullTable]) <= r.sent
    ensures r.rows.Success? ==> Collectors(answer, frontEndElement).Success?
    ensures r.rows.Success? && r.rows.value != [] ==> systemType in FieldCodes
  {
    var discovery := RequestsOf(frontEndElement, CollectorsTableId, [FullTable]);
    match Collectors(answer, frontEndElement)
    case Failure(e) => Run(discovery, Failure(e))
    case Success(collectors) =>
      var filter := SystemTypeFilter(systemType, systemName);
      if filter == "" then Run(discovery, Success([]))
      else
        var loop := CollectorLoop(answer, collectors, filter);
        Run(discovery + loop.sent, loop.rows)
  }

  /** The three ways a query ends. */
  lemma QueryRunCases(answer: Request -> Reply, frontEndElement: string, systemType: string, systemName: string)
    ensures var discovery := RequestsOf(frontEndElement, CollectorsTableId, [FullTable]);
            var found := Collectors(answer, frontEndElement);
            var filter := SystemTypeFilter(systemType, systemName);
            var run := QueryRun(answer, frontEndElement, systemType, systemName);
            (found.Failure? ==> run.sent == discovery && run.rows.Failure?) &&
            (found.Success? && filter == "" ==> run == Run(discovery, Success([]))) &&
            (found.Success? && filter != "" ==>
               run.sent == discovery + LoopOver(CollectorStepOf(answer, filter), found.value).sent &&
               run.rows == LoopOver(CollectorStepOf(answer, filter), found.value).rows)
  {
  }

  /** The rows a query leaves behind: none after an exception. */
  function Output(run: Run): seq<Row> {
    if run.rows.Success? then run.rows.value else []
  }

  // ---------------------------------------------------------------------------
  // All or nothing

  predicate AllSucceed(step: string -> Run, collectors: seq<string>) {
    forall i :: 0 <= i < |collectors| ==> step(collectors[i]).rows.Success?
  }

  /** The rows of every collector, concatenated in collector order. */
  function ConcatRows(step: string -> Run, collectors: seq<string>): seq<Row>
    requires AllSucceed(step, collectors)
    decreases |collectors|
  {
    if collectors == [] then []
    else step(collectors[0]).rows.value + ConcatRows(step, collectors[1..])
  }

  lemma {:induction false} ConcatRowsSnoc(step: string -> Run, collectors: seq<string>)
    requires collectors != [] && AllSucceed(step, collectors)
    ensures AllSucceed(step, collectors[..|collectors| - 1])
    ensures ConcatRows(step, collectors) ==
              ConcatRows(step, collectors[..|collectors| - 1]) + step(collectors[|collectors| - 1]).rows.value
    decreases |collectors|
  {
    var init := collectors[..|collectors| - 1];
    if |collectors| > 1 {
      assert collectors[1..][..|collectors| - 2] == init[1..];
      ConcatRowsSnoc(step, collectors[1..]);
    }
  }

  /** The loop succeeds exactly when every collector does, and then its rows
      are the rows of every collector in collector order. */
  lemma {:induction false} LoopAllOrNothing(step: string -> Run, collectors: seq<string>)
    ensures LoopOver(step, collectors).rows.Success? <==> AllSucceed(step, collectors)
    ensures LoopOver(step, collectors).rows.Success? ==>
              LoopOver(step, collectors).rows.value == ConcatRows(step, collectors)
    decreases |collectors|
  {
    if collectors != [] {
      var init := collectors[..|collectors| - 1];
      LoopAllOrNothing(step, init);
      if AllSucceed(step, collectors) {
        ConcatRowsSnoc(step, collectors);
      }
    }
  }

  /** Once the loop has failed, later collectors change nothing: no request
      is sent for them. */
  lemma {:induction false} LoopStops(step: string -> Run, collectors: seq<string>, k: nat)
    requires k <= |collectors|
    requires LoopOver(step, collectors[..k]).rows.Failure?
    ensures LoopOver(step, collectors) == LoopOver(step, collectors[..k])
    decreases |collectors|
  {
    if k < |collectors| {
      var init := collectors[..|collectors| - 1];
      assert init[..k] == collectors[..k];
      LoopStops(step, init, k);
    } else {
      assert collectors[..k] == collectors;
    }
  }

  /** One more collector: the loop so far, extended by one step unless it has
      already failed. */
  lemma LoopStep(step: string -> Run, collectors: seq<string>, i: nat)
    requires i < |collectors|
    ensures var before := LoopOver(step, collectors[..i]);
            var last := step(collectors[i]);
            LoopOver(step, collectors[..i + 1]) ==
              if before.rows.Failure? then before
              else if last.rows.Failure? then Run(before.sent + last.sent, Failure(last.rows.error))
              else Run(before.sent + last.sent, Success(before.rows.value + last.rows.value))
  {
    assert collectors[..i + 1][..i] == collectors[..i];
  }

  /** One collector's step, in terms of what `GetTable` and
      `ExtractCollectorData` return. */
  lemma CollectorStepCases(answer: Request -> Reply, filter: string, collector: string)
    ensures var step := CollectorStepOf(answer, filter)(collector);
            var table := FetchTable(answer, collector, EndpointsTableId, [filter]);
            step.sent == RequestsOf(collector, EndpointsTableId, [filter]) &&
            (table.Failure? ==> step.rows.Failure?) &&
            (table.Success? && Extract(table.value).Failure? ==> step.rows.Failure?) &&
            (table.Success? && Extract(table.value).Success? ==>
               step.rows == Success(RowsOf(Values(Extract(table.value).value))))
  {
  }

  /** When the loop succeeds, each collector was asked exactly once, in order. */
  lemma {:induction false} LoopRequests(step: string -> Run, collectors: seq<string>, i: nat)
    requires i < |collectors|
    requires LoopOver(step, collectors).rows.Success?
    ensures LoopOver(step, collectors[..i]).rows.Success?
    ensures LoopOver(step, collectors[..i + 1]).sent == LoopOver(step, collectors[..i]).sent + step(collectors[i]).sent
    decreases |collectors|
  {
    var init := collectors[..|collectors| - 1];
    if i < |collectors| - 1 {
      assert init[..i] == collectors[..i] && init[..i + 1] == collectors[..i + 1];
      LoopRequests(step, init, i);
    } else {
      assert collectors[..i] == init;
      assert collectors[..i + 1] == collectors;
    }
  }

  /** The rows of a query: the rows of every collector in discovery order when
      discovery, the filter and every collector succeed, and none otherwise. */
  lemma QueryOutputAllOrNothing(answer: Request -> Reply, frontEndElement: string, systemType: string, systemName: string)
    ensures var filter := SystemTypeFilter(systemType, systemName);
            var found := Collectors(answer, frontEndElement);
            Output(QueryRun(answer, frontEndElement, systemType, systemName)) ==
              if found.Success? && filter != "" && AllSucceed(CollectorStepOf(answer, filter), found.value)
              then ConcatRows(CollectorStepOf(answer, filter), found.value)
              else []
  {
    var filter := SystemTypeFilter(systemType, systemName);
    var found := Collectors(answer, frontEndElement);
    if found.Success? && filter != "" {
      LoopAllOrNothing(CollectorStepOf(answer, filter), found.value);
    }
  }

  /** An unknown dimension gives no rows, but only after the collector
      discovery request has gone out (when the address is valid). */
  lemma QueryUnknownFilter(answer: Request -> Reply, frontEndElement: string, systemType: string, systemName: string)
    requires systemType !in FieldCodes
    ensures Output(QueryRun(answer, frontEndElement, systemType, systemName)) == []
    ensures QueryRun(answer, frontEndElement, systemType, systemName).sent ==
              RequestsOf(frontEndElement, CollectorsTableId, [FullTable])
    ensures AddressOf(frontEndElement).Some? ==> |QueryRun(answer, frontEndElement, systemType, systemName).sent| == 1
  {
  }

  /** A front end without collectors gives no rows. */
  lemma QueryNoCollectors(answer: Request -> Reply, frontEndElement: string, systemType: string, systemName: string)
    requires Collectors(answer, frontEndElement) == Success([])
    ensures Output(QueryRun(answer, frontEndElement, systemType, systemName)) == []
  {
    if SystemTypeFilter(systemType, systemName) != "" {
      assert CollectorLoop(answer, [], SystemTypeFilter(systemType, systemName)).rows == Success([]);
    }
  }

  /** Requests logged in two batches are the same log as the two batches
      logged at once. */
  lemma AppendAssociative<T>(a: seq<T>, b: seq<T>, c: seq<T>)
    ensures a + (b + c) == (a + b) + c
  {
  }

  // ---------------------------------------------------------------------------
  // The data source object

  /** `CmData`: the state of one data source instance. */
  class CmData {
    const dms: Dms
    var frontEndElement: string
    var systemType: string
    var systemName: string
    var listGqiRows: seq<Row>
    var systemTypeFilter: string
    var allCollectors: seq<string>

    constructor (dms: Dms)
      ensures this.dms == dms
      ensures frontEndElement == "" && systemType == "" && systemName == ""
      ensures listGqiRows == [] && systemTypeFilter == "" && allCollectors == []
    {
      this.dms := dms;
      frontEndElement, systemType, systemName := "", "", "";
      listGqiRows := [];
      systemTypeFilter := "";
      allCollectors := [];
    }

    /** `GetTable`: parse the address, send one request, clean up the reply. */
    method GetTable(element: string, tableId: int, filters: seq<string>) returns (r: Result<Table, Fault>)
      modifies dms
      ensures r == FetchTable(dms.answer, element, tableId, filters)
      ensures dms.sent == old(dms.sent) + RequestsOf(element, tableId, filters)
    {
      var ids := AddressOf(element);
      if ids.None? {
        return Success([]);
      }
      var reply := dms.SendMessage(GetPartialTable(ids.value.0, ids.value.1, tableId, filters));
      if reply.Thrown? {
        return Failure(TransportFault);
      }
      return Success(CleanColumns(reply.payload));
    }

    /** `GetAllCollectors` */
    method GetAllCollectors() returns (r: Result<seq<string>, Fault>)
      modifies dms
      ensures r == Collectors(dms.answer, frontEndElement)
      ensures dms.sent == old(dms.sent) + RequestsOf(frontEndElement, CollectorsTableId, [FullTable])
    {
      var collectorsTable := GetTable(frontEndElement, CollectorsTableId, [FullTable]);
      if collectorsTable.Failure? {
        return Failure(collectorsTable.error);
      }
      var t := collectorsTable.value;
      if |t| > 0 {
        return Success(seq(|t[0]|, i requires 0 <= i < |t[0]| => ToText(t[0][i])));
      }
      return Success([]);
    }

    /** `GetSystemTypeFilter` */
    function GetSystemTypeFilter(): (r: string)
      reads this
      ensures systemType in FieldCodes ==> r == FullFilter(FieldCodes[systemType], systemName)
      ensures r == "" <==> systemType !in FieldCodes
    {
      SystemTypeFilter(systemType, systemName)
    }

    /** `ExtractCollectorData`: one record per row of column 0, written into the
        dictionary under the row's key. */
    static method ExtractCollectorData(collectorTable: Table) returns (r: Result<Dict, Fault>)
      ensures r == Extract(collectorTable)
      ensures r.Success? ==> Valid(r.value)
    {
      var endpointRows := EmptyDict;
      if |collectorTable| > 0 {
        ghost var outcomes := RowOutcomes(collectorTable);
        var i := 0;
        while i < |collectorTable[0]|
          invariant 0 <= i <= |collectorTable[0]|
          invariant Accumulate(outcomes[..i]) == Success(endpointRows)
        {
          var key := ToText(collectorTable[0][i]);
          var row := BuildRecord(collectorTable, i);
          assert outcomes[i] == Outcome(key, row);
          AccumulateStep(outcomes, i + 1);
          if row.Failure? {
            AccumulateStops(outcomes, i + 1, |outcomes|);
            assert outcomes[..|outcomes|] == outcomes;
            return Failure(row.error);
          }
          endpointRows := Put(endpointRows, key, row.value);
          i := i + 1;
        }
        assert outcomes[..i] == outcomes;
      }
      return Success(endpointRows);
    }

    /** `AddAllCableModems`: one row per record, appended in dictionary order. */
    method AddAllCableModems(oltRows: Dict)
      requires Valid(oltRows)
      modifies this`listGqiRows
      ensures listGqiRows == old(listGqiRows) + RowsOf(Values(oltRows))
    {
      var values := Values(oltRows);
      var i := 0;
      while i < |values|
        invariant 0 <= i <= |values|
        invariant listGqiRows == old(listGqiRows) + RowsOf(values[..i])
      {
        listGqiRows := listGqiRows + [RowOf(values[i])];
        assert values[..i + 1] == values[..i] + [values[i]];
        RowsOfAppend(values[..i], values[i]);
        i := i + 1;
      }
      assert values[..i] == values;
    }

    /** One pass of the `foreach` in `OnArgumentsProcessed`: fetch the
        collector's table under the filter, extract its records and append
        their rows. `failed` tells that one of these threw. */
    method AddCollectorRows(collector: string) returns (failed: bool)
      modifies this`listGqiRows, dms
      ensures var step := CollectorStep(dms.answer, systemTypeFilter, collector);
              dms.sent == old(dms.sent) + step.sent &&
              (failed <==> step.rows.Failure?) &&
              (!failed ==> listGqiRows == old(listGqiRows) + step.rows.value) &&
              (failed ==> listGqiRows == old(listGqiRows))
    {
      CollectorStepCases(dms.answer, systemTypeFilter, collector);
      var collectorRows := GetTable(collector, EndpointsTableId, [systemTypeFilter]);
      if collectorRows.Failure? {
        return true;
      }
      var endpointRows := ExtractCollectorData(collectorRows.value);
      if endpointRows.Failure? {
        return true;
      }
      AddAllCableModems(endpointRows.value);
      return false;
    }

    /** The `foreach` over the collectors in `OnArgumentsProcessed`: each
        collector's table is fetched under the filter, extracted, and its rows
        appended. `failed` tells that an exception ended the loop early, after
        which no further request goes out. */
    method FetchFromCollectors() returns (failed: bool)
      modifies this`listGqiRows, dms
      ensures var run := CollectorLoop(dms.answer, allCollectors, systemTypeFilter);
              dms.sent == old(dms.sent) + run.sent &&
              (failed <==> run.rows.Failure?) &&
              (!failed ==> listGqiRows == old(listGqiRows) + run.rows.value)
    {
      ghost var step := CollectorStepOf(dms.answer, systemTypeFilter);
      var i := 0;
      while i < |allCollectors|
        invariant 0 <= i <= |allCollectors|
        invariant LoopOver(step, allCollectors[..i]).rows.Success?
        invariant listGqiRows == old(listGqiRows) + LoopOver(step, allCollectors[..i]).rows.value
        invariant dms.sent == old(dms.sent) + LoopOver(step, allCollectors[..i]).sent
      {
        LoopStep(step, allCollectors, i);
        var collectorFailed := AddCollectorRows(allCollectors[i]);
        AppendAssociative(old(dms.sent), LoopOver(step, allCollectors[..i]).sent, step(allCollectors[i]).sent);
        if !collectorFailed {
          AppendAssociative(old(listGqiRows), LoopOver(step, allCollectors[..i]).rows.value, step(allCollectors[i]).rows.value);
        }
        if collectorFailed {
          LoopStops(step, allCollectors, i + 1);
          return true;
        }
        i := i + 1;
      }
      assert allCollectors[..i] == allCollectors;
      return false;
    }

    /** `OnArgumentsProcessed`: run the whole query; an exception anywhere
        leaves no rows. */
    method OnArgumentsProcessed(frontEnd: string, dimension: string, value: string)
      modifies this, dms
      ensures frontEndElement == frontEnd && systemType == dimension && systemName == value
      ensures listGqiRows == Output(QueryRun(dms.answer, frontEnd, dimension, value))
      ensures dms.sent == old(dms.sent) + QueryRun(dms.answer, frontEnd, dimension, value).sent
      ensures Collectors(dms.answer, frontEnd).Success? ==>
                allCollectors == Collectors(dms.answer, frontEnd).value &&
                systemTypeFilter == SystemTypeFilter(dimension, value)
      ensures Collectors(dms.answer, frontEnd).Failure? ==>
                allCollectors == old(allCollectors) && systemTypeFilter == old(systemTypeFilter)
    {
      QueryRunCases(dms.answer, frontEnd, dimension, value);
      listGqiRows := [];
      frontEndElement := frontEnd;
      systemType := dimension;
      systemName := value;

      var collectors := GetAllCollectors();
      if collectors.Failure? {
        listGqiRows := [];
        return;
      }
      allCollectors := collectors.value;

      systemTypeFilter := GetSystemTypeFilter();
      if systemTypeFilter == "" {
        return;
      }

      var failed := FetchFromCollectors();
      AppendAssociative(old(dms.sent), RequestsOf(frontEnd, CollectorsTableId, [FullTable]),
                        CollectorLoop(dms.answer, allCollectors, systemTypeFilter).sent);
      if failed {
        listGqiRows := [];
      }
    }
  }
}
