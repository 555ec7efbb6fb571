/**
 The flows of the ranking plot (QRankingPlot.ts): a flow is a run of
 consecutive columns in which one item is ranked, drawn as one band from its
 leftmost to its rightmost column. `_findFlows` cuts each item's
 appearances into maximal runs, `_sort` orders the flows for drawing,
 `_matchFlow` finds a flow's rows in another set of rankings and `_getId`
 reads the item at a position.

 A column here is the `items` list of one `Ranking`: the item ids in rank
 order.
 */
module Flows {
  import opened Wrappers
  import Sorting
  import Text

  /** `IRankingPosition`: a cell of the plot. */
  datatype Position = Position(col: nat, row: nat)

  /** `Flow`: an item id and its positions, left to right. */
  datatype Flow = Flow(id: string, items: seq<Position>)

  /**
   The rank map `_findFlows` builds for a column (`rank[items[i]] = i` for
   each i in turn): the position of the item, the last one when it occurs
   more than once.
   */
  function RankOf(items: seq<string>, id: string): (r: Option<nat>)
    ensures r.None? <==> id !in items
    ensures r.Some? ==> r.value < |items| && items[r.value] == id
    ensures r.Some? ==> forall j | r.value < j < |items| :: items[j] != id
  {
    if items == [] then None
    else if items[|items| - 1] == id then Some(|items| - 1)
    else
      var r := RankOf(items[..|items| - 1], id);
      assert r.None? <==> id !in items[..|items| - 1];
      assert items == items[..|items| - 1] + [items[|items| - 1]];
      r
  }

  /** Where `id` is ranked, column by column, left to right. */
  function Appearances(id: string, columns: seq<seq<string>>): (ps: seq<Position>)
    ensures forall k | 0 <= k < |ps| :: ps[k].col < |columns| && RankOf(columns[ps[k].col], id) == Some(ps[k].row)
    decreases |columns|
  {
    if columns == [] then []
    else
      var n := |columns| - 1;
      var before := Appearances(id, columns[..n]);
      assert forall k | 0 <= k < |before| :: columns[before[k].col] == columns[..n][before[k].col];
      match RankOf(columns[n], id)
      case Some(row) => before + [Position(n, row)]
      case None => before
  }

  /** Every column that ranks the item contributes its position. */
  lemma {:induction false} AppearancesComplete(id: string, columns: seq<seq<string>>, c: nat)
    requires c < |columns|
    ensures RankOf(columns[c], id).Some? ==> Position(c, RankOf(columns[c], id).value) in Appearances(id, columns)
    decreases |columns|
  {
    var n := |columns| - 1;
    var before := Appearances(id, columns[..n]);
    if c < n {
      assert columns[..n][c] == columns[c];
      AppearancesComplete(id, columns[..n], c);
    } else {
      assert forall k | 0 <= k < |before| :: before[k].col < n;
    }
  }

  /** The positions of a list of flows, one flow after another. */
  function Concat(flows: seq<Flow>): seq<Position> {
    if flows == [] then [] else Concat(flows[..|flows| - 1]) + flows[|flows| - 1].items
  }

  lemma ConcatSnoc(flows: seq<Flow>, f: Flow)
    ensures Concat(flows + [f]) == Concat(flows) + f.items
  {
    assert (flows + [f])[..|flows|] == flows;
  }

  /** Where a flow begins (`items[0]`); an empty flow never occurs. */
  function Start(f: Flow): Position {
    if f.items == [] then Position(0, 0) else f.items[0]
  }

  function FirstCol(f: Flow): nat {
    if f.items == [] then 0 else f.items[0].col
  }

  function LastCol(f: Flow): nat {
    if f.items == [] then 0 else f.items[|f.items| - 1].col
  }

  /** The positions lie in consecutive columns. */
  predicate Consecutive(items: seq<Position>) {
    forall k | 0 <= k < |items| :: items[k].col == items[0].col + k
  }

  /** Each position is the row of `id` in its column. */
  predicate Cells(items: seq<Position>, id: string, columns: seq<seq<string>>) {
    forall m | 0 <= m < |items| :: items[m].col < |columns| && RankOf(columns[items[m].col], id) == Some(items[m].row)
  }

  /**
   A flow of `id` in the given rankings: not empty, in consecutive columns,
   each position the row of `id` in its column.
   */
  predicate FlowOf(f: Flow, id: string, columns: seq<seq<string>>) {
    && f.id == id
    && f.items != []
    && Consecutive(f.items)
    && Cells(f.items, id, columns)
  }

  /** Each flow ends more than one column before the next begins: no two could be joined. */
  predicate Separated(flows: seq<Flow>) {
    forall j, k | 0 <= j < k < |flows| :: LastCol(flows[j]) + 1 < FirstCol(flows[k])
  }

  /** The closed flows of `_traceFlows`: separated flows of the item. */
  ghost predicate Closed(flows: seq<Flow>, id: string, columns: seq<seq<string>>) {
    && (forall k | 0 <= k < |flows| :: FlowOf(flows[k], id, columns))
    && Separated(flows)
  }

  /** The open flow of `_traceFlows`: a run of the item ending in column `i - 1`. */
  ghost predicate Open(flow: seq<Position>, id: string, columns: seq<seq<string>>, i: nat) {
    && Consecutive(flow)
    && Cells(flow, id, columns)
    && (flow != [] ==> flow[|flow| - 1].col + 1 == i)
  }

  /** Every flow ends more than one column before `bound`. */
  ghost predicate EndBefore(flows: seq<Flow>, bound: nat) {
    forall j | 0 <= j < |flows| :: LastCol(flows[j]) + 1 < bound
  }

  /**
   The state of `_traceFlows` after `i` columns: the closed flows and the
   open one hold the item's appearances so far; the closed flows are
   separated runs, and the open one is a run ending in the last column seen.
   */
  ghost predicate Tracing(itemId: string, columns: seq<seq<string>>, i: nat, flows: seq<Flow>, flow: seq<Position>) {
    && i <= |columns|
    && Concat(flows) + flow == Appearances(itemId, columns[..i])
    && Closed(flows, itemId, columns)
    && Open(flow, itemId, columns, i)
    && EndBefore(flows, if flow != [] then flow[0].col else i)
  }

  lemma AppearancesStep(itemId: string, columns: seq<seq<string>>, i: nat)
    requires i < |columns|
    ensures Appearances(itemId, columns[..i + 1]) ==
      Appearances(itemId, columns[..i]) + match RankOf(columns[i], itemId) case Some(row) => [Position(i, row)] case None => []
  {
    assert columns[..i + 1][..i] == columns[..i];
  }

  /** Before the first column there are no flows. */
  lemma TraceStart(itemId: string, columns: seq<seq<string>>)
    ensures Tracing(itemId, columns, 0, [], [])
  {
    assert columns[..0] == [];
  }

  /** The open flow grows by the item's position in the next column. */
  lemma OpenExtend(flow: seq<Position>, id: string, columns: seq<seq<string>>, i: nat, row: nat)
    requires Open(flow, id, columns, i)
    requires i < |columns| && RankOf(columns[i], id) == Some(row)
    ensures Open(flow + [Position(i, row)], id, columns, i + 1)
  {
    var flow' := flow + [Position(i, row)];
    if flow != [] {
      assert flow[|flow| - 1].col == flow[0].col + |flow| - 1;
    }
    forall k | 0 <= k < |flow'| ensures flow'[k].col == flow'[0].col + k {
      if k < |flow| {
        assert flow'[k] == flow[k];
      }
    }
  }

  /** The item is ranked in the next column: the open flow grows. */
  lemma TraceExtend(itemId: string, columns: seq<seq<string>>, i: nat, flows: seq<Flow>, flow: seq<Position>, row: nat)
    requires Tracing(itemId, columns, i, flows, flow)
    requires i < |columns| && RankOf(columns[i], itemId) == Some(row)
    ensures Tracing(itemId, columns, i + 1, flows, flow + [Position(i, row)])
  {
    AppearancesStep(itemId, columns, i);
    assert Concat(flows) + (flow + [Position(i, row)]) == Appearances(itemId, columns[..i + 1]);
    OpenExtend(flow, itemId, columns, i, row);
    if flow != [] {
      assert (flow + [Position(i, row)])[0] == flow[0];
    }
  }

  /** Closing a non-empty open flow adds a flow of the item after the closed ones. */
  lemma CloseFlow(flows: seq<Flow>, flow: seq<Position>, id: string, columns: seq<seq<string>>, i: nat)
    requires Closed(flows, id, columns) && Open(flow, id, columns, i) && flow != []
    requires EndBefore(flows, flow[0].col)
    ensures Closed(flows + [Flow(id, flow)], id, columns)
    ensures EndBefore(flows + [Flow(id, flow)], i + 1)
  {
    var f := Flow(id, flow);
    var flows' := flows + [f];
    assert FlowOf(f, id, columns);
    assert LastCol(f) + 1 == i;
    forall k | 0 <= k < |flows'| ensures FlowOf(flows'[k], id, columns) {
      if k < |flows| {
        assert flows'[k] == flows[k];
      }
    }
    forall j, k | 0 <= j < k < |flows'| ensures LastCol(flows'[j]) + 1 < FirstCol(flows'[k]) {
      assert flows'[j] == flows[j];
      if k < |flows| {
        assert flows'[k] == flows[k];
      } else {
        assert FirstCol(flows'[k]) == flow[0].col;
      }
    }
    forall j | 0 <= j < |flows'| ensures LastCol(flows'[j]) + 1 < i + 1 {
      if j < |flows| {
        assert flows'[j] == flows[j];
        assert flow[0].col <= flow[|flow| - 1].col;
      }
    }
  }

  /** The item is missing from the next column: the open flow, if any, is closed. */
  lemma TraceClose(itemId: string, columns: seq<seq<string>>, i: nat, flows: seq<Flow>, flow: seq<Position>)
    requires Tracing(itemId, columns, i, flows, flow)
    requires i < |columns| && RankOf(columns[i], itemId).None?
    ensures flow != [] ==> Tracing(itemId, columns, i + 1, flows + [Flow(itemId, flow)], [])
    ensures flow == [] ==> Tracing(itemId, columns, i + 1, flows, [])
  {
    AppearancesStep(itemId, columns, i);
    if flow != [] {
      ConcatSnoc(flows, Flow(itemId, flow));
      CloseFlow(flows, flow, itemId, columns, i);
    } else {
      assert EndBefore(flows, i + 1);
    }
  }

  /** After the last column, an open flow is closed and the flows are complete. */
  lemma TraceFinish(itemId: string, columns: seq<seq<string>>, flows: seq<Flow>, flow: seq<Position>)
    requires Tracing(itemId, columns, |columns|, flows, flow)
    ensures var done := if flow != [] then flows + [Flow(itemId, flow)] else flows;
      && Concat(done) == Appearances(itemId, columns)
      && Closed(done, itemId, columns)
  {
    assert columns[..|columns|] == columns;
    if flow != [] {
      ConcatSnoc(flows, Flow(itemId, flow));
      CloseFlow(flows, flow, itemId, columns, |columns|);
    }
  }

  /**
   `_traceFlows(itemId, ranks)`: the item's appearances, cut into maximal
   runs of consecutive columns. The positions of the flows, in order, are
   exactly the item's appearances; every flow is a run; and a gap of at
   least one column separates one flow from the next.
   */
  method TraceFlows(itemId: string, columns: seq<seq<string>>) returns (flows: seq<Flow>)
    ensures Concat(flows) == Appearances(itemId, columns)
    ensures forall k | 0 <= k < |flows| :: FlowOf(flows[k], itemId, columns)
    ensures Separated(flows)
  {
    flows := [];
    var flow: seq<Position> := [];
    var i := 0;
    TraceStart(itemId, columns);
    while i < |columns|
      invariant i <= |columns|
      invariant Tracing(itemId, columns, i, flows, flow)
      decreases |columns| - i
    {
      flows, flow := TraceColumn(itemId, columns, i, flows, flow);
      i := i + 1;
    }
    TraceFinish(itemId, columns, flows, flow);
    if flow != [] {
      flows := flows + [Flow(itemId, flow)];
    }
  }

  /**
   One column of `_traceFlows`: the open flow grows when the item is ranked
   there, and is closed when it is not.
   */
  method TraceColumn(itemId: string, columns: seq<seq<string>>, i: nat, flows: seq<Flow>, flow: seq<Position>)
    returns (flows': seq<Flow>, flow': seq<Position>)
    requires i < |columns| && Tracing(itemId, columns, i, flows, flow)
    ensures Tracing(itemId, columns, i + 1, flows', flow')
  {
    match RankOf(columns[i], itemId) {
      case Some(row) =>
        TraceExtend(itemId, columns, i, flows, flow, row);
        flows', flow' := flows, flow + [Position(i, row)];
      case None =>
        TraceClose(itemId, columns, i, flows, flow);
        if flow != [] {
          flows', flow' := flows + [Flow(itemId, flow)], [];
        } else {
          flows', flow' := flows, [];
        }
    }
  }

  /** The flows of one item. */
  function FlowsOf(flows: seq<Flow>, id: string): seq<Flow> {
    if flows == [] then []
    else
      var n := |flows| - 1;
      FlowsOf(flows[..n], id) + if flows[n].id == id then [flows[n]] else []
  }

  /** Selecting one item's flows distributes over concatenation. */
  lemma {:induction false} FlowsOfAppend(a: seq<Flow>, b: seq<Flow>, id: string)
    ensures FlowsOf(a + b, id) == FlowsOf(a, id) + FlowsOf(b, id)
    decreases |b|
  {
    if b == [] {
      assert a + b == a;
    } else {
      var n := |b| - 1;
      var ab := a + b;
      assert ab[..|ab| - 1] == a + b[..n];
      assert ab[|ab| - 1] == b[n];
      FlowsOfAppend(a, b[..n], id);
    }
  }

  /** Flows that all belong to `id` are all selected. */
  lemma {:induction false} FlowsOfAll(flows: seq<Flow>, id: string)
    requires forall k | 0 <= k < |flows| :: flows[k].id == id
    ensures FlowsOf(flows, id) == flows
  {
    if flows != [] {
      var n := |flows| - 1;
      FlowsOfAll(flows[..n], id);
      assert flows[..n] + [flows[n]] == flows;
    }
  }

  /** Flows of other items are not selected. */
  lemma {:induction false} FlowsOfNone(flows: seq<Flow>, id: string)
    requires forall k | 0 <= k < |flows| :: flows[k].id != id
    ensures FlowsOf(flows, id) == []
  {
    if flows != [] {
      FlowsOfNone(flows[..|flows| - 1], id);
    }
  }

  /**
   `_findFlows()`: the flows of every item that has a flow label, one item
   after another. Every flow belongs to a labelled item and is a flow of it
   in the rankings; the flows of each item are its traced flows; and no two
   flows start at the same position, since a position holds one item and
   one item's flows never share a column.
   */
  method FindFlows(columns: seq<seq<string>>, flowIds: seq<string>) returns (flows: seq<Flow>)
    requires Sorting.Distinct(flowIds)
    ensures forall k | 0 <= k < |flows| :: flows[k].id in flowIds && FlowOf(flows[k], flows[k].id, columns)
    ensures forall m | 0 <= m < |flowIds| ::
      Concat(FlowsOf(flows, flowIds[m])) == Appearances(flowIds[m], columns) && Separated(FlowsOf(flows, flowIds[m]))
    ensures forall j, k | 0 <= j < k < |flows| :: Start(flows[j]) != Start(flows[k])
  {
    flows := [];
    var i := 0;
    assert flowIds[..0] == [];
    while i < |flowIds|
      invariant i <= |flowIds|
      invariant Finding(columns, flowIds, i, flows)
      decreases |flowIds| - i
    {
      var traced := TraceFlows(flowIds[i], columns);
      FindStep(columns, flowIds, i, flows, traced);
      flows := flows + traced;
      i := i + 1;
    }
    assert flowIds[..i] == flowIds;
  }

  /** The state of `_findFlows` after the first `i` labelled items. */
  ghost predicate Finding(columns: seq<seq<string>>, flowIds: seq<string>, i: nat, flows: seq<Flow>) {
    && i <= |flowIds|
    && (forall k | 0 <= k < |flows| :: flows[k].id in flowIds[..i] && FlowOf(flows[k], flows[k].id, columns))
    && (forall m | 0 <= m < i :: ItemTraced(flows, flowIds[m], columns))
    && (forall j, k | 0 <= j < k < |flows| :: Start(flows[j]) != Start(flows[k]))
  }

  /** Adding the traced flows of the next item keeps the state. */
  lemma FindStep(columns: seq<seq<string>>, flowIds: seq<string>, i: nat, flows: seq<Flow>, traced: seq<Flow>)
    requires Sorting.Distinct(flowIds) && i < |flowIds|
    requires Finding(columns, flowIds, i, flows)
    requires Concat(traced) == Appearances(flowIds[i], columns)
    requires forall k | 0 <= k < |traced| :: FlowOf(traced[k], flowIds[i], columns)
    requires Separated(traced)
    ensures Finding(columns, flowIds, i + 1, flows + traced)
  {
    var id := flowIds[i];
    NextIdIsNew(flowIds, i);
    FoundOthers(flowIds, i, flows);
    FindStepSelects(columns, flowIds, i, flows, traced);
    FindStepOwners(columns, flowIds, i, flows, traced);
    FindStepStarts(columns, id, flows, traced);
  }

  /** The flows selected for item `x` are its traced flows: they join to its appearances, columns apart. */
  ghost predicate ItemTraced(flows: seq<Flow>, x: string, columns: seq<seq<string>>) {
    Concat(FlowsOf(flows, x)) == Appearances(x, columns) && Separated(FlowsOf(flows, x))
  }

  /** The next labelled item is none of the earlier ones. */
  lemma NextIdIsNew(flowIds: seq<string>, i: nat)
    requires Sorting.Distinct(flowIds) && i < |flowIds|
    ensures forall m | 0 <= m < i :: flowIds[m] != flowIds[i]
    ensures flowIds[i] !in flowIds[..i]
  {
  }

  /** The flows found so far belong to earlier items, so none to the next one. */
  lemma FoundOthers(flowIds: seq<string>, i: nat, flows: seq<Flow>)
    requires i < |flowIds| && flowIds[i] !in flowIds[..i]
    requires forall k | 0 <= k < |flows| :: flows[k].id in flowIds[..i]
    ensures forall k | 0 <= k < |flows| :: flows[k].id != flowIds[i]
  {
  }

  lemma FindStepSelects(columns: seq<seq<string>>, flowIds: seq<string>, i: nat, flows: seq<Flow>, traced: seq<Flow>)
    requires i < |flowIds| && forall m | 0 <= m < i :: flowIds[m] != flowIds[i]
    requires forall k | 0 <= k < |flows| :: flows[k].id != flowIds[i]
    requires forall m | 0 <= m < i :: ItemTraced(flows, flowIds[m], columns)
    requires Concat(traced) == Appearances(flowIds[i], columns) && Separated(traced)
    requires forall k | 0 <= k < |traced| :: traced[k].id == flowIds[i]
    ensures forall m | 0 <= m < i + 1 :: ItemTraced(flows + traced, flowIds[m], columns)
  {
    var id := flowIds[i];
    forall m | 0 <= m < i ensures ItemTraced(flows + traced, flowIds[m], columns) {
      SelectsOther(flows, traced, id, flowIds[m], columns);
    }
    SelectsNew(flows, traced, id, columns);
  }

  /** The flows of an earlier item are not changed by appending another item's flows. */
  lemma SelectsOther(flows: seq<Flow>, traced: seq<Flow>, id: string, x: string, columns: seq<seq<string>>)
    requires x != id && forall k | 0 <= k < |traced| :: traced[k].id == id
    requires ItemTraced(flows, x, columns)
    ensures FlowsOf(flows + traced, x) == FlowsOf(flows, x)
    ensures ItemTraced(flows + traced, x, columns)
  {
    FlowsOfAppend(flows, traced, x);
    FlowsOfNone(traced, x);
    assert FlowsOf(flows, x) + [] == FlowsOf(flows, x);
  }

  /** The flows of a new item, appended, are exactly the ones selected for it. */
  lemma SelectsNew(flows: seq<Flow>, traced: seq<Flow>, id: string, columns: seq<seq<string>>)
    requires forall k | 0 <= k < |flows| :: flows[k].id != id
    requires forall k | 0 <= k < |traced| :: traced[k].id == id
    requires Concat(traced) == Appearances(id, columns) && Separated(traced)
    ensures FlowsOf(flows + traced, id) == traced
    ensures ItemTraced(flows + traced, id, columns)
  {
    FlowsOfAppend(flows, traced, id);
    FlowsOfAll(traced, id);
    FlowsOfNone(flows, id);
    assert [] + traced == traced;
  }

  lemma FindStepOwners(columns: seq<seq<string>>, flowIds: seq<string>, i: nat, flows: seq<Flow>, traced: seq<Flow>)
    requires i < |flowIds|
    requires forall k | 0 <= k < |flows| :: flows[k].id in flowIds[..i] && FlowOf(flows[k], flows[k].id, columns)
    requires forall k | 0 <= k < |traced| :: FlowOf(traced[k], flowIds[i], columns)
    ensures forall k | 0 <= k < |flows + traced| ::
      (flows + traced)[k].id in flowIds[..i + 1] && FlowOf((flows + traced)[k], (flows + traced)[k].id, columns)
  {
    var all := flows + traced;
    assert flowIds[..i + 1] == flowIds[..i] + [flowIds[i]];
    forall k | 0 <= k < |all| ensures all[k].id in flowIds[..i + 1] && FlowOf(all[k], all[k].id, columns) {
      if k < |flows| {
        assert all[k] == flows[k];
      } else {
        assert all[k] == traced[k - |flows|];
      }
    }
  }

  lemma FindStepStarts(columns: seq<seq<string>>, id: string, flows: seq<Flow>, traced: seq<Flow>)
    requires forall k | 0 <= k < |flows| :: flows[k].id != id && FlowOf(flows[k], flows[k].id, columns)
    requires forall j, k | 0 <= j < k < |flows| :: Start(flows[j]) != Start(flows[k])
    requires forall k | 0 <= k < |traced| :: FlowOf(traced[k], id, columns)
    requires Separated(traced)
    ensures forall j, k | 0 <= j < k < |flows + traced| :: Start((flows + traced)[j]) != Start((flows + traced)[k])
  {
    var all := flows + traced;
    TracedStartsDistinct(traced, id, columns);
    forall j, k | 0 <= j < k < |all| ensures Start(all[j]) != Start(all[k]) {
      if k < |flows| {
        assert all[j] == flows[j] && all[k] == flows[k];
      } else if j >= |flows| {
        assert all[j] == traced[j - |flows|] && all[k] == traced[k - |flows|];
      } else {
        assert all[j] == flows[j] && all[k] == traced[k - |flows|];
        StartsHoldTheirItem(flows[j], flows[j].id, columns);
        StartsHoldTheirItem(traced[k - |flows|], id, columns);
      }
    }
  }

  /** The first position of a flow holds the flow's item. */
  lemma StartsHoldTheirItem(f: Flow, id: string, columns: seq<seq<string>>)
    requires FlowOf(f, id, columns)
    ensures Start(f).col < |columns| && Start(f).row < |columns[Start(f).col]|
    ensures columns[Start(f).col][Start(f).row] == id
  {
  }

  /** One item's separated flows start in different columns. */
  lemma TracedStartsDistinct(flows: seq<Flow>, id: string, columns: seq<seq<string>>)
    requires forall k | 0 <= k < |flows| :: FlowOf(flows[k], id, columns)
    requires Separated(flows)
    ensures forall j, k | 0 <= j < k < |flows| :: Start(flows[j]) != Start(flows[k])
  {
    forall j, k | 0 <= j < k < |flows| ensures Start(flows[j]) != Start(flows[k]) {
      assert FlowOf(flows[j], id, columns);
      assert LastCol(flows[j]) >= FirstCol(flows[j]);
    }
  }

  // ---------------------------------------------------------------------
  // _sort
  // ---------------------------------------------------------------------

  /**
   The comparator of `_sort`: the flow starting in the column further left
   first, and between flows starting in one column the upper one first.
   */
  predicate DrawnBefore(f: Flow, g: Flow) {
    && f.items != [] && g.items != []
    && (f.items[0].col < g.items[0].col || (f.items[0].col == g.items[0].col && f.items[0].row < g.items[0].row))
  }

  /** `_sort(flows)`. */
  function SortFlows(flows: seq<Flow>): (r: seq<Flow>)
    ensures multiset(r) == multiset(flows)
  {
    Sorting.Sort(flows, DrawnBefore)
  }

  /** Flows that all start somewhere, each at a different position. */
  ghost predicate DistinctStarts(flows: seq<Flow>) {
    && (forall k | 0 <= k < |flows| :: flows[k].items != [])
    && (forall j, k | 0 <= j < k < |flows| :: Start(flows[j]) != Start(flows[k]))
  }

  lemma DrawnBeforeStrictTotal(flows: seq<Flow>)
    requires DistinctStarts(flows)
    ensures Sorting.StrictTotalOn(DrawnBefore, Sorting.Elements(flows))
    ensures Sorting.Distinct(flows)
  {
    forall f, g | f in flows && g in flows && f != g ensures DrawnBefore(f, g) || DrawnBefore(g, f) {
      var j :| 0 <= j < |flows| && flows[j] == f;
      var k :| 0 <= k < |flows| && flows[k] == g;
      assert j != k;
      if j < k {
        assert f.items[0] != g.items[0];
      } else {
        assert f.items[0] != g.items[0];
      }
    }
  }

  /**
   Flows with distinct starting positions are drawn in one order only: the
   result is sorted by the comparator, and any ordering of the same flows
   that the comparator accepts is that same result, so it does not matter
   which algorithm or stability the JavaScript engine's sort has.
   */
  lemma SortFlowsUnique(flows: seq<Flow>, other: seq<Flow>)
    requires DistinctStarts(flows)
    requires multiset(other) == multiset(flows) && Sorting.Sorted(DrawnBefore, other)
    ensures Sorting.Sorted(DrawnBefore, SortFlows(flows))
    ensures other == SortFlows(flows)
  {
    DrawnBeforeStrictTotal(flows);
    var sorted := SortFlows(flows);
    assert Sorting.Elements(sorted) == Sorting.Elements(flows) by {
      forall f ensures f in sorted <==> f in flows {
        assert f in sorted <==> f in multiset(sorted);
        assert f in flows <==> f in multiset(flows);
      }
    }
    Sorting.SortedPermutationUnique(DrawnBefore, sorted, other);
  }

  /** Selecting one item's flows keeps each of its flows as often as it occurs, and no other flow. */
  lemma {:induction false} FlowsOfCount(flows: seq<Flow>, id: string, f: Flow)
    ensures multiset(FlowsOf(flows, id))[f] == if f.id == id then multiset(flows)[f] else 0
  {
    if flows != [] {
      var n := |flows| - 1;
      FlowsOfCount(flows[..n], id, f);
      assert flows == flows[..n] + [flows[n]];
    }
  }

  /** Permuting the flows permutes each item's selection. */
  lemma FlowsOfPermutation(a: seq<Flow>, b: seq<Flow>, id: string)
    requires multiset(a) == multiset(b)
    ensures multiset(FlowsOf(a, id)) == multiset(FlowsOf(b, id))
  {
    forall f ensures multiset(FlowsOf(a, id))[f] == multiset(FlowsOf(b, id))[f] {
      FlowsOfCount(a, id, f);
      FlowsOfCount(b, id, f);
    }
  }

  /** A selected flow is one of the flows, of the selected item. */
  lemma FlowsOfMember(flows: seq<Flow>, id: string, f: Flow)
    requires f in FlowsOf(flows, id)
    ensures f in flows && f.id == id
  {
    FlowsOfCount(flows, id, f);
    assert f in multiset(FlowsOf(flows, id));
    assert f in multiset(flows);
  }

  /** Selecting one item's flows keeps them in the order of the whole. */
  lemma {:induction false} FlowsOfSorted(flows: seq<Flow>, id: string)
    requires Sorting.Sorted(DrawnBefore, flows)
    ensures Sorting.Sorted(DrawnBefore, FlowsOf(flows, id))
  {
    if flows != [] {
      var n := |flows| - 1;
      var init := flows[..n];
      assert Sorting.Sorted(DrawnBefore, init);
      FlowsOfSorted(init, id);
      if flows[n].id == id {
        var sel := FlowsOf(init, id);
        forall i | 0 <= i < |sel| ensures DrawnBefore(sel[i], flows[n]) {
          FlowsOfMember(init, id, sel[i]);
        }
        SortedSnoc(sel, flows[n]);
      }
    }
  }

  /** Appending an element that comes after all the others keeps a sequence sorted. */
  lemma SortedSnoc(s: seq<Flow>, f: Flow)
    requires Sorting.Sorted(DrawnBefore, s)
    requires forall i | 0 <= i < |s| :: DrawnBefore(s[i], f)
    ensures Sorting.Sorted(DrawnBefore, s + [f])
  {
  }

  /** One item's separated flows start in increasing columns, so the comparator accepts their order. */
  lemma SeparatedSorted(flows: seq<Flow>, id: string, columns: seq<seq<string>>)
    requires forall k | 0 <= k < |flows| :: FlowOf(flows[k], id, columns)
    requires Separated(flows)
    ensures Sorting.Sorted(DrawnBefore, flows)
  {
    forall j, k | 0 <= j < k < |flows| ensures DrawnBefore(flows[j], flows[k]) {
      var items := flows[j].items;
      assert items[|items| - 1].col == items[0].col + (|items| - 1);
    }
  }

  /**
   Sorting the found flows leaves each item's flows as they were traced:
   they are already in the comparator's order, and it orders them the one
   way it can.
   */
  lemma SortKeepsItemTraced(found: seq<Flow>, flows: seq<Flow>, id: string, columns: seq<seq<string>>)
    requires multiset(flows) == multiset(found) && Sorting.Sorted(DrawnBefore, flows)
    requires Sorting.StrictTotalOn(DrawnBefore, Sorting.Elements(found))
    requires forall k | 0 <= k < |found| :: FlowOf(found[k], found[k].id, columns)
    requires ItemTraced(found, id, columns)
    ensures ItemTraced(flows, id, columns)
  {
    var mine := FlowsOf(found, id);
    var drawn := FlowsOf(flows, id);
    forall k | 0 <= k < |mine| ensures FlowOf(mine[k], id, columns) {
      FlowsOfMember(found, id, mine[k]);
    }
    SeparatedSorted(mine, id, columns);
    FlowsOfSorted(flows, id);
    FlowsOfPermutation(found, flows, id);
    assert Sorting.Elements(mine) <= Sorting.Elements(found) by {
      forall f | f in Sorting.Elements(mine) ensures f in Sorting.Elements(found) {
        FlowsOfMember(found, id, f);
      }
    }
    Sorting.StrictTotalOnSubset(DrawnBefore, Sorting.Elements(found), Sorting.Elements(mine));
    Sorting.SortedPermutationUnique(DrawnBefore, mine, drawn);
  }

  /**
   The flows `_renderFlows` draws, found and then sorted. The result is the
   order of the second, translucent pass; the first, opaque pass draws the
   same flows in the reverse order. It is sorted by the comparator and holds
   each found flow once; and every labelled item's flows are all drawn, in
   the runs it was traced into.
   */
  method DrawingOrder(columns: seq<seq<string>>, flowIds: seq<string>) returns (flows: seq<Flow>)
    requires Sorting.Distinct(flowIds)
    ensures forall k | 0 <= k < |flows| :: flows[k].id in flowIds && FlowOf(flows[k], flows[k].id, columns)
    ensures Sorting.Sorted(DrawnBefore, flows)
    ensures Sorting.Distinct(flows)
    ensures forall m | 0 <= m < |flowIds| :: ItemTraced(flows, flowIds[m], columns)
  {
    var found := FindFlows(columns, flowIds);
    assert DistinctStarts(found);
    DrawnBeforeStrictTotal(found);
    flows := SortFlows(found);
    SortedFoundFlows(columns, flowIds, found, flows);
  }

  /** What sorting keeps of the found flows: who they belong to, and each item's runs. */
  lemma SortedFoundFlows(columns: seq<seq<string>>, flowIds: seq<string>, found: seq<Flow>, flows: seq<Flow>)
    requires forall k | 0 <= k < |found| :: found[k].id in flowIds && FlowOf(found[k], found[k].id, columns)
    requires forall m | 0 <= m < |flowIds| :: ItemTraced(found, flowIds[m], columns)
    requires Sorting.StrictTotalOn(DrawnBefore, Sorting.Elements(found))
    requires multiset(flows) == multiset(found) && Sorting.Sorted(DrawnBefore, flows)
    ensures forall k | 0 <= k < |flows| :: flows[k].id in flowIds && FlowOf(flows[k], flows[k].id, columns)
    ensures Sorting.Distinct(flows)
    ensures forall m | 0 <= m < |flowIds| :: ItemTraced(flows, flowIds[m], columns)
  {
    forall k | 0 <= k < |flows| ensures flows[k].id in flowIds && FlowOf(flows[k], flows[k].id, columns) {
      assert flows[k] in multiset(found);
    }
    assert Sorting.Elements(flows) == Sorting.Elements(found) by {
      forall f ensures f in flows <==> f in found {
        assert f in flows <==> f in multiset(flows);
        assert f in found <==> f in multiset(found);
      }
    }
    Sorting.SortedIsDistinct(DrawnBefore, flows);
    forall m | 0 <= m < |flowIds| ensures ItemTraced(flows, flowIds[m], columns) {
      SortKeepsItemTraced(found, flows, flowIds[m], columns);
    }
  }

  // ---------------------------------------------------------------------
  // _matchFlow, _getId, _numRows
  // ---------------------------------------------------------------------

  /**
   `_numRows`: the length of the longest ranking (`d3.max` of the lengths,
   undefined when there are no columns).
   */
  function NumRows(columns: seq<seq<string>>): (r: Option<nat>)
    ensures r.None? <==> columns == []
    ensures r.Some? ==> (forall c | 0 <= c < |columns| :: |columns[c]| <= r.value) && exists c | 0 <= c < |columns| :: |columns[c]| == r.value
  {
    if columns == [] then None
    else
      var n := |columns| - 1;
      match NumRows(columns[..n])
      case None => Some(|columns[n]|)
      case Some(m) =>
        assert forall c | 0 <= c < n :: columns[..n][c] == columns[c];
        Some(if |columns[n]| > m then |columns[n]| else m)
  }

  /**
   The position a flow's item has in another set of rankings: its first row
   in the same column, or `numRows` (just below the plot) when it is not
   ranked there.
   */
  function MatchPosition(id: string, p: Position, rankings: seq<seq<string>>, numRows: nat): (q: Position)
    requires p.col < |rankings|
    ensures q.col == p.col
    ensures id in rankings[p.col] ==> q.row < |rankings[p.col]| && rankings[p.col][q.row] == id && id !in rankings[p.col][..q.row]
    ensures id !in rankings[p.col] ==> q.row == numRows
  {
    var row := Text.IndexOf(rankings[p.col], id);
    Position(p.col, if row == -1 then numRows else row)
  }

  /**
   `_matchFlow(flow, rankings)`: the flow moved to the rows its item has in
   `rankings`, column by column. A column beyond the rankings reads
   `undefined.items`, a TypeError.
   */
  function MatchFlow(flow: Flow, rankings: seq<seq<string>>, numRows: nat): (r: Outcome<Flow>)
    ensures r.Thrown? <==> exists k | 0 <= k < |flow.items| :: flow.items[k].col >= |rankings|
    ensures r.Ok? ==> r.value.id == flow.id && |r.value.items| == |flow.items|
    ensures r.Ok? ==> forall k | 0 <= k < |flow.items| ::
      r.value.items[k] == MatchPosition(flow.id, flow.items[k], rankings, numRows)
  {
    if exists k | 0 <= k < |flow.items| :: flow.items[k].col >= |rankings| then Thrown
    else Ok(Flow(flow.id, seq(|flow.items|, k requires 0 <= k < |flow.items| =>
      MatchPosition(flow.id, flow.items[k], rankings, numRows))))
  }

  /** No item is ranked twice in a column. */
  ghost predicate DistinctColumns(columns: seq<seq<string>>) {
    forall c | 0 <= c < |columns| :: Sorting.Distinct(columns[c])
  }

  /**
   Matching a flow against the rankings it was traced from gives the flow
   back, when no column ranks an item twice: the first row `indexOf` finds
   is the row the rank map recorded.
   */
  lemma MatchTracedFlow(f: Flow, columns: seq<seq<string>>, numRows: nat)
    requires FlowOf(f, f.id, columns) && DistinctColumns(columns)
    ensures MatchFlow(f, columns, numRows) == Ok(f)
  {
    var r := MatchFlow(f, columns, numRows);
    assert r.Ok?;
    forall k | 0 <= k < |f.items| ensures r.value.items[k] == f.items[k] {
      var p := f.items[k];
      var q := MatchPosition(f.id, p, columns, numRows);
      var items := columns[p.col];
      assert items[p.row] == f.id;
      assert q.row < |items| && items[q.row] == f.id;
      assert q == p;
    }
    assert r.value.items == f.items;
  }

  /**
   `_getId(col, row)`: the item at a position, `undefined` past the last
   column, past the end of the ranking, or where the id is the empty string
   (`items[row] || undefined`). A negative column reads `undefined.items`.
   */
  function GetId(rankings: seq<seq<string>>, col: int, row: int): (r: Outcome<Option<string>>)
    ensures r.Thrown? <==> col < 0
    ensures r == Ok(None) <==>
      col >= |rankings| || (0 <= col && (row < 0 || row >= |rankings[col]| || rankings[col][row] == ""))
    ensures r.Ok? && r.value.Some? ==> 0 <= col < |rankings| && 0 <= row < |rankings[col]| && r.value.value == rankings[col][row]
  {
    if col >= |rankings| then Ok(None)
    else if col < 0 then Thrown
    else if 0 <= row < |rankings[col]| && rankings[col][row] != "" then Ok(Some(rankings[col][row]))
    else Ok(None)
  }

  /** Every position of a flow reads back the flow's item, unless that id is empty. */
  lemma GetIdOnFlow(f: Flow, columns: seq<seq<string>>, k: nat)
    requires FlowOf(f, f.id, columns) && k < |f.items|
    ensures GetId(columns, f.items[k].col, f.items[k].row) == if f.id == "" then Ok(None) else Ok(Some(f.id))
  {
  }
}
