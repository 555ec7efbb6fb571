/**
 Ranking one column of the table (`_sortOrder` and `_rankColumn` in
 QRankingPlot.ts): the rows are ordered by the ranking statistic, largest
 first, and the ones with a usable value of at least the minimum are taken,
 up to the maximum number of ranks, noting which neighbours tie.
 */
module Ranker {
  import opened Wrappers
  import Sorting

  /** A data point's value: a number, a blank cell, or NaN (which includes an undefined value). */
  datatype Cell = Num(v: int) | Blank | NaN

  /** The sort key: a blank or NaN value sorts as minus infinity. */
  datatype Key = NegInf | Fin(v: int)

  function SortKey(c: Cell): Key {
    if c.Num? then Fin(c.v) else NegInf
  }

  /** `a > b` on keys. */
  predicate Above(a: Key, b: Key) {
    a.Fin? && (b.NegInf? || a.v > b.v)
  }

  /**
   The order the comparator of `_sortOrder` defines on row indices: the
   larger value first, and between equal values the earlier row first.
   Indices outside the column (never compared) fall back to index order.
   */
  predicate RanksBefore(cells: seq<Cell>, i: nat, j: nat) {
    if i < |cells| && j < |cells| then
      var a := SortKey(cells[i]);
      var b := SortKey(cells[j]);
      Above(a, b) || (a == b && i < j)
    else i < j
  }

  /** `d3.range(0, n)`. */
  function Range(n: nat): (r: seq<nat>)
    ensures |r| == n && forall i | 0 <= i < n :: r[i] == i
  {
    seq(n, i requires 0 <= i < n => i)
  }

  /** `RanksBefore` is a strict total order on the row indices. */
  lemma RanksBeforeStrictTotal(cells: seq<Cell>, n: nat)
    ensures Sorting.StrictTotalOn((i: nat, j: nat) => RanksBefore(cells, i, j), Sorting.Elements(Range(n)))
  {
  }

  lemma RangeDistinct(n: nat)
    ensures Sorting.Distinct(Range(n))
  {
  }

  /**
   `_sortOrder(values)`: a permutation of the row indices, each row ranked
   before every later one (descending by value, ties in table order, blank
   and NaN last). Whatever algorithm `Array.prototype.sort` uses, this is the
   only such permutation (`SortOrderUnique`).
   */
  function SortOrder(cells: seq<Cell>): (order: seq<nat>)
    ensures |order| == |cells|
    ensures multiset(order) == multiset(Range(|cells|))
    ensures RowsIn(order, |cells|) && forall k: nat | k < |cells| :: k in order
    ensures forall i, j | 0 <= i < j < |order| :: RanksBefore(cells, order[i], order[j])
  {
    var lt := (i: nat, j: nat) => RanksBefore(cells, i, j);
    RanksBeforeStrictTotal(cells, |cells|);
    RangeDistinct(|cells|);
    var order := Sorting.Sort(Range(|cells|), lt);
    assert |order| == |multiset(order)| == |cells|;
    assert Sorting.Sorted(lt, order);
    PermutationOfRange(order, |cells|);
    order
  }

  /** A permutation of the rows that ranks each before the later ones is the sort order. */
  lemma SortOrderUnique(cells: seq<Cell>, other: seq<nat>)
    requires multiset(other) == multiset(Range(|cells|))
    requires forall i, j | 0 <= i < j < |other| :: RanksBefore(cells, other[i], other[j])
    ensures other == SortOrder(cells)
  {
    var lt := (i: nat, j: nat) => RanksBefore(cells, i, j);
    var order := SortOrder(cells);
    RanksBeforeStrictTotal(cells, |cells|);
    assert Sorting.Elements(order) == Sorting.Elements(Range(|cells|)) by {
      forall x ensures x in order <==> x in Range(|cells|) {
        assert x in order <==> x in multiset(order);
        assert x in Range(|cells|) <==> x in multiset(Range(|cells|));
      }
    }
    Sorting.SortedPermutationUnique(lt, order, other);
  }

  lemma RangeContains(n: nat, k: nat)
    ensures k in multiset(Range(n)) <==> k < n
  {
    if k < n {
      assert Range(n)[k] == k;
    }
  }

  /** A permutation of `0..n-1` holds row indices only, and every one of them. */
  lemma PermutationOfRange(order: seq<nat>, n: nat)
    requires multiset(order) == multiset(Range(n))
    ensures RowsIn(order, n)
    ensures forall k: nat | k < n :: k in order
  {
    forall i | 0 <= i < |order| ensures order[i] < n {
      assert order[i] in multiset(order);
      RangeContains(n, order[i]);
    }
    forall k: nat | k < n ensures k in order {
      RangeContains(n, k);
      assert k in multiset(order);
    }
  }

  /** The sort order lists every row exactly once. */
  lemma SortOrderDistinct(cells: seq<Cell>)
    ensures var order := SortOrder(cells);
      forall i, j | 0 <= i < j < |order| :: order[i] != order[j]
  {
    var order := SortOrder(cells);
    forall i, j | 0 <= i < j < |order| ensures order[i] != order[j] {
      assert RanksBefore(cells, order[i], order[j]);
    }
  }

  /** Rows with a blank or NaN value come after every row with a number. */
  lemma BlanksSortLast(cells: seq<Cell>, i: nat, j: nat)
    requires var order := SortOrder(cells); i < j < |order| && !cells[order[i]].Num?
    ensures !cells[SortOrder(cells)[j]].Num?
  {
    var order := SortOrder(cells);
    var a := order[i];
    var b := order[j];
    assert a < |cells| && b < |cells|;
    assert RanksBefore(cells, a, b);
    assert SortKey(cells[a]) == NegInf;
  }

  // ---------------------------------------------------------------------
  // _rankColumn
  // ---------------------------------------------------------------------

  /** Every entry is a row index of a column of `n` rows. */
  predicate RowsIn(rows: seq<nat>, n: nat) {
    forall i | 0 <= i < |rows| :: rows[i] < n
  }

  /** Every entry is a row holding a number. */
  predicate NumericRows(rows: seq<nat>, cells: seq<Cell>) {
    forall i | 0 <= i < |rows| :: rows[i] < |cells| && cells[rows[i]].Num?
  }

  /** The exclusion rule: blank, undefined or NaN, or below the minimum value. */
  predicate Excluded(c: Cell, minValue: int) {
    !c.Num? || c.v < minValue
  }

  /** The rows of `order` whose value is not excluded, in the same order. */
  function Included(order: seq<nat>, cells: seq<Cell>, minValue: int): (rows: seq<nat>)
    requires RowsIn(order, |cells|)
    ensures forall i | 0 <= i < |rows| :: rows[i] in order && rows[i] < |cells| && !Excluded(cells[rows[i]], minValue)
    ensures NumericRows(rows, cells)
    ensures |rows| <= |order|
  {
    if order == [] then []
    else
      var rest := Included(order[1..], cells, minValue);
      if Excluded(cells[order[0]], minValue) then rest else [order[0]] + rest
  }

  lemma {:induction false} IncludedAppend(a: seq<nat>, b: seq<nat>, cells: seq<Cell>, minValue: int)
    requires RowsIn(a, |cells|) && RowsIn(b, |cells|)
    ensures Included(a + b, cells, minValue) == Included(a, cells, minValue) + Included(b, cells, minValue)
  {
    assert RowsIn(a + b, |cells|);
    if a != [] {
      assert (a + b)[0] == a[0];
      assert (a + b)[1..] == a[1..] + b;
      IncludedAppend(a[1..], b, cells, minValue);
    } else {
      assert a + b == b;
    }
  }

  /** Every row of `order` that is not excluded is included. */
  lemma {:induction false} IncludedComplete(order: seq<nat>, cells: seq<Cell>, minValue: int)
    requires RowsIn(order, |cells|)
    ensures forall i | 0 <= i < |order| && !Excluded(cells[order[i]], minValue) :: order[i] in Included(order, cells, minValue)
  {
    if order != [] {
      IncludedComplete(order[1..], cells, minValue);
    }
  }

  /** Filtering keeps the order of the rows that remain, for any ordering `lt`. */
  lemma {:induction false} IncludedKeepsOrder(order: seq<nat>, cells: seq<Cell>, minValue: int, lt: (nat, nat) -> bool)
    requires RowsIn(order, |cells|)
    requires Sorting.Sorted(lt, order)
    ensures Sorting.Sorted(lt, Included(order, cells, minValue))
  {
    if order != [] {
      var tail := order[1..];
      Sorting.SortedTail(lt, order);
      IncludedKeepsOrder(tail, cells, minValue, lt);
      var rest := Included(tail, cells, minValue);
      if !Excluded(cells[order[0]], minValue) {
        forall j | 0 <= j < |rest| ensures lt(order[0], rest[j]) {
          var k :| 0 <= k < |tail| && tail[k] == rest[j];
          assert order[k + 1] == rest[j];
        }
        Sorting.ConsSorted(order[0], rest, lt);
      }
    }
  }

  /**
   The stopping rule: `items.length === max_ranks` is checked after each
   push, so a positive maximum keeps the first `maxRanks` rows and a maximum
   of zero or less never stops the loop.
   */
  function Take(rows: seq<nat>, maxRanks: int): (r: seq<nat>)
    ensures maxRanks >= 1 && |rows| > maxRanks ==> r == rows[..maxRanks]
    ensures maxRanks < 1 || |rows| <= maxRanks ==> r == rows
  {
    if maxRanks >= 1 && |rows| > maxRanks then rows[..maxRanks] else rows
  }

  /** The rows a column's ranking lists, in rank order. */
  function RankedRows(cells: seq<Cell>, minValue: int, maxRanks: int): seq<nat> {
    Take(Included(SortOrder(cells), cells, minValue), maxRanks)
  }

  /**
   The included rows of the sort order keep its order: each ranks before
   every later one.
   */
  lemma IncludedInRankOrder(cells: seq<Cell>, minValue: int)
    ensures forall i, j | 0 <= i < j < |Included(SortOrder(cells), cells, minValue)| ::
      RanksBefore(cells, Included(SortOrder(cells), cells, minValue)[i], Included(SortOrder(cells), cells, minValue)[j])
  {
    var lt := (a: nat, b: nat) => RanksBefore(cells, a, b);
    var order := SortOrder(cells);
    assert Sorting.Sorted(lt, order);
    IncludedKeepsOrder(order, cells, minValue, lt);
  }

  /**
   A column's ranked rows are rows holding a value of at least the minimum,
   each ranked before every later one: values never increase down the
   ranking, equal values keep table order, and no row appears twice. A
   positive maximum bounds their number.
   */
  lemma RankedRowsInOrder(cells: seq<Cell>, minValue: int, maxRanks: int)
    ensures maxRanks >= 1 ==> |RankedRows(cells, minValue, maxRanks)| <= maxRanks
    ensures forall i | 0 <= i < |RankedRows(cells, minValue, maxRanks)| ::
      RankedRows(cells, minValue, maxRanks)[i] < |cells| && !Excluded(cells[RankedRows(cells, minValue, maxRanks)[i]], minValue)
    ensures forall i, j | 0 <= i < j < |RankedRows(cells, minValue, maxRanks)| ::
      RanksBefore(cells, RankedRows(cells, minValue, maxRanks)[i], RankedRows(cells, minValue, maxRanks)[j])
    ensures forall i, j | 0 <= i < j < |RankedRows(cells, minValue, maxRanks)| ::
      var a := RankedRows(cells, minValue, maxRanks)[i];
      var b := RankedRows(cells, minValue, maxRanks)[j];
      a != b && cells[a].v >= cells[b].v && (cells[a].v == cells[b].v ==> a < b)
  {
    var included := Included(SortOrder(cells), cells, minValue);
    var rows := RankedRows(cells, minValue, maxRanks);
    IncludedInRankOrder(cells, minValue);
    assert forall i | 0 <= i < |rows| :: rows[i] == included[i];
  }

  /**
   The ranking is the top of the column: a row with a usable value that is
   left out is left out only because `maxRanks` rows were taken already,
   every one of them ranking before it. With fewer than `maxRanks` ranked
   rows (or no positive maximum) every usable row is ranked.
   */
  lemma RankedRowsTop(cells: seq<Cell>, minValue: int, maxRanks: int, k: nat)
    requires k < |cells| && !Excluded(cells[k], minValue)
    requires k !in RankedRows(cells, minValue, maxRanks)
    ensures maxRanks >= 1 && |RankedRows(cells, minValue, maxRanks)| == maxRanks
    ensures forall i | 0 <= i < |RankedRows(cells, minValue, maxRanks)| ::
      RanksBefore(cells, RankedRows(cells, minValue, maxRanks)[i], k)
  {
    var order := SortOrder(cells);
    var included := Included(order, cells, minValue);
    var rows := RankedRows(cells, minValue, maxRanks);
    assert k in order;
    var p :| 0 <= p < |order| && order[p] == k;
    IncludedComplete(order, cells, minValue);
    assert k in included;
    var q :| 0 <= q < |included| && included[q] == k;
    if maxRanks < 1 || |included| <= maxRanks {
      assert false;
    }
    assert rows == included[..maxRanks];
    assert q >= maxRanks;
    IncludedInRankOrder(cells, minValue);
    forall i | 0 <= i < |rows| ensures RanksBefore(cells, rows[i], k) {
      assert rows[i] == included[i];
      assert RanksBefore(cells, included[i], included[q]);
    }
  }

  /** The values of the given rows. */
  function ValuesOf(cells: seq<Cell>, rows: seq<nat>): (vs: seq<int>)
    requires NumericRows(rows, cells)
    ensures |vs| == |rows| && forall i | 0 <= i < |rows| :: vs[i] == cells[rows[i]].v
  {
    seq(|rows|, i requires 0 <= i < |rows| => cells[rows[i]].v)
  }

  /** The entries of `xs` at the given positions. */
  function Pick<T>(xs: seq<T>, rows: seq<nat>): (r: seq<T>)
    requires RowsIn(rows, |xs|)
    ensures |r| == |rows| && forall i | 0 <= i < |rows| :: r[i] == xs[rows[i]]
  {
    seq(|rows|, i requires 0 <= i < |rows| => xs[rows[i]])
  }

  /**
   The tie markers of a list of ranked values, built as the loop builds them:
   when a value equals the one before it, the position of the one before is
   recorded. Position t is recorded exactly when values t and t + 1 are equal,
   and the markers increase.
   */
  function TiesOf(vs: seq<int>): (ties: seq<nat>)
    ensures forall t :: t in ties <==> 0 <= t < |vs| - 1 && vs[t] == vs[t + 1]
    ensures forall i, j | 0 <= i < j < |ties| :: ties[i] < ties[j]
    ensures forall i | 0 <= i < |ties| :: ties[i] < |vs| - 1
  {
    if |vs| < 2 then []
    else
      var n := |vs| - 1;
      var before := TiesOf(vs[..n]);
      if vs[n - 1] == vs[n] then before + [n - 1] else before
  }

  lemma PickSnoc<T>(xs: seq<T>, rows: seq<nat>, k: nat)
    requires RowsIn(rows, |xs|) && k < |xs|
    ensures RowsIn(rows + [k], |xs|)
    ensures Pick(xs, rows + [k]) == Pick(xs, rows) + [xs[k]]
  {
  }

  /** Ranking one more value adds a tie marker exactly when it equals the last value. */
  lemma TiesSnoc(cells: seq<Cell>, rows: seq<nat>, k: nat)
    requires NumericRows(rows, cells) && k < |cells| && cells[k].Num?
    ensures NumericRows(rows + [k], cells)
    ensures TiesOf(ValuesOf(cells, rows + [k])) ==
      TiesOf(ValuesOf(cells, rows)) + if rows != [] && cells[rows[|rows| - 1]].v == cells[k].v then [|rows| - 1] else []
  {
    var vs := ValuesOf(cells, rows + [k]);
    assert vs[..|rows|] == ValuesOf(cells, rows);
  }

  /**
   Where the loop of `_rankColumn` stops: at the end of the sort order, or
   once `maxRanks` rows are taken; either way it has taken the ranked rows.
   */
  lemma RankLoopExit(cells: seq<Cell>, order: seq<nat>, i: nat, minValue: int, maxRanks: int, done: bool)
    requires RowsIn(order, |cells|) && i <= |order|
    requires i == |order| || done
    requires done ==> maxRanks >= 1 && |Included(order[..i], cells, minValue)| == maxRanks
    requires !done && maxRanks >= 1 ==> |Included(order[..i], cells, minValue)| < maxRanks
    ensures Take(Included(order, cells, minValue), maxRanks) == Included(order[..i], cells, minValue)
  {
    assert order == order[..i] + order[i..];
    IncludedAppend(order[..i], order[i..], cells, minValue);
  }

  /** The result of ranking a column. */
  datatype Ranking = Ranking(columnLabel: string, items: seq<string>, ties: seq<nat>, values: Option<seq<string>>)

  /** The ranked lists `_rankColumn` builds, and the value of the last row taken. */
  datatype Ranked = Ranked(items: seq<string>, ties: seq<nat>, formatted: seq<string>, prev: Option<int>)

  /** `r` holds the lists for the rows `rows` taken so far. */
  predicate Tracks(r: Ranked, rows: seq<nat>, cs: seq<Cell>, ids: seq<string>, display: seq<string>)
  {
    && NumericRows(rows, cs) && RowsIn(rows, |ids|) && RowsIn(rows, |display|)
    && r.items == Pick(ids, rows)
    && r.formatted == Pick(display, rows)
    && r.ties == TiesOf(ValuesOf(cs, rows))
    && r.prev == if rows == [] then None else Some(cs[rows[|rows| - 1]].v)
  }

  /**
   The body of the loop for a row that is not excluded: append its id and
   display value, and record a tie with the previous row when the values
   are equal.
   */
  method TakeRow(r: Ranked, index: nat, cs: seq<Cell>, ids: seq<string>, display: seq<string>,
                 ghost rows: seq<nat>) returns (r': Ranked)
    requires index < |cs| <= |ids| && |cs| <= |display| && cs[index].Num?
    requires Tracks(r, rows, cs, ids, display)
    ensures Tracks(r', rows + [index], cs, ids, display)
  {
    TiesSnoc(cs, rows, index);
    PickSnoc(ids, rows, index);
    PickSnoc(display, rows, index);
    var ties := r.ties;
    if r.prev == Some(cs[index].v) {
      ties := ties + [|r.items| - 1];
    }
    r' := Ranked(r.items + [ids[index]], ties, r.formatted + [display[index]], Some(cs[index].v));
  }

  /**
   The loop of `_rankColumn` over the rows in sort order: take each row that
   is not excluded, marking a tie with the previous taken row when the
   values are equal, until `maxRanks` rows are taken.
   */
  method RankInOrder(order: seq<nat>, cs: seq<Cell>, ids: seq<string>, display: seq<string>,
                     minValue: int, maxRanks: int) returns (r: Ranked)
    requires RowsIn(order, |cs|) && |cs| <= |ids| && |cs| <= |display|
    ensures var rows := Take(Included(order, cs, minValue), maxRanks);
      && NumericRows(rows, cs) && RowsIn(rows, |ids|) && RowsIn(rows, |display|)
      && r.items == Pick(ids, rows)
      && r.ties == TiesOf(ValuesOf(cs, rows))
      && r.formatted == Pick(display, rows)
  {
    r := Ranked([], [], [], None);
    ghost var rows: seq<nat> := [];
    var i := 0;
    var done := false;
    assert order[..0] == [];
    while i < |order| && !done
      invariant 0 <= i <= |order|
      invariant rows == Included(order[..i], cs, minValue)
      invariant done ==> maxRanks >= 1 && |rows| == maxRanks
      invariant !done && maxRanks >= 1 ==> |rows| < maxRanks
      invariant Tracks(r, rows, cs, ids, display)
    {
      var index := order[i];
      IncludedStep(order, i, cs, minValue);
      if !Excluded(cs[index], minValue) {
        r := TakeRow(r, index, cs, ids, display, rows);
        rows := rows + [index];
        if |r.items| == maxRanks {
          done := true;
        }
      }
      i := i + 1;
    }
    RankLoopExit(cs, order, i, minValue, maxRanks, done);
  }

  /** One step of the loop: the next row in order is taken exactly when it is not excluded. */
  lemma IncludedStep(order: seq<nat>, i: nat, cells: seq<Cell>, minValue: int)
    requires RowsIn(order, |cells|) && i < |order|
    ensures Included(order[..i + 1], cells, minValue) ==
      Included(order[..i], cells, minValue) + if Excluded(cells[order[i]], minValue) then [] else [order[i]]
  {
    IncludedAppend(order[..i], [order[i]], cells, minValue);
    assert order[..i + 1] == order[..i] + [order[i]];
    assert [order[i]][1..] == [];
  }

  /**
   `_rankColumn(col)`. `ids` are the row ids, `cells` the ranking statistic's
   values for the column (`None` when no ranking statistic is available),
   `display` the formatted display values when values are shown. The label
   is taken as computed (the column-n suffix is not modelled).
   */
  method RankColumn(columnLabel: string, ids: seq<string>, cells: Option<seq<Cell>>, display: Option<seq<string>>,
                    minValue: int, maxRanks: int) returns (r: Ranking)
    requires cells.Some? ==> |cells.value| <= |ids|
    requires cells.Some? && display.Some? ==> |cells.value| <= |display.value|
    ensures cells.None? ==> r == Ranking(columnLabel, [], [], None)
    ensures cells.Some? ==>
      var rows := RankedRows(cells.value, minValue, maxRanks);
      && r.columnLabel == columnLabel
      && r.items == Pick(ids, rows)
      && r.ties == TiesOf(ValuesOf(cells.value, rows))
      && r.values == (if display.Some? then Some(Pick(display.value, rows)) else None)
  {
    if cells.None? {
      return Ranking(columnLabel, [], [], None);
    }
    var cs := cells.value;
    var order := SortOrder(cs);
    var shown := if display.Some? then display.value else seq(|cs|, _ => "");
    var ranked := RankInOrder(order, cs, ids, shown, minValue, maxRanks);
    r := Ranking(columnLabel, ranked.items, ranked.ties, if display.Some? then Some(ranked.formatted) else None);
  }
}
