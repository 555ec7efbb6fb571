/**
 The table a ranking plot is drawn from (`TabularData` in Common.ts): a list
 of dimensions, exactly one of which enumerates the statistics (average,
 percentage, column n, ...) shown in each cell.
 */
module Tabular {
  import opened Wrappers
  import Text

  /** A statistic offered by the table; `isNumber` marks the numeric ones. */
  datatype Statistic = Statistic(id: string, isNumber: bool)

  /**
   A dimension of the table. The elements of the statistics dimension are
   its statistics; other dimensions only contribute their size here.
   */
  datatype Dimension = Dimension(isStatistic: bool, count: nat, statistics: seq<Statistic>)

  /** A table together with the position of its statistics dimension. */
  datatype TabularData = TabularData(dimensions: seq<Dimension>, statisticsDimensionIndex: nat)
  {
    ghost predicate Valid() {
      statisticsDimensionIndex < |dimensions| && dimensions[statisticsDimensionIndex].isStatistic
    }

    /** The available statistics, indexed by the statistics coordinate. */
    function Statistics(): seq<Statistic>
      requires Valid()
    {
      dimensions[statisticsDimensionIndex].statistics
    }
  }

  /** The loop of the constructor: the first dimension flagged as the statistics dimension. */
  function FirstStatisticsDimension(dims: seq<Dimension>): (r: Option<nat>)
    ensures r.None? <==> forall i | 0 <= i < |dims| :: !dims[i].isStatistic
    ensures r.Some? ==> r.value < |dims| && dims[r.value].isStatistic
                        && forall i | 0 <= i < r.value :: !dims[i].isStatistic
  {
    if dims == [] then None
    else if dims[0].isStatistic then Some(0)
    else match FirstStatisticsDimension(dims[1..])
      case None => None
      case Some(i) => Some(i + 1)
  }

  /**
   `new TabularData(data)`. Without a statistics dimension the index stays
   -1 and reading `data.Dimensions[-1].Elements` throws.
   */
  function MakeTabularData(dims: seq<Dimension>): (r: Outcome<TabularData>)
    ensures r.Thrown? <==> forall i | 0 <= i < |dims| :: !dims[i].isStatistic
    ensures r.Ok? ==> r.value.dimensions == dims && r.value.Valid()
                      && forall i | 0 <= i < r.value.statisticsDimensionIndex :: !dims[i].isStatistic
  {
    match FirstStatisticsDimension(dims)
    case None => Thrown
    case Some(i) => Ok(TabularData(dims, i))
  }

  /** The statistic ids, in coordinate order. */
  function Ids(statistics: seq<Statistic>): (ids: seq<string>)
    ensures |ids| == |statistics| && forall i | 0 <= i < |ids| :: ids[i] == statistics[i].id
  {
    seq(|statistics|, i requires 0 <= i < |statistics| => statistics[i].id)
  }

  /**
   `getStatistic(id)`: the first statistic with that id, or `undefined`
   (`filter(...)[0]` of an empty list).
   */
  function GetStatistic(statistics: seq<Statistic>, id: string): (r: Option<Statistic>)
    ensures r.None? <==> forall i | 0 <= i < |statistics| :: statistics[i].id != id
    ensures r.Some? ==> exists i | 0 <= i < |statistics| ::
      statistics[i] == r.value && r.value.id == id && forall j | 0 <= j < i :: statistics[j].id != id
  {
    var ids := Ids(statistics);
    var i := Text.IndexOf(ids, id);
    if i == -1 then None
    else
      assert forall j | 0 <= j < i :: statistics[j].id != id by {
        forall j | 0 <= j < i ensures statistics[j].id != id {
          assert ids[..i][j] == ids[j];
        }
      }
      Some(statistics[i])
  }

  /**
   `insertStatisticCoordinate(statisticIndex, dataCoords)`: a copy of the
   coordinates with the statistic index spliced in at the statistics
   dimension's position (`splice` clamps a position past the end to the end).
   */
  function InsertStatisticCoordinate(t: TabularData, statisticIndex: int, dataCoords: seq<int>): (r: seq<int>)
    ensures var p := Position(t, dataCoords);
      && |r| == |dataCoords| + 1
      && r[p] == statisticIndex
      && r[..p] == dataCoords[..p]
      && r[p + 1..] == dataCoords[p..]
  {
    var p := Position(t, dataCoords);
    dataCoords[..p] + [statisticIndex] + dataCoords[p..]
  }

  /** Where the statistic coordinate goes. */
  function Position(t: TabularData, dataCoords: seq<int>): nat {
    if t.statisticsDimensionIndex <= |dataCoords| then t.statisticsDimensionIndex else |dataCoords|
  }

  /** Removing the element at `p`. */
  function RemoveAt(s: seq<int>, p: nat): (r: seq<int>)
    requires p < |s|
    ensures |r| == |s| - 1
  {
    s[..p] + s[p + 1..]
  }

  /** Removing the inserted statistic coordinate gives the data coordinates back. */
  lemma InsertThenRemove(t: TabularData, statisticIndex: int, dataCoords: seq<int>)
    ensures RemoveAt(InsertStatisticCoordinate(t, statisticIndex, dataCoords), Position(t, dataCoords)) == dataCoords
  {
    var p := Position(t, dataCoords);
    assert dataCoords == dataCoords[..p] + dataCoords[p..];
  }

  /**
   The coordinates `dataPoint(statisticId, coords)` looks up: the index of
   the first statistic with that id (-1 when there is none) inserted into
   the data coordinates, which keep their order around it.
   */
  function StatisticCoordinates(t: TabularData, statisticId: string, dataCoords: seq<int>): (r: seq<int>)
    requires t.Valid()
    ensures var p := Position(t, dataCoords);
      && |r| == |dataCoords| + 1
      && -1 <= r[p] < |t.Statistics()|
      && (r[p] == -1 <==> forall i | 0 <= i < |t.Statistics()| :: t.Statistics()[i].id != statisticId)
      && (r[p] >= 0 ==> t.Statistics()[r[p]].id == statisticId)
      && (r[p] >= 0 ==> forall j | 0 <= j < r[p] :: t.Statistics()[j].id != statisticId)
      && r[..p] == dataCoords[..p]
      && r[p + 1..] == dataCoords[p..]
  {
    var ids := Ids(t.Statistics());
    var k := Text.IndexOf(ids, statisticId);
    assert k >= 0 ==> forall j | 0 <= j < k :: t.Statistics()[j].id != statisticId by {
      if k >= 0 {
        forall j | 0 <= j < k ensures t.Statistics()[j].id != statisticId {
          assert ids[..k][j] == ids[j];
        }
      }
    }
    InsertStatisticCoordinate(t, k, dataCoords)
  }
}
