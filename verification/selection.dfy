/**
 The ranking plot's choices of statistic and colours (QRankingPlot.ts):
 which statistic the items are ranked by, the colour of each flow, and the
 colour of the bar drawn between two tied items.

 A colour map is a JavaScript object from item ids to colours; an entry may
 hold `undefined` (`None`), as the default map does when the default
 palette is empty.
 */
module Selection {
  import opened Wrappers
  import Palette
  import Tabular

  type ColourMap = map<string, Option<string>>

  // ---------------------------------------------------------------------
  // _selectRankingStatisticId
  // ---------------------------------------------------------------------

  /** The position of the first numeric statistic. */
  function FirstNumeric(statistics: seq<Tabular.Statistic>): (r: Option<nat>)
    ensures r.None? <==> forall i | 0 <= i < |statistics| :: !statistics[i].isNumber
    ensures r.Some? ==> r.value < |statistics| && statistics[r.value].isNumber
                        && forall i | 0 <= i < r.value :: !statistics[i].isNumber
  {
    if statistics == [] then None
    else if statistics[0].isNumber then Some(0)
    else match FirstNumeric(statistics[1..])
      case None => None
      case Some(i) => Some(i + 1)
  }

  /** Some statistic has the id `id`. */
  predicate Offered(statistics: seq<Tabular.Statistic>, id: string) {
    exists i | 0 <= i < |statistics| :: statistics[i].id == id
  }

  /**
   `_selectRankingStatisticId(statistics)`, where `current` is the ranking
   statistic in the settings: the current one when it is set (a non-empty
   string) and offered; otherwise the first numeric statistic; otherwise
   undefined.
   */
  function SelectRankingStatisticId(current: Option<string>, statistics: seq<Tabular.Statistic>): (r: Option<string>)
    ensures current.Some? && current.value != "" && Offered(statistics, current.value) ==> r == current
    ensures !(current.Some? && current.value != "" && Offered(statistics, current.value)) ==>
      (r.None? <==> forall i | 0 <= i < |statistics| :: !statistics[i].isNumber)
    ensures !(current.Some? && current.value != "" && Offered(statistics, current.value)) && r.Some? ==>
      exists i | 0 <= i < |statistics| :: statistics[i].isNumber && statistics[i].id == r.value
        && forall j | 0 <= j < i :: !statistics[j].isNumber
  {
    if current.Some? && current.value != "" && OfferedAt(statistics, current.value) >= 0 then current
    else match FirstNumeric(statistics)
      case None => None
      case Some(i) => Some(statistics[i].id)
  }

  /** The loop that looks for the current id among the statistics. */
  function OfferedAt(statistics: seq<Tabular.Statistic>, id: string): (r: int)
    ensures r >= 0 <==> Offered(statistics, id)
    ensures r >= 0 ==> r < |statistics| && statistics[r].id == id
  {
    if statistics == [] then -1
    else if statistics[0].id == id then 0
    else
      var r := OfferedAt(statistics[1..], id);
      assert Offered(statistics, id) ==> Offered(statistics[1..], id) by {
        if Offered(statistics, id) {
          var i :| 0 <= i < |statistics| && statistics[i].id == id;
          assert i > 0 && statistics[1..][i - 1].id == id;
        }
      }
      if r >= 0 then r + 1 else -1
  }

  /**
   Selecting again, with the chosen statistic as the current one, keeps the
   choice: once stored, the selection is stable while the statistics do not
   change.
   */
  lemma SelectionStable(current: Option<string>, statistics: seq<Tabular.Statistic>)
    ensures var chosen := SelectRankingStatisticId(current, statistics);
      SelectRankingStatisticId(chosen, statistics) == chosen
  {
    var chosen := SelectRankingStatisticId(current, statistics);
    if chosen.Some? && chosen.value != "" {
      if current.Some? && current.value != "" && Offered(statistics, current.value) {
      } else {
        var i :| 0 <= i < |statistics| && statistics[i].isNumber && statistics[i].id == chosen.value;
        assert Offered(statistics, chosen.value);
      }
    }
  }

  // ---------------------------------------------------------------------
  // Colour maps
  // ---------------------------------------------------------------------

  /**
   `_makeDefaultColourMap()`: item i of the row dimension gets the default
   colour `i % colours.length`; an id given twice keeps its later colour.
   With distinct ids, item i simply gets the palette's colour i, cycling.
   */
  function MakeDefaultColourMap(keys: seq<string>, colours: seq<string>): (m: ColourMap)
    ensures forall k :: k in m <==> k in keys
    ensures (forall i, j | 0 <= i < j < |keys| :: keys[i] != keys[j]) ==>
      forall i | 0 <= i < |keys| :: m[keys[i]] == Palette.Cycle(colours, i)
  {
    var m := Palette.LabelColors(keys, colours);
    assert (forall i, j | 0 <= i < j < |keys| :: keys[i] != keys[j]) ==>
      forall i | 0 <= i < |keys| :: m[keys[i]] == Palette.Cycle(colours, i) by {
      if forall i, j | 0 <= i < j < |keys| :: keys[i] != keys[j] {
        forall i | 0 <= i < |keys| ensures m[keys[i]] == Palette.Cycle(colours, i) {
          assert Palette.LastIndex(keys, keys[i]) == i;
        }
      }
    }
    m
  }

  /**
   `_getColourMap()`: the default colour map (made from the row ids and the
   default colours the first time it is needed), with every colour the user
   set replacing the default one.
   */
  function GetColourMap(storedDefault: Option<ColourMap>, keys: seq<string>, colours: seq<string>,
                        user: Option<ColourMap>): (m: ColourMap)
    ensures var defaults := if storedDefault.Some? then storedDefault.value else MakeDefaultColourMap(keys, colours);
      && (forall k :: k in m <==> k in defaults || (user.Some? && k in user.value))
      && (forall k | user.Some? && k in user.value :: m[k] == user.value[k])
      && (forall k | k in defaults && !(user.Some? && k in user.value) :: m[k] == defaults[k])
  {
    var defaults := if storedDefault.Some? then storedDefault.value else MakeDefaultColourMap(keys, colours);
    if user.Some? then defaults + user.value else defaults
  }

  /** `_flowColour(id)`: the colour of an item's flow, undefined when it has none. */
  function FlowColour(m: ColourMap, id: string): Option<string> {
    if id in m then m[id] else None
  }

  const Grey := "#A5A5A5"
  const DarkGrey := "#636363"

  /**
   `_chooseEqualityBarColour(id, adjacentId)`: the colour of the adjacent
   item's flow, unless that is the colour of this item's flow, in which case
   grey (dark grey when the shared colour is itself grey). The bar therefore
   never has the colour of the flow it is drawn on.
   */
  function ChooseEqualityBarColour(m: ColourMap, id: string, adjacentId: string): (r: Option<string>)
    ensures r != FlowColour(m, id)
    ensures FlowColour(m, adjacentId) != FlowColour(m, id) ==> r == FlowColour(m, adjacentId)
    ensures FlowColour(m, adjacentId) == FlowColour(m, id) ==>
      r == Some(if FlowColour(m, id) == Some(Grey) then DarkGrey else Grey)
  {
    var colour := FlowColour(m, adjacentId);
    if colour == FlowColour(m, id) then Some(if colour == Some(Grey) then DarkGrey else Grey)
    else colour
  }
}
