/**
 Palettes that cycle: the `Colors` class (scripts/Colors.js), which gives
 each row label a colour of a colour wheel, and the `colors` configuration
 of the `RankingPlot` widget (scripts/RankingPlot.js).

 A colour is `None` where JavaScript yields `undefined`: an index into an
 empty wheel is `i % 0`, which is NaN, and `wheel[NaN]` is undefined.
 */
module Palette {
  import opened Wrappers
  import Cube

  /** The wheel `Colors` uses when none is given. */
  const DefaultColorWheel: seq<string> := [
    "#5B9BD5", "#ED7D31", "#A5A5A5", "#1EC000", "#4472C4", "#70AD47", "#255E91",
    "#9E480E", "#636363", "#997300", "#264478", "#43682B", "#FF2323"
  ]

  /** The colours `RankingPlot` uses when its configuration has none. */
  const DefaultColors: seq<string> := ["red", "blue", "green", "orange"]

  /** `wheel[i % wheel.length]` for a non-negative index. */
  function Cycle(wheel: seq<string>, i: nat): (c: Option<string>)
    ensures c.None? <==> wheel == []
    ensures c.Some? ==> c.value in wheel
  {
    if wheel == [] then None else Some(wheel[i % |wheel|])
  }

  /** The wheel comes round again after as many steps as it has colours. */
  lemma CycleRepeats(wheel: seq<string>, i: nat)
    ensures Cycle(wheel, i + |wheel|) == Cycle(wheel, i)
  {
    if wheel != [] {
      var n := |wheel|;
      Cube.DivMod(i, n);
      Cube.DivModUnique(i + n, n, i / n + 1, i % n);
    }
  }

  /** The first turn of the wheel gives its colours in order. */
  lemma CycleFirstTurn(wheel: seq<string>, i: nat)
    requires i < |wheel|
    ensures Cycle(wheel, i) == Some(wheel[i])
  {
  }

  /** The last position of `name` among `labels`. */
  function LastIndex(labels: seq<string>, name: string): (i: nat)
    requires name in labels
    ensures i < |labels| && labels[i] == name
    ensures forall j | i < j < |labels| :: labels[j] != name
  {
    var n := |labels| - 1;
    if labels[n] == name then n
    else
      assert name in labels[..n] by {
        var j :| 0 <= j < |labels| && labels[j] == name;
        assert labels[..n][j] == name;
      }
      LastIndex(labels[..n], name)
  }

  /**
   The label-to-colour map the `Colors` constructor fills in: label i gets
   `wheel[i % wheel.length]`, and a label given twice keeps the colour of
   its later position (it is assigned last).
   */
  function LabelColors(labels: seq<string>, wheel: seq<string>): (m: map<string, Option<string>>)
    ensures forall l :: l in m <==> l in labels
    ensures forall l | l in m :: m[l] == Cycle(wheel, LastIndex(labels, l))
  {
    if labels == [] then map[]
    else
      var n := |labels| - 1;
      var before := LabelColors(labels[..n], wheel);
      LabelColorsStep(labels, before, wheel);
      before[labels[n] := Cycle(wheel, n)]
  }

  /** Assigning the last label after the others. */
  lemma LabelColorsStep(labels: seq<string>, before: map<string, Option<string>>, wheel: seq<string>)
    requires labels != []
    requires forall l :: l in before <==> l in labels[..|labels| - 1]
    requires forall l | l in before :: before[l] == Cycle(wheel, LastIndex(labels[..|labels| - 1], l))
    ensures var m := before[labels[|labels| - 1] := Cycle(wheel, |labels| - 1)];
      && (forall l :: l in m <==> l in labels)
      && (forall l | l in m :: m[l] == Cycle(wheel, LastIndex(labels, l)))
  {
    var n := |labels| - 1;
    var m := before[labels[n] := Cycle(wheel, n)];
    forall l ensures l in m <==> l in labels {
      if l in labels && l != labels[n] {
        LastIndexInit(labels, l);
      }
    }
    forall l | l in m ensures m[l] == Cycle(wheel, LastIndex(labels, l)) {
      if l != labels[n] {
        LastIndexInit(labels, l);
      }
    }
  }

  /** A label other than the last has its last position among the labels before. */
  lemma LastIndexInit(labels: seq<string>, l: string)
    requires labels != [] && l in labels && l != labels[|labels| - 1]
    ensures l in labels[..|labels| - 1]
    ensures LastIndex(labels, l) == LastIndex(labels[..|labels| - 1], l)
  {
  }

  /** A `Colors` object: its wheel and its map from labels to colours. */
  datatype Colors = Colors(wheel: seq<string>, labelToColor: map<string, Option<string>>)

  /**
   `new Colors(rowLabels, colorWheel)`: the default wheel when the wheel is
   null or left out (`None`), otherwise the wheel given. Exactly the row
   labels are coloured, each with the wheel's colour at its last position,
   cycling through the wheel.
   */
  function NewColors(rowLabels: seq<string>, colorWheel: Option<seq<string>>): (c: Colors)
    ensures c.wheel == if colorWheel.None? then DefaultColorWheel else colorWheel.value
    ensures forall l :: l in c.labelToColor <==> l in rowLabels
    ensures forall l | l in c.labelToColor :: c.labelToColor[l] == Cycle(c.wheel, LastIndex(rowLabels, l))
  {
    var wheel := if colorWheel.None? then DefaultColorWheel else colorWheel.value;
    Colors(wheel, LabelColors(rowLabels, wheel))
  }

  /** `getColor(rowLabel)`: undefined for a label the constructor was not given. */
  function GetColor(c: Colors, rowLabel: string): (r: Option<string>)
    ensures rowLabel !in c.labelToColor ==> r.None?
    ensures rowLabel in c.labelToColor ==> r == c.labelToColor[rowLabel]
  {
    if rowLabel in c.labelToColor then c.labelToColor[rowLabel] else None
  }

  /**
   With distinct labels, the i-th label is coloured with the wheel's colour
   i, modulo the wheel's length (no colour from an empty wheel), and an
   unknown label has no colour.
   */
  lemma NewColorsByPosition(rowLabels: seq<string>, colorWheel: Option<seq<string>>, i: nat, other: string)
    requires forall j, k | 0 <= j < k < |rowLabels| :: rowLabels[j] != rowLabels[k]
    requires i < |rowLabels| && other !in rowLabels
    ensures var w := if colorWheel.None? then DefaultColorWheel else colorWheel.value;
      GetColor(NewColors(rowLabels, colorWheel), rowLabels[i]) == Cycle(w, i)
    ensures GetColor(NewColors(rowLabels, colorWheel), other).None?
  {
    var c := NewColors(rowLabels, colorWheel);
    assert rowLabels[i] in c.labelToColor;
    assert LastIndex(rowLabels, rowLabels[i]) == i;
  }

  /**
   With distinct labels and the default wheel, the i-th label is coloured
   with the wheel's colour i, modulo 13, and an unknown label has no colour.
   */
  lemma DefaultWheelColors(rowLabels: seq<string>, i: nat, other: string)
    requires forall j, k | 0 <= j < k < |rowLabels| :: rowLabels[j] != rowLabels[k]
    requires i < |rowLabels| && other !in rowLabels
    ensures GetColor(NewColors(rowLabels, None), rowLabels[i]) == Some(DefaultColorWheel[i % 13])
    ensures GetColor(NewColors(rowLabels, None), other).None?
  {
    NewColorsByPosition(rowLabels, None, i, other);
  }

  // ---------------------------------------------------------------------
  // RankingPlot: the `colors` configuration
  // ---------------------------------------------------------------------

  /** The `colors` entry of a configuration: an array of colours, or anything else. */
  datatype ColorsEntry = Array(colors: seq<string>) | NotArray

  /**
   `_processConfig()`'s handling of `colors`: an entry that is not an array,
   or an empty array, is an error; an array is used as it is; with no entry
   the default colours are used.
   */
  function ProcessColors(entry: Option<ColorsEntry>): (r: Outcome<seq<string>>)
    ensures r.Thrown? <==> entry.Some? && (entry.value.NotArray? || entry.value.colors == [])
    ensures r.Ok? ==> r.value != []
    ensures r.Ok? && entry.Some? ==> r.value == entry.value.colors
    ensures entry.None? ==> r == Ok(DefaultColors)
  {
    match entry
    case None => Ok(DefaultColors)
    case Some(NotArray) => Thrown
    case Some(Array(colors)) => if |colors| < 1 then Thrown else Ok(colors)
  }

  /**
   `_getColor(index)`: `colors[index % colors.length]` with JavaScript's
   remainder, which keeps the sign of `index`. A negative remainder names no
   element; a remainder of -0 names element 0.
   */
  function GetIndexedColor(colors: seq<string>, index: int): (r: Option<string>)
    ensures index >= 0 ==> r == Cycle(colors, index)
    ensures index < 0 && colors != [] && (-index) % |colors| != 0 ==> r.None?
  {
    if colors == [] then None
    else if index >= 0 then Cycle(colors, index)
    else
      var rem := -((-index) % |colors|);
      if rem == 0 then Some(colors[0]) else None
  }

  /**
   Once a configuration has been accepted, every non-negative index has a
   colour, and the colours repeat with the length of the palette.
   */
  lemma ConfiguredColorsCycle(entry: Option<ColorsEntry>, index: nat)
    requires ProcessColors(entry).Ok?
    ensures GetIndexedColor(ProcessColors(entry).value, index).Some?
    ensures var colors := ProcessColors(entry).value;
      GetIndexedColor(colors, index + |colors|) == GetIndexedColor(colors, index)
  {
    CycleRepeats(ProcessColors(entry).value, index);
  }
}
