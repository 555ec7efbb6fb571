# Ranking plot: a verified model of its data logic

This project models the data-level core of the rhtmlRankingPlot widget: the
part that decides what a ranking plot shows, as opposed to how it is drawn.
The plot has one column per column of a table. Each column lists the table's
rows ranked by a chosen statistic, and "flows" join an item's cells across
neighbouring columns.

The model covers seven pieces:

- **Ranker** (`ranker.dfy`, `sorting.dfy`). `_sortOrder` orders a column's
  rows, largest value first, ties in table order, blanks and NaN last.
  `_rankColumn` walks that order, drops excluded values, stops at the
  maximum number of ranks and records which neighbours tie.
- **Flows** (`flows.dfy`). `_findFlows` / `_traceFlows` cut each item's
  appearances into maximal runs of consecutive columns. `_sort` orders the
  flows for drawing. `_matchFlow` finds a flow's rows in another set of
  rankings. `_getId` reads the item at a cell.
- **Selection and colours** (`selection.dfy`, `palette.dfy`). This covers
  the choice of ranking statistic, the default and user colour maps, and the
  colour of the bar between tied items. It also covers the cycling palette of
  `Colors.js` and the `colors` configuration of `RankingPlot.js`.
- **Settings algebra** (`json_value.dfy`, `settings.dfy`, `setting.dfy`,
  `font_settings.dfy`). This covers the deep `equal`, `diff` and `coalesce`
  on JSON-like values, a `Setting` binding's `getValue` / `setValue`, and the
  field-by-field font, line and fill coalescing. The central law is the
  round trip: coalescing the default with the difference from the default
  gives back the value.
- **String utilities** (`text.dfy`, `decimal.dfy`). This covers splitting at
  line-break opportunities and at newlines, `addNumericSuffix`,
  `StringUtils.format`, `contains` and `isSubset`.
- **Cube indexing** (`cube.dfy`, `tabular.dfy`). This covers the row-major
  `Cube.indexOf`, the odometer `Cube.forEachPoint`, `Cube.coordinates`, and
  the `TabularData` constructor with its statistic lookups.
- **Layout arithmetic** (`layout.dfy`). This covers column widths, row
  heights, cell positions and the size the plot estimates for itself,
  computed over reals.

JavaScript behaviour is written out explicitly:

- `undefined`, `null` and truthiness are constructors and predicates of
  `JsonValue.Value`.
- A `TypeError` (reading a property of `null` or `undefined`) is
  `Outcome.Thrown`.
- `%` keeps the sign of its left operand.
- `i % 0` is NaN, so indexing with it gives `undefined` (`None`).
- A later assignment to the same object key wins.
- `Array.prototype.sort` is modelled as insertion sort. This is enough
  because every comparator the plot passes is a strict total order on what
  it sorts, and `Sorting.SortedPermutationUnique` shows the sorted
  permutation is then unique.

Data values are integers. Only their order and equality matter to the
logic modelled here.

Some places where the model follows the code rather than its comments:

- `isSubset(set1, set2)` answers whether every element of `set1` is in
  `set2`. Its doc comment states the reverse.
- `equal` compares key counts and then looks up only the first object's
  keys. So an object with an `undefined` property can be `equal` to one
  without it in one direction only (`Settings.EqualAsymmetricWithUndefinedKeys`).
  It is symmetric on values with no `undefined` inside.
- The `maxRanks` cut-off is tested with `===` after an item is added. A
  `maxRanks` below 1 therefore never stops the ranking.
- `Setting`'s round trip holds for the font settings and for plain settings
  whose default is a primitive. For a plain setting with an object default,
  the shallow `coalesce` of `Setting` loses the keys the difference dropped
  (`SettingBinding.PlainObjectDefaultLosesKeys`).

## Model

| member | source | states |
|---|---|---|
| Ranker.SortOrder | theSrc/QRankingPlot.ts:1000-1007 | the order is a permutation of 0..n-1 in which every row ranks before every later one: a larger value first, equal values in table order, blank and NaN (key minus infinity, line 939) after every number |
| Ranker.SortOrderUnique | theSrc/QRankingPlot.ts:1000-1007 | any permutation of the rows that is ordered by the comparator is the one `SortOrder` gives, so the result does not depend on the sorting algorithm |
| Ranker.BlanksSortLast | theSrc/QRankingPlot.ts:939 | once a blank or NaN row appears in the sort order, every later row is blank or NaN too |
| Ranker.RankedRowsInOrder | theSrc/QRankingPlot.ts:942-975 | the ranked rows are at most `maxRanks` (when it is at least 1), none is excluded (blank, NaN or below the minimum), they are distinct, their values never increase, and equal values keep table order |
| Ranker.RankedRowsTop | theSrc/QRankingPlot.ts:942-975 | an included row that is left out implies exactly `maxRanks` rows were ranked and every one of them ranks before it: the result is the top of the order |
| Ranker.IncludedComplete | theSrc/QRankingPlot.ts:942 | every row of the order whose value is not excluded is among the included rows |
| Ranker.IncludedKeepsOrder | theSrc/QRankingPlot.ts:952-965 | filtering out excluded rows keeps any order the sort order had |
| Ranker.TiesOf | theSrc/QRankingPlot.ts:950-964 | t is a tie exactly when the included values at t and t+1 are equal; the ties increase strictly and are below the number of items minus one, so the first item never opens a tie |
| Ranker.RankInOrder | theSrc/QRankingPlot.ts:952-975 | the walk over the order returns the ids, ties and displayed values of the first `maxRanks` included rows, exactly |
| Ranker.RankColumn | theSrc/QRankingPlot.ts:915-983 | with no ranking statistic the Ranking is empty with no ties; otherwise its items are the ids of the ranked rows, its ties those of their values, and its values the display strings of the same rows |
| Flows.RankOf | theSrc/QRankingPlot.ts:1880-1889 | the rank map gives an item's last position in a column and nothing for an item the column does not hold |
| Flows.AppearancesComplete | theSrc/QRankingPlot.ts:1877-1901 | every column that ranks an item contributes its cell to the item's appearances |
| Flows.TraceFlows | theSrc/QRankingPlot.ts:1915-1932 | the traced flows are non-empty runs of consecutive columns, each cell the item's rank there; joined they give exactly the item's appearances in column order; and an absent column separates any two of them |
| Flows.FindFlows | theSrc/QRankingPlot.ts:1877-1901 | every flow belongs to a listed item and is a run of its cells; each item's flows join to its appearances and are separated; no two flows start at the same cell |
| Flows.SortFlows | theSrc/QRankingPlot.ts:1937-1945 | `_sort` rearranges the flows without adding or losing any (a permutation); their order is stated by `Flows.SortFlowsUnique` |
| Flows.SortFlowsUnique | theSrc/QRankingPlot.ts:1937-1945 | sorting flows by (first column, first row) permutes them into the one order in which each flow starts before the next |
| Flows.DrawingOrder | theSrc/QRankingPlot.ts:1350-1369 | the order of the second, translucent pass (the first, opaque pass draws the same flows reversed): strictly increasing start cells, each a flow of a listed item, none twice, and every listed item's flows all drawn, joining to its appearances and separated |
| Flows.SortKeepsItemTraced | theSrc/QRankingPlot.ts:1937-1945 | sorting the found flows keeps each item's flows exactly as traced, in the same order, since the comparator orders separated runs of one item by column |
| Flows.NumRows | theSrc/QRankingPlot.ts:1271 | the number of rows is the length of the longest column, undefined when there are no columns |
| Flows.MatchFlow | theSrc/QRankingPlot.ts:1903-1912 | matching throws exactly when a flow cell lies past the last column; otherwise it keeps the id and columns and moves each cell to the item's first row in that column, or to `numRows` when it is absent |
| Flows.MatchTracedFlow | theSrc/QRankingPlot.ts:1903-1932 | matching a traced flow against the rankings it was traced from gives the flow back unchanged |
| Flows.GetId | theSrc/QRankingPlot.ts:1953-1959 | a negative column throws; a column or row out of range, or an empty id, reads as undefined; otherwise the id at that cell |
| Selection.SelectRankingStatisticId | theSrc/QRankingPlot.ts:878-894 | the current statistic when set and offered, else the first numeric statistic, else undefined exactly when none is numeric |
| Selection.SelectionStable | theSrc/QRankingPlot.ts:878-894 | selecting again with the chosen statistic as the current one keeps the choice |
| Selection.MakeDefaultColourMap | theSrc/QRankingPlot.ts:1018-1025 | the map has exactly the row ids as keys, and with distinct ids row i gets the palette colour i modulo its length |
| Selection.GetColourMap | theSrc/QRankingPlot.ts:625-640 | the keys are those of the default map and the user map; a colour the user set wins and every other key keeps its default |
| Selection.ChooseEqualityBarColour | theSrc/QRankingPlot.ts:1789-1797 | the bar never takes the colour of its own flow: it takes the adjacent flow's colour when that differs, and otherwise grey, or dark grey when the shared colour is grey |
| Selection.FlowColour | theSrc/QRankingPlot.ts:1948-1950 | no contract of its own: an item's flow colour is its colour-map entry, undefined when it has none; `Selection.ChooseEqualityBarColour` states what the plot relies on |
| Palette.LabelColors | theSrc/scripts/Colors.js:28-33 | the map holds exactly the given labels, and each label takes the wheel colour of its last position, cycling |
| Palette.NewColors | theSrc/scripts/Colors.js:5-33 | a null or missing wheel means the 13-colour default wheel, any other wheel is used as given; exactly the row labels get a colour, each the wheel colour at its last position, cycling |
| Palette.NewColorsByPosition | theSrc/scripts/Colors.js:5-39 | with distinct labels and any wheel, label i gets the chosen wheel's colour i modulo its length (none from an empty wheel), and an unknown label gets none |
| Palette.GetColor | theSrc/scripts/Colors.js:37-39 | a label the constructor was not given has no colour |
| Palette.DefaultWheelColors | theSrc/scripts/Colors.js:5-39 | with distinct labels and the default wheel, label i gets default colour i modulo 13, and an unknown label gets none |
| Palette.CycleRepeats | theSrc/scripts/Colors.js:30-33 | the colours repeat after as many labels as the wheel has colours |
| Palette.ProcessColors | theSrc/scripts/RankingPlot.js:24-43 | a `colors` entry that is not an array, or is empty, is rejected; a non-empty array is used as given; no entry means the four default colours |
| Palette.GetIndexedColor | theSrc/scripts/RankingPlot.js:55-57 | a non-negative index cycles the palette; a negative index with a non-zero remainder names no colour |
| Palette.ConfiguredColorsCycle | theSrc/scripts/RankingPlot.js:33-57 | after a configuration is accepted every non-negative index has a colour, and the colours repeat with the palette's length |
| Settings.EqualReflexive | theSrc/Common.ts:1048-1073 | every value is `equal` to itself |
| Settings.EqualIsStructural | theSrc/Common.ts:1048-1073 | on values with no `undefined` inside, `equal` holds exactly when the two values are the same |
| Settings.EqualSymmetric | theSrc/Common.js:837-858 | on values with no `undefined` inside, `equal` is symmetric |
| Settings.EqualAsymmetricWithUndefinedKeys | theSrc/Common.ts:1057-1073 | an object holding an `undefined` property can be `equal` to another object in one direction only |
| Settings.Equal | theSrc/Common.ts:1048-1073 | no contract of its own; its properties are stated by `Settings.EqualReflexive`, `Settings.EqualIsStructural`, `Settings.EqualSymmetric` and `Settings.EqualAsymmetricWithUndefinedKeys` |
| Settings.Diff | theSrc/Common.ts:1078-1101 | no contract of its own; its properties are stated by `Settings.DiffOnObject`, `Settings.DiffIsJson`, `Settings.DiffUndefinedIffContained` and the round-trip lemmas |
| Settings.DiffOnObject | theSrc/Common.ts:1078-1101 | against an object default, the difference throws exactly when some changed key's difference throws; otherwise it holds exactly the keys whose values differ, each with its own difference, and is undefined when none differ |
| Settings.DiffIsJson | theSrc/Common.js:863-884 | the difference of two values with no `undefined` inside has no `undefined` inside |
| Settings.DiffUndefinedIffContained | theSrc/Common.ts:1078-1101 | the difference is undefined exactly when the value adds nothing to the default |
| Settings.CoalesceOnObjects | theSrc/Common.ts:1106-1130 | coalescing two objects throws exactly when some default key's coalesce throws; otherwise each default key holds its coalesced value, every other key the override's value, and undefined results are dropped |
| Settings.CoalesceObjects | theSrc/Common.js:888-909 | coalescing two objects gives the union of their keys: override-only keys as overridden, default-only keys as default, shared keys coalesced |
| Settings.CoalesceFromUndefined | theSrc/Common.ts:1106-1130 | with no default, coalescing gives the override unchanged |
| Settings.CoalesceSelf | theSrc/Common.ts:1106-1130 | coalescing a value with itself gives the value back, when it holds no `null` |
| Settings.Coalesce | theSrc/Common.ts:1106-1130 | no contract of its own; its properties are stated by `Settings.CoalesceOnObjects`, `Settings.CoalesceObjects`, `Settings.CoalesceFromUndefined`, `Settings.CoalesceSelf` and `Settings.CoalesceDiffRoundTrip` |
| Settings.CoalesceDiffRoundTrip | theSrc/Common.ts:1026-1042 | when the default covers the value's shape, coalescing the default with the difference from it gives back exactly the value |
| Settings.CoalesceDiffEqual | theSrc/Common.ts:1026-1042 | under the same condition the round trip's result is `equal` to the value |
| Settings.NullDefaultDropsScalar | theSrc/Common.ts:1078-1130 | a `null` default hides a changed number: the difference is undefined, and coalescing it with a number gives an empty object |
| SettingBinding.SetValue | theSrc/Common.ts:1015-1024 | `setValue` throws exactly when the difference throws; it notifies exactly when the difference is not `equal` to what is stored, storing the difference then and leaving the store alone otherwise |
| SettingBinding.SetValueIdempotent | theSrc/Common.ts:1015-1024 | repeating the same `setValue` stores nothing new and does not notify |
| SettingBinding.SetThenGetPlain | theSrc/Common.ts:1009-1024 | for a setting with a primitive or missing default, `getValue` after `setValue(v)` gives `v` |
| SettingBinding.PlainObjectDefaultLosesKeys | theSrc/Common.ts:1009-1024 | for a plain setting with an object default, `getValue` after `setValue(v)` is not `v` when `v` keeps one key and changes another |
| SettingBinding.SetThenGetDeep | theSrc/Common.ts:1026-1038 | with the deep `coalesce` in place of the shallow one, `getValue` after `setValue(v)` gives `v` for every value the default covers, whatever was stored before |
| SettingBinding.GetValue | theSrc/Common.ts:1009-1013 | no contract of its own; what it reads back after `setValue` is stated by `SettingBinding.SetThenGetPlain`, `SettingBinding.SetThenGetFont` and `SettingBinding.PlainObjectDefaultLosesKeys` |
| SettingBinding.FontDiff | theSrc/Common.ts:1132-1140 | the difference of a complete font from a flat default holds exactly the fields where they disagree, with the font's values |
| SettingBinding.SetThenGetFont | theSrc/Common.ts:1132-1140 | for a font setting, `getValue` after `setValue(font)` gives the complete font back |
| FontSettings.CoalesceFontSettings | theSrc/Common.ts:75-87 | the result has exactly the seven font fields; family and color take the override only when it is truthy, the other five whenever it is defined |
| FontSettings.CoalesceLineSettings | theSrc/Common.ts:89-97 | the result has exactly colour, transparency and width; colour takes a truthy override, the other two a defined one |
| FontSettings.CoalesceFillSettings | theSrc/Common.ts:99-106 | the result has exactly colour and transparency; colour takes a truthy override, transparency a defined one |
| FontSettings.CoalesceFontIdempotent | theSrc/Common.js:67-79 | coalescing the result again with the same defaults changes nothing |
| FontSettings.CompleteFontOverridesDefaults | theSrc/Common.ts:75-87 | a font with every field set (family and color truthy) overrides any defaults completely |
| Text.Search | theSrc/Common.ts:235-238 | the search gives the first break character, or -1 exactly when there is none |
| Text.BreakOpportunity | theSrc/Common.ts:217-241 | the cut is the text length when there is no break, 1 when the text starts with one, and otherwise the first break, before which there is none |
| Text.LineBreakOpportunity | theSrc/Common.ts:206-241 | the first piece is the whole text when it has none of the listed break characters, one character when it starts with one, and otherwise the run before the first one |
| Text.NextLineBreak | theSrc/Common.ts:206-241 | the first line is the whole text when it has no newline, the newline alone when it starts with one, and otherwise the run before the first newline |
| Text.SplitByLineBreakOpportunity | theSrc/Common.ts:206-261 | the pieces join back to the text, and each is one break character or a non-empty run without one |
| Text.SplitIntoLines | theSrc/Common.ts:206-261 | the pieces join back to the text, and each is one newline or a non-empty run without one |
| Text.SplitProperties | theSrc/Common.ts:206-261 | the pieces join back to the text; each is one break character or a non-empty run without one; two break-free runs are never adjacent |
| Text.AddNumericSuffixIncrements | theSrc/Common.ts:42-49 | the new name always ends in a bracketed number: one more than the old suffix's number, or 2 after the unchanged name when there was none |
| Text.NumericSuffixOfWithSuffix | theSrc/Common.ts:42-49 | a suffix appended as ` [digits]` is the one the suffix pattern finds again |
| Text.AddNumericSuffix | theSrc/Common.ts:42-49 | no contract of its own; `Text.AddNumericSuffixIncrements` states its result |
| Text.FormatPlaceholder | theSrc/Common.ts:291-295 | `{i}` is replaced by argument i when that argument is defined |
| Text.FormatNoBraces | theSrc/Common.ts:291-295 | a text without `{` is left unchanged |
| Text.FormatAppendPlain | theSrc/Common.ts:291-295 | a prefix without `{` passes through unchanged, whatever text follows it |
| Text.FormatNoArgs | theSrc/Common.ts:291-295 | with no arguments every placeholder stays as written |
| Text.Format | theSrc/Common.ts:288-295 | no contract of its own; its behaviour is stated by `Text.FormatPlaceholder`, `Text.FormatNoBraces`, `Text.FormatAppendPlain` and `Text.FormatNoArgs` |
| Text.IndexOf | theSrc/Common.ts:337-340 | the first position of the value, or -1 exactly when it is absent |
| Text.Contains | theSrc/Common.ts:337-340 | true exactly when the array holds the value |
| Text.IsSubset | theSrc/Common.ts:342-347 | true exactly when every element of the first array is in the second |
| Decimal.NatToStringParse | theSrc/Common.ts:45 | writing the parsed value of a canonical digit string gives the string back |
| Decimal.ParseNatToString | theSrc/Common.ts:45 | parsing a written number gives the number back |
| Cube.IndexOf | theSrc/Common.ts:553-562 | the index is the row-major sum of each coordinate times the product of the later dimensions, and lies below the cube's size when every coordinate is in bounds |
| Cube.HornerInRange | theSrc/Common.ts:553-562 | in-bounds coordinates give an index from 0 to the cube's size minus one |
| Cube.IncrementNext | theSrc/Common.ts:534-536 | one odometer step from any point but the last gives the in-bounds point with the next index |
| Cube.ForEachPoint | theSrc/Common.ts:522-538 | the visit makes as many calls as the cube has points, the k-th at the in-bounds point whose row-major index is k |
| Cube.Coordinates | theSrc/Common.ts:541-550 | with integer division, the result has one coordinate per dimension and every coordinate, the first included, is in bounds for any position |
| Cube.CoordinatesAsWritten | theSrc/Common.ts:541-550 | with the source's floating-point division the result still has one coordinate per dimension; `Cube.CoordinatesAsWrittenFractional` shows it can be fractional |
| Cube.CoordinatesAsWrittenFractional | theSrc/Common.ts:541-550 | the coordinates as written give a fractional coordinate for position 4 of a 2 by 3 cube, where integer division gives (1, 1) |
| Cube.CoordinatesIndexRoundTrip | theSrc/Common.ts:541-562 | with integer division, the coordinates of a position below the size are in bounds and index back to the position |
| Cube.IndexCoordinatesRoundTrip | theSrc/Common.ts:541-562 | the coordinates of an in-bounds point's index are the point |
| Tabular.MakeTabularData | theSrc/Common.ts:597-621 | construction throws exactly when no dimension is the statistics dimension; otherwise the first such dimension is chosen |
| Tabular.GetStatistic | theSrc/Common.ts:625-627 | the first statistic with the id, or undefined exactly when no statistic has it |
| Tabular.InsertStatisticCoordinate | theSrc/Common.ts:685-690 | the copy is one longer, holds the statistic index at the statistics position (clamped to the end), and keeps the other coordinates in order |
| Tabular.InsertThenRemove | theSrc/Common.ts:685-690 | removing the inserted coordinate gives the data coordinates back |
| Tabular.StatisticCoordinates | theSrc/Common.ts:635-637 | the statistic coordinate is the index of the first statistic with the id, or -1 exactly when there is none, and the data coordinates keep their order around it |
| Sorting.Sort | theSrc/QRankingPlot.ts:1937-1945 | the result is a permutation of the input, ordered whenever the comparator is a strict total order on distinct elements |
| Sorting.SortedPermutationUnique | theSrc/QRankingPlot.ts:1000-1007 | two orderings of the same elements, both sorted by a strict total order, are equal |
| Layout.CalculateWidths | theSrc/QRankingPlot.ts:1850-1859 | the gap is 0.4 of a column, and the columns and the gaps between them fill exactly the width left after the numbers and the axis label |
| Layout.CalculateHeights | theSrc/QRankingPlot.ts:1838-1844 | the plot height is never negative, and the rows share it exactly; the row height is undefined exactly when there are no rows |
| Layout.ItemPosition | theSrc/QRankingPlot.ts:1967-1969 | no property of its own beyond the corner's formula; `Layout.ColumnsTile` states that the cells it places tile the plot's width |
| Layout.ColumnsTile | theSrc/QRankingPlot.ts:1850-1969 | each column starts one gap after the previous one ends, and the last column ends at the plot's right edge |
| Layout.EstimateSize | theSrc/QRankingPlot.ts:1975-2019 | a width or height that is set is kept; one that is 0 becomes nominal cells plus gaps plus the room for numbers and labels |
| Layout.EstimateGivesNominalCells | theSrc/QRankingPlot.ts:1975-2019 | a plot of the estimated size is laid out with cells of exactly the nominal 80 by 40 |

## Left out

- Drawing and measurement are not modelled. This covers SVG and DOM rendering, text measurement, word wrapping and ellipses, the label negotiation loop and the flow paths. They depend on browser metrics.
- Animation, transitions, mouse handling and `_highlightColour` are not modelled. They are calls into d3.
- The column-N suffix of a column label and `formatStatistic` are not modelled. The displayed values of `_rankColumn` are given as already formatted strings, and the label is kept as passed.
- Floating-point values are not modelled. Data values are integers and layout lengths are reals, so rounding, infinities and NaN arithmetic are not covered. A NaN data value is the `NaN` cell, which sorts and filters as the source does.
- Text.AddNumericSuffix: the suffix number is parsed and incremented as an unbounded integer. In the source it is a double, so from 2^53 on the increment can be lost to rounding (`a [9007199254740993]` becomes `a [9007199254740992]`), and from 10^21 on `toString` writes an exponent (`a [999999999999999999999]` becomes `a [1e+21]`). `Text.AddNumericSuffixIncrements` therefore holds in the source only for suffix numbers below 2^53.
- Strings are sequences of characters. UTF-16 code units and surrogate pairs are not distinguished.
- The `for ... in` key order of JavaScript objects is not modelled. It matters for `_flowLabels`, where integer-like keys come first. `Flows.FindFlows` takes the flow ids as a list of distinct ids in any order.
- Prototype properties are not modelled. The rank maps and colour maps are plain maps, so a key such as `toString` is absent rather than inherited.
- `_traceFlows` overwrites each traced entry of the rank maps with `null`. Since `null !== undefined`, a second trace of the same item would see those cells again; `_findFlows` traces each id once, and so does the model, which keeps the rank maps unchanged.
- The `lastRankings` branch of `_findFlows` has an empty body, so it adds nothing to the model.
- Flows.MatchFlow: `_numRows` is an input. The source computes it with `d3.max`, which is undefined for no rankings; `Flows.NumRows` returns `None` then.
- Layout.EstimateSize: the number of rows is an input, and the case where it is undefined (no rankings) is not modelled.
- Settings.CoalesceDiffRoundTrip: the round trip is proved only for values the default covers (`Settings.Covers`): the value may add keys the default lacks, but it must be an object wherever the default is one and keep every key the default has, and must be `null` wherever the default is `null`. A value missing a default key, or anything but `null` against a `null` default (`Settings.NullDefaultDropsScalar`), is outside it.
- Settings.DiffUndefinedIffContained: `JsonValue.Keys` treats a string as having no keys, whereas `for ... in` over a string enumerates its indices. So the model does not follow `diff({a: 1}, "ab")`, which is `{0: "a", 1: "b"}` in the source and undefined in the model; `diff(null, "ab")`, which throws in the source; or `coalesce({a: 1}, "xy")`, which adds the keys `0` and `1` in the source (theSrc/Common.ts:1088-1097, 1117-1127).
- JsonValue.Keys: a string has no keys in the model, for the reason given in the line above.
- JsonValue.Value: an array is identified with the plain object keyed by its indices. The source's `diff` and `coalesce` build a fresh `{}` (theSrc/Common.ts:1089, 1117), so for an array default and value the round trip returns a plain object without `length`, for which `Array.isArray` is false. That object is `equal` to the array but not the same value, so `Settings.CoalesceDiffRoundTrip` gives back exactly the value only for settings without arrays.
- `FillSettings.difference` and the commented-out `FontSetting.difference` are not modelled. `DynamicFontSetting`, `DynamicBinding` and the host bindings are also left out, because they are plumbing around the host's settings store.
- `Cube.coordinates` for a dimension of size 0 is not modelled. It divides by zero, and the model requires positive dimensions.
- `NameMap` is not part of this model. It reads an undefined variable.
- `RankingDataObj.js` and `RankingClass.js` are not part of this model. They are unfinished and not valid JavaScript respectively.
- `_makeFlowPath` and its non-default branches are not modelled. They are drawing code.

## Findings

| source | as written | input that shows it | evidently intended | confidence | as-written member | corrected member |
|---|---|---|---|---|---|---|
| theSrc/Common.ts:541-550 | `Cube.coordinates` divides the position with `/=`, which is floating-point division in JavaScript | position 4 in a cube of dimensions [2, 3] gives coordinates [4/3, 1] | integer division, so that position 4 gives [1, 1] and the coordinates index back to the position | not executed | Cube.CoordinatesAsWrittenFractional | Cube.CoordinatesIndexRoundTrip |
| theSrc/Common.ts:1026-1031 | the base `Setting.coalesce` is shallow: it returns the stored value whenever it is defined, while `difference` is the deep `diff`, which drops the keys equal to the default's | a plain setting with default `{a: 1, b: 2}` set to `{a: 1, b: 3}` stores `{b: 3}` and reads back `{b: 3}` | the law in the comment at lines 1026-1028 and 1036-1038: reading back gives the value set, as the deep `coalesce` does | not executed | SettingBinding.PlainObjectDefaultLosesKeys | SettingBinding.SetThenGetDeep |
