/**
 The plot's layout arithmetic (QRankingPlot.ts): the size of a rank cell,
 the gap between columns, where a cell sits, and the size the plot picks
 for itself when none is given. Lengths are pixels, as reals; the measured
 sizes of labels and numbers are inputs.
 */
module Layout {
  import opened Wrappers

  /** The gap between columns as a proportion of a column's width. */
  const GapProportion: real := 0.4

  /** The horizontal measures of the plot. */
  datatype Widths = Widths(itemWidth: real, gap: real, horizontalSpacing: real)

  /**
   `_calculateWidths()`: what is left of the width after the rank numbers
   and the axis label is shared by `numColumns` columns and the gaps between
   them, each gap `GapProportion` of a column.
   */
  function CalculateWidths(width: real, numberWidth: real, yAxisLabelWidth: real, numColumns: nat): (w: Widths)
    ensures w.gap == w.itemWidth * GapProportion
    ensures w.horizontalSpacing == w.itemWidth + w.gap
    ensures numColumns >= 1 ==>
      numColumns as real * w.itemWidth + (numColumns - 1) as real * w.gap == width - (numberWidth + yAxisLabelWidth)
  {
    var plotWidth := width - (numberWidth + yAxisLabelWidth);
    var n := numColumns as real;
    var itemWidth := plotWidth / (n + (n - 1.0) * GapProportion);
    var gap := itemWidth * GapProportion;
    Widths(itemWidth, gap, itemWidth + gap)
  }

  /** The vertical measures of the plot; the cell height is undefined for a plot with no rows. */
  datatype Heights = Heights(plotHeight: real, itemHeight: Option<real>)

  /**
   `_calculateHeights()`: the height below the title and the column labels,
   never negative, shared equally by the rows. With no rows the division is
   by zero and the cell height is not a finite number (Infinity for a
   positive plot height, NaN for a zero one).
   */
  function CalculateHeights(height: real, columnLabelHeight: real, titleHeight: real, numRows: nat): (h: Heights)
    ensures h.plotHeight >= 0.0
    ensures h.plotHeight == if height - (columnLabelHeight + titleHeight) < 0.0 then 0.0 else height - (columnLabelHeight + titleHeight)
    ensures h.itemHeight.None? <==> numRows == 0
    ensures h.itemHeight.Some? ==> h.itemHeight.value >= 0.0 && h.itemHeight.value * numRows as real == h.plotHeight
  {
    var plotHeight := height - (columnLabelHeight + titleHeight);
    var plotHeight := if plotHeight < 0.0 then 0.0 else plotHeight;
    Heights(plotHeight, if numRows == 0 then None else Some(plotHeight / numRows as real))
  }

  /** A point of the plot area. */
  datatype Point = Point(x: real, y: real)

  /** `_itemPosition(col, row)`: the top left corner of a rank cell. */
  function ItemPosition(w: Widths, itemHeight: real, col: nat, row: nat): (p: Point)
    ensures p.x == w.horizontalSpacing * col as real && p.y == itemHeight * row as real
  {
    Point(w.horizontalSpacing * col as real, itemHeight * row as real)
  }

  /**
   The cells of neighbouring columns do not overlap: the next column starts
   one gap after the end of this one, and the last column ends at the right
   edge of the plot area.
   */
  lemma ColumnsTile(width: real, numberWidth: real, yAxisLabelWidth: real, numColumns: nat, col: nat)
    requires col + 1 < numColumns
    requires width >= numberWidth + yAxisLabelWidth
    ensures var w := CalculateWidths(width, numberWidth, yAxisLabelWidth, numColumns);
      && ItemPosition(w, 0.0, col + 1, 0).x == ItemPosition(w, 0.0, col, 0).x + w.itemWidth + w.gap
      && w.gap >= 0.0
      && ItemPosition(w, 0.0, numColumns - 1, 0).x + w.itemWidth == width - (numberWidth + yAxisLabelWidth)
  {
    var w := CalculateWidths(width, numberWidth, yAxisLabelWidth, numColumns);
    var n := numColumns as real;
    var plotWidth := width - (numberWidth + yAxisLabelWidth);
    assert n + (n - 1.0) * GapProportion > 0.0;
    assert w.itemWidth >= 0.0;
    assert w.horizontalSpacing * (col + 1) as real == w.horizontalSpacing * col as real + w.horizontalSpacing;
    assert w.horizontalSpacing * (n - 1.0) + w.itemWidth == n * w.itemWidth + (n - 1.0) * w.gap;
  }

  /** The nominal size of a rank cell when the plot sizes itself. */
  const NominalItemWidth: real := 80.0
  const NominalItemHeight: real := 40.0

  /** The room set aside for the rank numbers, an axis label, the title and the column labels. */
  const NumberRoom: real := 30.0
  const LabelRoom: real := 40.0

  /**
   `_estimateSize()`: a width or height of 0 (or unset) is replaced by an
   estimate from the numbers of columns and rows: nominal cells, the gaps
   between columns, room for the rank numbers, and room for the title,
   column labels and axis labels that are shown.
   */
  function EstimateSize(width: real, height: real, numColumns: nat, numRows: nat, showAxisLabels: bool, showTitle: bool): (r: (real, real))
    ensures width != 0.0 ==> r.0 == width
    ensures height != 0.0 ==> r.1 == height
    ensures width == 0.0 ==>
      r.0 - NumberRoom - (if showAxisLabels then LabelRoom else 0.0) ==
        numColumns as real * NominalItemWidth + (if numColumns > 1 then (numColumns - 1) as real * NominalItemWidth * GapProportion else 0.0)
    ensures height == 0.0 ==>
      r.1 - LabelRoom - (if showTitle then LabelRoom else 0.0) - (if showAxisLabels then LabelRoom else 0.0) ==
        numRows as real * NominalItemHeight
  {
    var w :=
      if width != 0.0 then width
      else
        var gap := NominalItemWidth * GapProportion;
        var cols := numColumns as real * NominalItemWidth;
        var cols := if numColumns > 1 then cols + gap * (numColumns - 1) as real else cols;
        cols + NumberRoom + if showAxisLabels then LabelRoom else 0.0;
    var h :=
      if height != 0.0 then height
      else
        var rows := NominalItemHeight * numRows as real;
        var rows := if showTitle then rows + LabelRoom else rows;
        var rows := rows + LabelRoom;
        if showAxisLabels then rows + LabelRoom else rows;
    (w, h)
  }

  /**
   The estimate and the layout agree: when the rank numbers and the axis
   label take the room set aside for them, a plot of estimated width has
   cells of the nominal width, and a plot of estimated height, below a
   title and column labels of the room set aside, has cells of the nominal
   height.
   */
  lemma EstimateGivesNominalCells(numColumns: nat, numRows: nat, showAxisLabels: bool, showTitle: bool)
    requires numColumns >= 1 && numRows >= 1
    ensures var size := EstimateSize(0.0, 0.0, numColumns, numRows, showAxisLabels, showTitle);
      && CalculateWidths(size.0, NumberRoom, if showAxisLabels then LabelRoom else 0.0, numColumns).itemWidth == NominalItemWidth
      && CalculateHeights(size.1, LabelRoom + (if showAxisLabels then LabelRoom else 0.0),
                          if showTitle then LabelRoom else 0.0, numRows).itemHeight == Some(NominalItemHeight)
  {
    var size := EstimateSize(0.0, 0.0, numColumns, numRows, showAxisLabels, showTitle);
    var n := numColumns as real;
    var axis := if showAxisLabels then LabelRoom else 0.0;
    var plotWidth := size.0 - (NumberRoom + axis);
    assert plotWidth == NominalItemWidth * (n + (n - 1.0) * GapProportion);
    var d := n + (n - 1.0) * GapProportion;
    assert d > 0.0;
    assert plotWidth / d == NominalItemWidth;
    var m := numRows as real;
    var title := if showTitle then LabelRoom else 0.0;
    var plotHeight := size.1 - ((LabelRoom + axis) + title);
    assert plotHeight == NominalItemHeight * m;
    assert plotHeight / m == NominalItemHeight;
  }
}
