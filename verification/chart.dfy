/**
 * The Gantt-chart decoder: samples a rasterised timesheet page at fixed
 * coordinates and turns each sampled pixel into a work (1) or rest (0) cell.
 * One row per day, 48 half-hour columns per row.
 */
module Chart {

  /** A pixel of the page after conversion to RGB. */
  datatype Rgb = Rgb(r: int, g: int, b: int)

  /** A page image, as the colour found at each (x, y) coordinate. */
  type Image = (int, int) -> Rgb

  /** A decoded chart: one row per day, each row a sequence of 0/1 cells. */
  type Grid = seq<seq<int>>

  /** Number of half-hour slots in a day. */
  const SlotsPerDay: nat := 48

  /** y coordinate of the first day row, and the vertical distance between rows. */
  const FirstRowY: int := 348
  const RowStep: int := 26

  /**
   * x coordinate of each half-hour column, calibrated to the timesheet
   * template, written as four blocks of six hours each.
   */
  const ColumnsFrom0h: seq<int> := [288, 303, 327, 343, 366, 383, 406, 422, 445, 461, 484, 500]
  const ColumnsFrom6h: seq<int> := [523, 540, 563, 579, 602, 619, 643, 658, 682, 698, 721, 736]
  const ColumnsFrom12h: seq<int> := [760, 776, 798, 814, 839, 853, 877, 894, 917, 932, 957, 972]
  const ColumnsFrom18h: seq<int> := [996, 1012, 1036, 1051, 1074, 1090, 1114, 1130, 1153, 1170, 1193, 1208]
  const ColumnX: seq<int> := ColumnsFrom0h + ColumnsFrom6h + ColumnsFrom12h + ColumnsFrom18h

  /** A pixel marks work only when none of its three channels is saturated. */
  predicate IsWork(p: Rgb)
  {
    p.r != 255 && p.g != 255 && p.b != 255
  }

  function Cell(p: Rgb): int
  {
    if IsWork(p) then 1 else 0
  }

  /** y coordinate sampled for day row `r`. */
  function RowY(r: int): int
  {
    FirstRowY + RowStep * r
  }

  /** Every row has one cell per half-hour slot, and every cell is 0 or 1. */
  ghost predicate WellFormed(g: Grid)
  {
    forall r :: 0 <= r < |g| ==> |g[r]| == SlotsPerDay && forall c :: 0 <= c < |g[r]| ==> g[r][c] == 0 || g[r][c] == 1
  }

  /** Python's `range(days)` is empty for a non-positive count. */
  function RowCount(days: int): nat
  {
    if days > 0 then days else 0
  }

  /** Cell (r, c) is work exactly when the pixel sampled for it is work. */
  ghost predicate Samples(g: Grid, image: Image)
  {
    forall r, c :: 0 <= r < |g| && 0 <= c < |g[r]| && c < SlotsPerDay ==>
      (g[r][c] == 1 <==> IsWork(image(ColumnX[c], RowY(r))))
  }

  /** The cells of the row sampled at height `y`. */
  function SampleRow(image: Image, y: int): (row: seq<int>)
    ensures |row| == SlotsPerDay
    ensures forall c :: 0 <= c < |row| ==> row[c] == 0 || row[c] == 1
  {
    var row := seq(SlotsPerDay, c requires 0 <= c < SlotsPerDay => Cell(image(ColumnX[c], y)));
    assert forall c :: 0 <= c < |row| ==> row[c] == Cell(image(ColumnX[c], y));
    row
  }

  /** The closed-form decoder: row r is sampled at height `RowY(r)`. */
  function Decode(image: Image, days: int): (g: Grid)
    ensures |g| == RowCount(days)
    ensures WellFormed(g)
  {
    var g := seq(RowCount(days), r requires 0 <= r => SampleRow(image, RowY(r)));
    assert forall r :: 0 <= r < |g| ==> g[r] == SampleRow(image, RowY(r));
    g
  }

  /** Every decoded cell is work exactly when the pixel sampled for it is. */
  lemma {:induction false} DecodeSamples(image: Image, days: int)
    ensures Samples(Decode(image, days), image)
  {
    var g := Decode(image, days);
    forall r, c | 0 <= r < |g| && 0 <= c < |g[r]| && c < SlotsPerDay
      ensures g[r][c] == 1 <==> IsWork(image(ColumnX[c], RowY(r)))
    {
      assert g[r] == SampleRow(image, RowY(r));
      assert g[r][c] == Cell(image(ColumnX[c], RowY(r)));
    }
  }

  /**
   * The decoder as the source runs it: a running y coordinate that starts
   * at the first row and moves down one row step per day, and for each day
   * one sample per column position.
   */
  method DecodeGantt(image: Image, days: int) returns (g: Grid)
    ensures |g| == RowCount(days)
    ensures WellFormed(g)
    ensures Samples(g, image)
    ensures g == Decode(image, days)
  {
    var y := FirstRowY;
    g := [];
    var i := 0;
    while i < days
      invariant 0 <= i <= RowCount(days)
      invariant |g| == i
      invariant y == RowY(i)
      invariant forall r :: 0 <= r < i ==> g[r] == SampleRow(image, RowY(r))
    {
      var row := DecodeRow(image, y);
      y := y + RowStep;
      g := g + [row];
      i := i + 1;
    }
    assert g == Decode(image, days);
    DecodeSamples(image, days);
  }

  /** The inner loop of the decoder: one cell per column position at height `y`. */
  method DecodeRow(image: Image, y: int) returns (row: seq<int>)
    ensures row == SampleRow(image, y)
  {
    row := [];
    var k := 0;
    ghost var full := SampleRow(image, y);
    while k < SlotsPerDay
      invariant 0 <= k <= SlotsPerDay
      invariant row == full[..k]
    {
      var p := image(ColumnX[k], y);
      var cell;
      if p.r != 255 && p.g != 255 && p.b != 255 {
        cell := 1;
      } else {
        cell := 0;
      }
      assert cell == full[k];
      assert full[..k + 1] == full[..k] + [full[k]];
      row := row + [cell];
      k := k + 1;
    }
    assert full[..SlotsPerDay] == full;
  }

  /** Each entry lies left of the next one. */
  predicate Ascending(xs: seq<int>)
  {
    forall c :: 0 <= c < |xs| - 1 ==> xs[c] < xs[c + 1]
  }

  lemma {:induction false} AscendingConcat(a: seq<int>, b: seq<int>)
    requires Ascending(a) && Ascending(b)
    requires |a| > 0 && |b| > 0 && a[|a| - 1] < b[0]
    ensures Ascending(a + b)
  {
  }

  /** There is one column per half-hour slot, and the column positions strictly increase. */
  lemma {:induction false} ColumnsIncreasing()
    ensures |ColumnX| == SlotsPerDay
    ensures forall c :: 0 <= c < |ColumnX| - 1 ==> ColumnX[c] < ColumnX[c + 1]
  {
    assert Ascending(ColumnsFrom0h);
    assert Ascending(ColumnsFrom6h);
    assert Ascending(ColumnsFrom12h);
    assert Ascending(ColumnsFrom18h);
    AscendingConcat(ColumnsFrom0h, ColumnsFrom6h);
    AscendingConcat(ColumnsFrom0h + ColumnsFrom6h, ColumnsFrom12h);
    AscendingConcat(ColumnsFrom0h + ColumnsFrom6h + ColumnsFrom12h, ColumnsFrom18h);
  }

  lemma {:induction false} ColumnsStrictlyOrdered(i: int, j: int)
    requires 0 <= i < j < |ColumnX|
    ensures ColumnX[i] < ColumnX[j]
    decreases j - i
  {
    ColumnsIncreasing();
    if i + 1 < j {
      ColumnsStrictlyOrdered(i + 1, j);
    }
  }

  /** A pixel with one saturated channel is rest, even if it is not white. */
  lemma {:induction false} SaturatedChannelIsRest()
    ensures Cell(Rgb(255, 0, 0)) == 0
    ensures Cell(Rgb(0, 255, 0)) == 0
    ensures Cell(Rgb(0, 0, 255)) == 0
    ensures Cell(Rgb(254, 254, 254)) == 1
  {
  }
}
