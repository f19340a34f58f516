/**
 * Hours worked per day, derived from a decoded chart: each work cell is one
 * half hour.
 */
module Hours {
  import opened Chart

  /** Number of cells equal to 1 in a row. */
  function Ones(row: seq<int>): (n: nat)
    ensures n <= |row|
  {
    if |row| == 0 then 0
    else Ones(row[..|row| - 1]) + (if row[|row| - 1] == 1 then 1 else 0)
  }

  /** Indices of the work cells of a row. */
  ghost function WorkSlots(row: seq<int>): set<int>
  {
    set c | 0 <= c < |row| && row[c] == 1
  }

  /** `Ones` counts exactly the work cells. */
  lemma {:induction false} OnesCountsWorkSlots(row: seq<int>)
    ensures Ones(row) == |WorkSlots(row)|
  {
    if |row| > 0 {
      var n := |row| - 1;
      var front := row[..n];
      OnesCountsWorkSlots(front);
      if row[n] == 1 {
        assert WorkSlots(row) == WorkSlots(front) + {n};
        assert n !in WorkSlots(front);
      } else {
        assert WorkSlots(row) == WorkSlots(front);
      }
    }
  }

  /** Hours worked on each day of a chart: half the number of work cells of its row. */
  function HoursWorked(g: Grid): (hs: seq<real>)
    ensures |hs| == |g|
    ensures forall d :: 0 <= d < |g| ==> 0.0 <= hs[d] && 2.0 * hs[d] <= |g[d]| as real
  {
    seq(|g|, d requires 0 <= d < |g| => Ones(g[d]) as real / 2.0)
  }

  /** The half-hour columns whose sampled pixel on day row `d` is work. */
  ghost function WorkPixels(image: Image, d: int): set<int>
  {
    set c | 0 <= c < SlotsPerDay && IsWork(image(ColumnX[c], RowY(d)))
  }

  /**
   * On a decoded page, the hours of day `d` are half the number of work
   * pixels sampled on that day's row, and so lie between 0 and 24.
   */
  lemma {:induction false} HoursWorkedOfDecoded(image: Image, days: int, d: int)
    requires 0 <= d < RowCount(days)
    ensures 2.0 * HoursWorked(Decode(image, days))[d] == |WorkPixels(image, d)| as real
    ensures 0.0 <= HoursWorked(Decode(image, days))[d] <= 24.0
  {
    var g := Decode(image, days);
    var row := g[d];
    OnesCountsWorkSlots(row);
    assert WorkSlots(row) == WorkPixels(image, d);
  }
}
