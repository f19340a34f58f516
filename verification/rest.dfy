/**
 * Rest-hour values read from a page and their normalisation: the
 * "not applicable" sentinel is replaced by the most rest a window can hold.
 */
module Rest {

  /** One entry of a rest-hour list: the `N/A` sentinel or a number. */
  datatype RestValue = NA | Num(value: real)

  /** Per page, the rest-hour lists of both windows ("in any 24h", "in any 7d"). */
  datatype AnyHours = AnyHours(in24h: seq<seq<RestValue>>, in7d: seq<seq<RestValue>>)

  /** The value a sentinel stands for: a whole day, or a whole week, of rest. */
  const Full24h: real := 24.0
  const Full7d: real := 168.0

  predicate Numeric(v: RestValue)
  {
    v.Num?
  }

  /** A list with no sentinel left in it. */
  predicate AllNumeric(xs: seq<RestValue>)
  {
    forall j :: 0 <= j < |xs| ==> Numeric(xs[j])
  }

  /** Replaces every sentinel of one list by `fill`. */
  function FillList(xs: seq<RestValue>, fill: real): (ys: seq<RestValue>)
    ensures |ys| == |xs|
    ensures forall j :: 0 <= j < |xs| && xs[j].NA? ==> ys[j] == Num(fill)
    ensures forall j :: 0 <= j < |xs| && xs[j].Num? ==> ys[j] == xs[j]
    ensures AllNumeric(ys)
  {
    if |xs| == 0 then []
    else [if xs[0].NA? then Num(fill) else xs[0]] + FillList(xs[1..], fill)
  }

  /** Replaces every sentinel of every page's list by `fill`. */
  function FillPages(pages: seq<seq<RestValue>>, fill: real): (qs: seq<seq<RestValue>>)
    ensures |qs| == |pages|
    ensures forall i :: 0 <= i < |pages| ==> qs[i] == FillList(pages[i], fill)
  {
    seq(|pages|, i requires 0 <= i < |pages| => FillList(pages[i], fill))
  }

  /**
   * Sentinels become 24 in the 24-hour lists and 168 in the 7-day lists;
   * page count, list lengths and every numeric value are kept.
   */
  function Clean(h: AnyHours): (c: AnyHours)
    ensures |c.in24h| == |h.in24h| && |c.in7d| == |h.in7d|
    ensures forall i :: 0 <= i < |h.in24h| ==> |c.in24h[i]| == |h.in24h[i]| && AllNumeric(c.in24h[i])
    ensures forall i :: 0 <= i < |h.in7d| ==> |c.in7d[i]| == |h.in7d[i]| && AllNumeric(c.in7d[i])
    ensures forall i, j :: 0 <= i < |h.in24h| && 0 <= j < |h.in24h[i]| ==>
      c.in24h[i][j] == (if h.in24h[i][j].NA? then Num(Full24h) else h.in24h[i][j])
    ensures forall i, j :: 0 <= i < |h.in7d| && 0 <= j < |h.in7d[i]| ==>
      c.in7d[i][j] == (if h.in7d[i][j].NA? then Num(Full7d) else h.in7d[i][j])
  {
    AnyHours(FillPages(h.in24h, Full24h), FillPages(h.in7d, Full7d))
  }

  /** A list without sentinels is left as it is. */
  lemma {:induction false} FillListNumeric(xs: seq<RestValue>, fill: real)
    requires AllNumeric(xs)
    ensures FillList(xs, fill) == xs
  {
    if |xs| > 0 {
      assert AllNumeric(xs[1..]) by {
        forall j | 0 <= j < |xs[1..]| ensures Numeric(xs[1..][j]) {
          assert xs[1..][j] == xs[j + 1];
        }
      }
      FillListNumeric(xs[1..], fill);
    }
  }

  /** Cleaning twice is the same as cleaning once. */
  lemma {:induction false} CleanIdempotent(h: AnyHours)
    ensures Clean(Clean(h)) == Clean(h)
  {
    var c := Clean(h);
    forall i | 0 <= i < |c.in24h| ensures FillList(c.in24h[i], Full24h) == c.in24h[i] {
      FillListNumeric(c.in24h[i], Full24h);
    }
    forall i | 0 <= i < |c.in7d| ensures FillList(c.in7d[i], Full7d) == c.in7d[i] {
      FillListNumeric(c.in7d[i], Full7d);
    }
  }
}
