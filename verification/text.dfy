/**
 * Plain string operations the extractor relies on: locating a substring,
 * Python's `str.split` with an explicit separator, and its inverse `join`.
 */
module Text {
  import opened Outcomes

  /** `d` occurs in `s` starting at index `i`. */
  predicate OccursAt(s: string, d: string, i: int)
  {
    0 <= i && i + |d| <= |s| && s[i..i + |d|] == d
  }

  predicate StartsWith(s: string, prefix: string)
  {
    |prefix| <= |s| && s[..|prefix|] == prefix
  }

  /** `d` appears nowhere in `s`. */
  ghost predicate Absent(s: string, d: string)
  {
    forall j :: !OccursAt(s, d, j)
  }

  lemma {:induction false} OccursAtTail(s: string, d: string, j: int)
    requires |s| > 0 && 1 <= j
    ensures OccursAt(s, d, j) <==> OccursAt(s[1..], d, j - 1)
  {
    if j + |d| <= |s| {
      assert s[1..][j - 1..j - 1 + |d|] == s[j..j + |d|];
    }
  }

  lemma {:induction false} OccursAtPrefix(s: string, d: string, i: nat, j: int)
    requires i <= |s|
    requires OccursAt(s[..i], d, j)
    ensures OccursAt(s, d, j) && j + |d| <= i
  {
    assert s[..i][j..j + |d|] == s[j..j + |d|];
  }

  lemma {:induction false} OccursAtSuffix(s: string, d: string, i: nat, j: int)
    requires i <= |s| && 0 <= j
    ensures OccursAt(s[i..], d, j) <==> OccursAt(s, d, i + j)
  {
    if 0 <= j && j + |d| <= |s| - i {
      assert s[i..][j..j + |d|] == s[i + j..i + j + |d|];
    }
  }

  /** The index of the leftmost occurrence of `d` in `s` (Python's `str.find`). */
  function Find(s: string, d: string): (r: Option<nat>)
    ensures r.Some? ==> OccursAt(s, d, r.value)
    ensures r.Some? ==> forall j :: 0 <= j < r.value ==> !OccursAt(s, d, j)
    ensures r.None? ==> Absent(s, d)
    decreases |s|
  {
    if |s| < |d| then None
    else if s[..|d|] == d then Some(0)
    else
      assert !OccursAt(s, d, 0);
      assert forall j :: 1 <= j ==> (OccursAt(s, d, j) <==> OccursAt(s[1..], d, j - 1)) by {
        forall j | 1 <= j ensures OccursAt(s, d, j) <==> OccursAt(s[1..], d, j - 1) {
          OccursAtTail(s, d, j);
        }
      }
      match Find(s[1..], d)
      case None => None
      case Some(i) => Some(i + 1)
  }

  /** Index of the first character of `s` that belongs to `cs`. */
  function FirstOf(s: string, cs: set<char>): (r: Option<nat>)
    ensures r.Some? ==> r.value < |s| && s[r.value] in cs
    ensures r.Some? ==> forall j :: 0 <= j < r.value ==> s[j] !in cs
    ensures r.None? ==> forall j :: 0 <= j < |s| ==> s[j] !in cs
  {
    if |s| == 0 then None
    else if s[0] in cs then Some(0)
    else match FirstOf(s[1..], cs)
      case None => None
      case Some(i) => Some(i + 1)
  }

  /** Python's `s.split(d)` for a non-empty separator `d`. */
  function Split(s: string, d: string): (parts: seq<string>)
    requires |d| > 0
    ensures |parts| >= 1
    decreases |s|
  {
    var f := Find(s, d);
    if f.None? then [s]
    else [s[..f.value]] + Split(s[f.value + |d|..], d)
  }

  /** No piece produced by `split` contains the separator. */
  lemma {:induction false} SplitPiecesAbsent(s: string, d: string)
    requires |d| > 0
    ensures forall k :: 0 <= k < |Split(s, d)| ==> Absent(Split(s, d)[k], d)
    decreases |s|
  {
    var f := Find(s, d);
    if f.Some? {
      var i := f.value;
      var rest := s[i + |d|..];
      SplitPiecesAbsent(rest, d);
      assert Split(s, d) == [s[..i]] + Split(rest, d);
      forall j | OccursAt(s[..i], d, j) ensures false {
        OccursAtPrefix(s, d, i, j);
      }
    }
  }

  /** Python's `d.join(parts)`. */
  function Join(parts: seq<string>, d: string): string
  {
    if |parts| == 0 then ""
    else if |parts| == 1 then parts[0]
    else parts[0] + d + Join(parts[1..], d)
  }

  lemma {:induction false} JoinCons(parts: seq<string>, d: string)
    requires |parts| >= 2
    ensures Join(parts, d) == parts[0] + d + Join(parts[1..], d)
  {
  }

  /** One step of `split`: the text up to the first separator, then the split of what follows it. */
  lemma {:induction false} SplitStep(s: string, d: string)
    requires |d| > 0 && Find(s, d).Some?
    ensures var i := Find(s, d).value;
      i + |d| <= |s| && s[i..i + |d|] == d && Split(s, d) == [s[..i]] + Split(s[i + |d|..], d)
  {
    var f := Find(s, d);
    assert OccursAt(s, d, f.value);
    var parts := [s[..f.value]] + Split(s[f.value + |d|..], d);
    assert Split(s, d) == parts;
  }

  /** Splitting and joining again gives back the original text. */
  lemma {:induction false} JoinSplit(s: string, d: string)
    requires |d| > 0
    ensures Join(Split(s, d), d) == s
    decreases |s|
  {
    var f := Find(s, d);
    if f.Some? {
      var i := f.value;
      SplitStep(s, d);
      var rest := s[i + |d|..];
      var parts := Split(s, d);
      JoinSplit(rest, d);
      assert parts[0] == s[..i] && parts[1..] == Split(rest, d);
      JoinCons(parts, d);
      assert Join(parts, d) == s[..i] + d + rest;
      assert s == s[..i] + s[i..i + |d|] + rest;
    }
  }

  /** Number of positions at which `d` starts in `s`, overlapping ones included. */
  function Occurrences(s: string, d: string): nat
    decreases |s|
  {
    if |d| == 0 || |s| < |d| then 0
    else (if s[..|d|] == d then 1 else 0) + Occurrences(s[1..], d)
  }

  /** A proper suffix of `d` of length `|d| - k` equals its prefix of that length. */
  predicate Border(d: string, k: nat)
    requires k <= |d|
  {
    d[k..] == d[..|d| - k]
  }

  /** No two occurrences of `d` can overlap. */
  predicate NoSelfOverlap(d: string)
  {
    forall k :: 0 < k < |d| ==> !Border(d, k)
  }

  lemma {:induction false} OccurrencesAbsent(s: string, d: string)
    requires Absent(s, d)
    ensures Occurrences(s, d) == 0
    decreases |s|
  {
    if |d| == 0 || |s| < |d| {
    } else {
      assert !OccursAt(s, d, 0);
      forall j | 0 <= j ensures !OccursAt(s[1..], d, j) {
        OccursAtTail(s, d, j + 1);
      }
      OccurrencesAbsent(s[1..], d);
    }
  }

  /** Positions before the first occurrence contribute nothing to the count. */
  lemma {:induction false} OccurrencesSkip(s: string, d: string, k: nat)
    requires |d| > 0
    requires k <= |s|
    requires forall j :: 0 <= j < k ==> !OccursAt(s, d, j)
    ensures Occurrences(s, d) == Occurrences(s[k..], d)
    decreases k
  {
    if k > 0 {
      assert !OccursAt(s, d, 0);
      forall j | 0 <= j < k - 1 ensures !OccursAt(s[1..], d, j) {
        OccursAtTail(s, d, j + 1);
      }
      OccurrencesSkip(s[1..], d, k - 1);
      assert s[1..][k - 1..] == s[k..];
      if |s| < |d| {
        assert |s[k..]| < |d|;
      }
    }
  }

  lemma {:induction false} OccurrencesHead(t: string, d: string)
    requires 0 < |d| <= |t| && t[..|d|] == d
    ensures Occurrences(t, d) == 1 + Occurrences(t[1..], d)
  {
  }

  /** Right after an occurrence of a non-self-overlapping `d`, the next one cannot start before the occurrence ends. */
  lemma {:induction false} NoOverlapAfter(s: string, d: string, i: nat, j: int)
    requires NoSelfOverlap(d)
    requires OccursAt(s, d, i)
    requires 0 <= j < |d| - 1
    ensures !OccursAt(s[i + 1..], d, j)
  {
    if OccursAt(s[i + 1..], d, j) {
      var m := j + 1;
      assert s[i + 1..][j..j + |d|] == s[i + m..i + m + |d|];
      assert d[m..] == s[i + m..i + |d|];
      assert d[..|d| - m] == s[i + m..i + |d|];
      assert Border(d, m);
    }
  }

  /** Counting from the first occurrence of a non-self-overlapping `d`: that one, then those after it. */
  lemma {:induction false} OccurrencesFromFirst(s: string, d: string, i: nat)
    requires |d| > 0
    requires NoSelfOverlap(d)
    requires OccursAt(s, d, i)
    requires forall j :: 0 <= j < i ==> !OccursAt(s, d, j)
    ensures Occurrences(s, d) == 1 + Occurrences(s[i + |d|..], d)
  {
    var rest := s[i + |d|..];
    assert Occurrences(s, d) == Occurrences(s[i..], d) by {
      OccurrencesSkip(s, d, i);
    }
    var u := s[i + 1..];
    assert Occurrences(s[i..], d) == 1 + Occurrences(u, d) by {
      var t := s[i..];
      assert t[..|d|] == s[i..i + |d|];
      OccurrencesHead(t, d);
      assert t[1..] == u;
    }
    assert Occurrences(u, d) == Occurrences(rest, d) by {
      forall j | 0 <= j < |d| - 1 ensures !OccursAt(u, d, j) {
        NoOverlapAfter(s, d, i, j);
      }
      OccurrencesSkip(u, d, |d| - 1);
      assert u[|d| - 1..] == rest;
    }
  }

  /** With a separator that cannot overlap itself, `split` yields one more piece than there are occurrences. */
  lemma {:induction false} SplitCount(s: string, d: string)
    requires |d| > 0
    requires NoSelfOverlap(d)
    ensures |Split(s, d)| == Occurrences(s, d) + 1
    decreases |s|
  {
    var f := Find(s, d);
    if f.None? {
      OccurrencesAbsent(s, d);
    } else {
      var i := f.value;
      var rest := s[i + |d|..];
      assert |Split(s, d)| == 1 + |Split(rest, d)| by {
        SplitStep(s, d);
      }
      SplitCount(rest, d);
      OccurrencesFromFirst(s, d, i);
    }
  }
}
