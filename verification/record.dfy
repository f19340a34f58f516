/**
 * Field extraction from the text of one record segment. Each search of the
 * extractor is modelled by a matcher that says whether its pattern matches
 * at a given position, and what the pattern's group captures there; a
 * search is the match at the leftmost position where the matcher succeeds.
 */
module Record {
  import opened Outcomes
  import opened Text
  import opened Rest

  /** The fields a segment must provide. */
  datatype Field =
    | VesselField | SeafarerField | PositionField | PeriodField
    | StartDayField | EndDayField | PageField
    | RestIn24hField | RestIn7dField

  /** The header of one record; `period` is the label text as found on the page. */
  datatype Header = Header(
    vessel: string, seafarer: string, position: string, period: string,
    startDay: int, endDay: int, page: string)

  /** Why a document could not be read, with the index of the offending segment. */
  datatype ExtractError =
    | MissingField(page: nat, field: Field)
    | BadNumber(page: nat, token: string)
    | MissingImage(page: nat)

  /** What one segment yields. */
  datatype ParsedPage = ParsedPage(header: Header, rest24: seq<RestValue>, rest7: seq<RestValue>)

  // ---------------------------------------------------------------------
  // Leftmost search
  // ---------------------------------------------------------------------

  /** The leftmost position at or after `from` where `at` matches. */
  function FirstMatch<T>(s: string, at: (string, nat) -> Option<T>, from: nat): (r: Option<nat>)
    ensures r.Some? ==> from <= r.value <= |s| && at(s, r.value).Some?
    ensures r.Some? ==> forall q :: from <= q < r.value ==> at(s, q).None?
    ensures r.None? ==> forall q :: from <= q <= |s| ==> at(s, q).None?
    decreases |s| + 1 - from
  {
    if from > |s| then None
    else if at(s, from).Some? then Some(from)
    else FirstMatch(s, at, from + 1)
  }

  /** What the match at the leftmost matching position captures, if any position matches. */
  function Search<T>(s: string, at: (string, nat) -> Option<T>): Option<T>
  {
    match FirstMatch(s, at, 0)
    case None => None
    case Some(p) => at(s, p)
  }

  /** A search where no position matches finds nothing. */
  lemma {:induction false} SearchFindsNothing<T>(s: string, at: (string, nat) -> Option<T>)
    requires forall q :: 0 <= q <= |s| ==> at(s, q).None?
    ensures Search(s, at).None?
  {
  }

  /** A search finds the match at the first position that matches. */
  lemma {:induction false} SearchFindsFirst<T>(s: string, at: (string, nat) -> Option<T>, i: nat)
    requires i <= |s| && at(s, i).Some?
    requires forall q :: 0 <= q < i ==> at(s, q).None?
    ensures Search(s, at) == at(s, i)
  {
  }

  /** A search finds something exactly when the pattern matches somewhere, and then it is the leftmost match. */
  lemma {:induction false} SearchLeftmost<T>(s: string, at: (string, nat) -> Option<T>)
    ensures Search(s, at).Some? <==> exists p :: 0 <= p <= |s| && at(s, p).Some?
    ensures Search(s, at).Some? ==> exists p :: 0 <= p <= |s| && at(s, p) == Search(s, at) && forall q :: 0 <= q < p ==> at(s, q).None?
  {
  }

  // ---------------------------------------------------------------------
  // Matchers
  // ---------------------------------------------------------------------

  const LineBreak: set<char> := {'\n'}

  const VesselLabel := "Vessel:\n\n"
  const SeafarerLabel := "Seafarer (Full Name):\n\n"
  const PositionLabel := "Position (Rank):\n\n"

  /** `label(.*?)\n`: the label, then the rest of that line. */
  function LineAfterAt(marker: string, s: string, p: nat): (r: Option<string>)
    ensures r.Some? ==> '\n' !in r.value
    ensures r.Some? ==> p <= |s| && StartsWith(s[p..], marker + r.value + "\n")
    ensures p <= |s| && StartsWith(s[p..], marker) && '\n' in s[p + |marker|..] ==> r.Some?
  {
    if p <= |s| && StartsWith(s[p..], marker) then
      var rest := s[p + |marker|..];
      match FirstOf(rest, LineBreak)
      case Some(j) =>
        assert s[p..][..|marker| + j + 1] == marker + rest[..j] + "\n" by {
          assert s[p..][..|marker| + j + 1] == s[p..][..|marker|] + rest[..j + 1];
          assert rest[..j + 1] == rest[..j] + [rest[j]];
        }
        Some(rest[..j])
      case None => None
    else None
  }

  /** Wherever the label is followed by a line, the match captures exactly that line. */
  lemma {:induction false} LineAfterAtExactly(marker: string, s: string, p: nat, v: string)
    requires '\n' !in v
    requires p <= |s| && StartsWith(s[p..], marker + v + "\n")
    ensures LineAfterAt(marker, s, p) == Some(v)
  {
    var w := marker + v + "\n";
    assert s[p..][..|w|] == w;
    assert StartsWith(s[p..], marker) by {
      assert s[p..][..|marker|] == w[..|marker|];
    }
    var rest := s[p + |marker|..];
    assert rest[..|v| + 1] == v + "\n" by {
      assert rest[..|v| + 1] == s[p..][|marker|..|w|];
    }
    assert rest[|v|] == '\n';
    forall j | 0 <= j < |v| ensures rest[j] !in LineBreak {
      assert rest[j] == v[j];
    }
    assert FirstOf(rest, LineBreak) == Some(|v|);
    assert rest[..|v|] == v;
  }

  function VesselAt(s: string, p: nat): Option<string> { LineAfterAt(VesselLabel, s, p) }
  function SeafarerAt(s: string, p: nat): Option<string> { LineAfterAt(SeafarerLabel, s, p) }
  function PositionAt(s: string, p: nat): Option<string> { LineAfterAt(PositionLabel, s, p) }

  lemma {:induction false} StartsWithOccurs(s: string, d: string, p: nat)
    requires p <= |s|
    ensures StartsWith(s[p..], d) <==> OccursAt(s, d, p)
  {
    if p + |d| <= |s| {
      assert s[p..][..|d|] == s[p..p + |d|];
    }
  }

  /**
   * A label-then-line search yields the rest of the line after the FIRST
   * occurrence of the label, and fails when the label is absent or no line
   * break follows its first occurrence (a later occurrence cannot help,
   * because its line break would also follow the first one).
   */
  lemma {:induction false} LineSearchFirstLabel(marker: string, s: string, at: (string, nat) -> Option<string>)
    requires forall p: nat :: at(s, p) == LineAfterAt(marker, s, p)
    ensures Search(s, at) == match Find(s, marker)
      case None => None
      case Some(i) => LineAfterAt(marker, s, i)
  {
    match Find(s, marker)
    case None =>
      LineSearchWithoutLabel(marker, s, at);
    case Some(i) =>
      LineSearchAtFirstLabel(marker, s, at, i);
  }

  /** Without the label, a label-then-line search finds nothing. */
  lemma {:induction false} LineSearchWithoutLabel(marker: string, s: string, at: (string, nat) -> Option<string>)
    requires forall p: nat :: at(s, p) == LineAfterAt(marker, s, p)
    requires Absent(s, marker)
    ensures Search(s, at).None?
  {
    forall q | 0 <= q <= |s| ensures at(s, q).None? {
      StartsWithOccurs(s, marker, q);
    }
    SearchFindsNothing(s, at);
  }

  /** With the first label at `i`, a label-then-line search finds the line after it, if that line ends. */
  lemma {:induction false} LineSearchAtFirstLabel(marker: string, s: string, at: (string, nat) -> Option<string>, i: nat)
    requires forall p: nat :: at(s, p) == LineAfterAt(marker, s, p)
    requires Find(s, marker) == Some(i)
    ensures Search(s, at) == LineAfterAt(marker, s, i)
  {
    forall q | 0 <= q < i ensures at(s, q).None? {
      StartsWithOccurs(s, marker, q);
    }
    if LineAfterAt(marker, s, i).None? {
      forall q | 0 <= q <= |s| ensures at(s, q).None? {
        if i < q {
          NoLineAfterLaterLabel(marker, s, i, q);
        }
      }
      SearchFindsNothing(s, at);
    } else {
      SearchFindsFirst(s, at, i);
    }
  }

  /** When no line break follows the first label, none follows any later one either. */
  lemma {:induction false} NoLineAfterLaterLabel(marker: string, s: string, i: nat, q: nat)
    requires Find(s, marker) == Some(i) && LineAfterAt(marker, s, i).None?
    requires i < q <= |s|
    ensures LineAfterAt(marker, s, q).None?
  {
    StartsWithOccurs(s, marker, i);
    StartsWithOccurs(s, marker, q);
    var a := i + |marker|;
    assert FirstOf(s[a..], LineBreak).None?;
    if OccursAt(s, marker, q) {
      var b := q + |marker|;
      forall j | 0 <= j < |s[b..]| ensures s[b..][j] !in LineBreak {
        assert s[b..][j] == s[a..][b - a + j];
      }
    }
  }

  /** Vessel, seafarer and position are each the rest of the line after the first occurrence of their label. */
  lemma {:induction false} HeaderLinesFollowFirstLabel(seg: string)
    ensures Search(seg, VesselAt) == match Find(seg, VesselLabel)
      case None => None
      case Some(i) => LineAfterAt(VesselLabel, seg, i)
    ensures Search(seg, SeafarerAt) == match Find(seg, SeafarerLabel)
      case None => None
      case Some(i) => LineAfterAt(SeafarerLabel, seg, i)
    ensures Search(seg, PositionAt) == match Find(seg, PositionLabel)
      case None => None
      case Some(i) => LineAfterAt(PositionLabel, seg, i)
  {
    LineSearchFirstLabel(VesselLabel, seg, VesselAt);
    LineSearchFirstLabel(SeafarerLabel, seg, SeafarerAt);
    LineSearchFirstLabel(PositionLabel, seg, PositionAt);
  }

  const PeriodsMarker := "\n\nPeriods"

  /** `\n(.*)\n\nPeriods`: a whole line directly followed by a blank line and `Periods`. */
  function PeriodAt(s: string, p: nat): (r: Option<string>)
    ensures r.Some? ==> '\n' !in r.value
    ensures r.Some? ==> p <= |s| && StartsWith(s[p..], "\n" + r.value + PeriodsMarker)
  {
    if p < |s| && s[p] == '\n' then
      var rest := s[p + 1..];
      match FirstOf(rest, LineBreak)
      case Some(j) => if StartsWith(rest[j..], PeriodsMarker) then Some(rest[..j]) else None
      case None => None
    else None
  }

  /** Wherever a whole line is followed by a blank line and `Periods`, the match captures exactly that line. */
  lemma {:induction false} PeriodAtExactly(s: string, p: nat, v: string)
    requires '\n' !in v
    requires p <= |s| && StartsWith(s[p..], "\n" + v + PeriodsMarker)
    ensures PeriodAt(s, p) == Some(v)
  {
    var w := "\n" + v + PeriodsMarker;
    assert s[p..][..|w|] == w;
    assert s[p] == s[p..][0] == '\n';
    var rest := s[p + 1..];
    assert rest[..|v| + |PeriodsMarker|] == v + PeriodsMarker by {
      assert rest[..|v| + |PeriodsMarker|] == s[p..][1..|w|];
    }
    assert rest[|v|] == '\n';
    forall j | 0 <= j < |v| ensures rest[j] !in LineBreak {
      assert rest[j] == v[j];
    }
    assert FirstOf(rest, LineBreak) == Some(|v|);
    assert rest[..|v|] == v;
    assert rest[|v|..][..|PeriodsMarker|] == PeriodsMarker;
  }

  /** One position of a fixed-width pattern: a literal character or a decimal digit. */
  datatype Sym = Lit(c: char) | Digit

  predicate IsDigit(c: char)
  {
    '0' <= c <= '9'
  }

  predicate SymMatches(sym: Sym, c: char)
  {
    match sym
    case Lit(x) => c == x
    case Digit => IsDigit(c)
  }

  function Lits(t: string): (pat: seq<Sym>)
    ensures |pat| == |t|
    ensures forall k :: 0 <= k < |t| ==> pat[k] == Lit(t[k])
  {
    if |t| == 0 then [] else [Lit(t[0])] + Lits(t[1..])
  }

  /** The fixed-width pattern `pat` matches at position `p` of `s`. */
  predicate FitsAt(s: string, p: nat, pat: seq<Sym>)
  {
    p + |pat| <= |s| && forall k :: 0 <= k < |pat| ==> SymMatches(pat[k], s[p + k])
  }

  /** The value of a decimal digit. */
  function DigitValue(c: char): int
  {
    c as int - '0' as int
  }

  /** `int()` of a two-character decimal string: its tens digit, then its units digit. */
  function TwoDigits(s: string, p: nat): (n: int)
    requires p + 2 <= |s| && IsDigit(s[p]) && IsDigit(s[p + 1])
    ensures 0 <= n <= 99
    ensures n / 10 == DigitValue(s[p]) && n % 10 == DigitValue(s[p + 1])
  {
    var tens := DigitValue(s[p]);
    var units := DigitValue(s[p + 1]);
    var n := 10 * tens + units;
    assert n / 10 == tens && n % 10 == units by {
      DivModDecimal(tens, units);
    }
    n
  }

  lemma {:induction false} DivModDecimal(tens: int, units: int)
    requires 0 <= tens <= 9 && 0 <= units <= 9
    ensures (10 * tens + units) / 10 == tens && (10 * tens + units) % 10 == units
  {
  }

  /** `Date\n(\d\d)/` */
  const StartDayPattern: seq<Sym> := Lits("Date\n") + [Digit, Digit, Lit('/')]
  const StartDayOffset: nat := 5

  /** `\n(\d\d)/\d\d/\d{4}\n\n` */
  const EndDayPattern: seq<Sym> :=
    [Lit('\n'), Digit, Digit, Lit('/'), Digit, Digit, Lit('/'), Digit, Digit, Digit, Digit, Lit('\n'), Lit('\n')]
  const EndDayOffset: nat := 1

  function StartDayAt(s: string, p: nat): (r: Option<int>)
    ensures r.Some? <==> FitsAt(s, p, StartDayPattern)
    ensures r.Some? ==> 0 <= r.value <= 99
    ensures r.Some? ==> r.value / 10 == DigitValue(s[p + StartDayOffset]) && r.value % 10 == DigitValue(s[p + StartDayOffset + 1])
  {
    if FitsAt(s, p, StartDayPattern) then
      assert StartDayPattern[StartDayOffset] == Digit && StartDayPattern[StartDayOffset + 1] == Digit;
      Some(TwoDigits(s, p + StartDayOffset))
    else None
  }

  function EndDayAt(s: string, p: nat): (r: Option<int>)
    ensures r.Some? <==> FitsAt(s, p, EndDayPattern)
    ensures r.Some? ==> 0 <= r.value <= 99
    ensures r.Some? ==> r.value / 10 == DigitValue(s[p + EndDayOffset]) && r.value % 10 == DigitValue(s[p + EndDayOffset + 1])
  {
    if FitsAt(s, p, EndDayPattern) then
      assert EndDayPattern[EndDayOffset] == Digit && EndDayPattern[EndDayOffset + 1] == Digit;
      Some(TwoDigits(s, p + EndDayOffset))
    else None
  }

  const PageLabel := "Page"
  const SpaceOrBreak: set<char> := {' ', '\n'}

  /** Length of the run of spaces starting at position `a`. */
  function SpacesFrom(s: string, a: nat): (k: nat)
    ensures a + k <= |s| || (a > |s| && k == 0)
    ensures forall j :: a <= j < a + k ==> s[j] == ' '
    ensures a + k < |s| ==> s[a + k] != ' '
    decreases |s| - a
  {
    if a < |s| && s[a] == ' ' then 1 + SpacesFrom(s, a + 1) else 0
  }

  /** A space occurs in `t` before any line break. */
  predicate SpaceBeforeBreak(t: string)
  {
    exists j :: 0 <= j < |t| && t[j] == ' ' && forall i :: 0 <= i < j ==> t[i] != '\n'
  }

  /** The first space or line break of `t` is a space exactly when a space comes before any line break. */
  lemma {:induction false} FirstSpaceOrBreak(t: string)
    ensures SpaceBeforeBreak(t) <==> (FirstOf(t, SpaceOrBreak).Some? && t[FirstOf(t, SpaceOrBreak).value] == ' ')
  {
    var f := FirstOf(t, SpaceOrBreak);
    if SpaceBeforeBreak(t) {
      var j :| 0 <= j < |t| && t[j] == ' ' && forall i :: 0 <= i < j ==> t[i] != '\n';
      assert t[j] in SpaceOrBreak;
      assert f.Some? && f.value <= j;
    }
  }

  /**
   * `Page *(.*?) `: the spaces after `Page` are taken greedily, then the
   * shortest text up to a space on the same line. When no space follows on
   * that line, the engine gives one of the leading spaces back to the final
   * space of the pattern and captures the empty text; without a leading
   * space there is no match here.
   */
  function PageAt(s: string, p: nat): (r: Option<string>)
    ensures r.Some? ==> ' ' !in r.value && '\n' !in r.value
    ensures r.Some? ==> p <= |s| && StartsWith(s[p..], PageLabel)
    ensures p <= |s| && StartsWith(s[p..], PageLabel) ==>
      var a := p + |PageLabel|;
      var k := SpacesFrom(s, a);
      var rest := s[a + k..];
      && (r.Some? <==> k > 0 || SpaceBeforeBreak(rest))
      && (r.Some? && SpaceBeforeBreak(rest) ==> StartsWith(rest, r.value + " "))
      && (r.Some? && !SpaceBeforeBreak(rest) ==> r.value == "")
  {
    if p <= |s| && StartsWith(s[p..], PageLabel) then
      var k := SpacesFrom(s, p + |PageLabel|);
      var rest := s[p + |PageLabel| + k..];
      FirstSpaceOrBreak(rest);
      match FirstOf(rest, SpaceOrBreak)
      case Some(j) =>
        if rest[j] == ' ' then
          assert rest[..j + 1] == rest[..j] + " ";
          Some(rest[..j])
        else if k > 0 then Some("")
        else None
      case None =>
        if k > 0 then Some("") else None
    else None
  }

  const Rest24hLabel := "in any 24h\n"
  const Rest7dLabel := "in any 7d\n"
  const BlankLine := "\n\n"

  /** `label([\s\S]+?)\n\n`: at least one character, up to the first blank line. */
  function RestListAt(marker: string, s: string, p: nat): (r: Option<string>)
    ensures r.Some? ==> |r.value| >= 1
    ensures r.Some? ==> p <= |s| && StartsWith(s[p..], marker + r.value + BlankLine)
    ensures r.Some? ==> Absent(r.value[1..] + "\n", BlankLine)
    ensures p <= |s| && StartsWith(s[p..], marker) && p + |marker| < |s| && !Absent(s[p + |marker| + 1..], BlankLine) ==> r.Some?
  {
    if p <= |s| && StartsWith(s[p..], marker) && p + |marker| < |s| then
      var a := p + |marker|;
      match Find(s[a + 1..], BlankLine)
      case Some(k) =>
        var v := s[a..a + 1 + k];
        assert StartsWith(s[p..], marker + v + BlankLine) by {
          OccursAtSuffix(s, BlankLine, a + 1, k);
          CaptureFollowedByBlankLine(marker, s, p, k);
        }
        assert Absent(v[1..] + "\n", BlankLine) by {
          CaptureHasNoBlankLine(s, a, k);
        }
        Some(v)
      case None => None
    else None
  }

  /** Wherever the label is followed by a shortest non-empty text ending at a blank line, the match captures exactly that text. */
  lemma {:induction false} RestListAtExactly(marker: string, s: string, p: nat, v: string)
    requires |v| >= 1
    requires p <= |s| && StartsWith(s[p..], marker + v + BlankLine)
    requires Absent(v[1..] + "\n", BlankLine)
    ensures RestListAt(marker, s, p) == Some(v)
  {
    var a := p + |marker|;
    var u := s[a + 1..];
    LabelledCaptureLayout(marker, s, p, v);
    assert OccursAt(u, BlankLine, |v| - 1) by {
      assert u[|v| - 1..|v| + 1] == u[..|v| + 1][|v| - 1..];
    }
    var f := Find(u, BlankLine);
    assert f.Some? && f.value <= |v| - 1;
    assert (v[1..] + BlankLine)[..|v|] == v[1..] + "\n";
    if f.value < |v| - 1 {
      OccurrenceInPrefix(u, v[1..] + BlankLine, f.value);
      assert false;
    }
    assert RestListAt(marker, s, p) == Some(s[a..a + 1 + (|v| - 1)]);
  }

  /** Where the label is followed by `v` and a blank line, the text after the label's first character starts with the rest of `v` and the blank line. */
  lemma {:induction false} LabelledCaptureLayout(marker: string, s: string, p: nat, v: string)
    requires |v| >= 1
    requires p <= |s| && StartsWith(s[p..], marker + v + BlankLine)
    ensures StartsWith(s[p..], marker) && p + |marker| + |v| + 2 <= |s|
    ensures s[p + |marker|..p + |marker| + |v|] == v
    ensures s[p + |marker| + 1..][..|v| + 1] == v[1..] + BlankLine
  {
    var w := marker + v + BlankLine;
    var a := p + |marker|;
    assert forall j :: 0 <= j < |w| ==> s[p + j] == w[j] by {
      forall j | 0 <= j < |w| ensures s[p + j] == w[j] {
        assert s[p..][..|w|][j] == w[j];
      }
    }
    assert forall j :: 0 <= j < |marker| ==> w[j] == marker[j];
    assert forall j :: 0 <= j < |v| ==> w[|marker| + j] == v[j];
    assert forall j :: 0 <= j < |v| + 1 ==> w[a - p + 1 + j] == (v[1..] + BlankLine)[j];
    assert s[p..][..|marker|] == marker;
    assert forall j :: 0 <= j < |v| ==> s[a..a + |v|][j] == v[j] by {
      forall j | 0 <= j < |v| ensures s[a..a + |v|][j] == v[j] {
        assert s[a + j] == w[|marker| + j];
      }
    }
    assert forall j :: 0 <= j < |v| + 1 ==> s[a + 1..][..|v| + 1][j] == (v[1..] + BlankLine)[j] by {
      forall j | 0 <= j < |v| + 1 ensures s[a + 1..][..|v| + 1][j] == (v[1..] + BlankLine)[j] {
        assert s[a + 1 + j] == w[a - p + 1 + j];
      }
    }
  }

  /** An occurrence that lies wholly inside a prefix of `t` is an occurrence in that prefix; used here for an earlier blank line. */
  lemma {:induction false} OccurrenceInPrefix(t: string, x: string, k: nat)
    requires StartsWith(t, x) && OccursAt(t, BlankLine, k) && k + 2 < |x|
    ensures OccursAt(x[..|x| - 1], BlankLine, k)
  {
    assert t[..|x|] == x;
    assert x[k..k + 2] == t[..|x|][k..k + 2] == t[k..k + 2];
    assert x[..|x| - 1][k..k + 2] == x[k..k + 2];
  }

  /** The capture, with the line break after it, holds no blank line: the lazy match stops at the first one. */
  lemma {:induction false} CaptureHasNoBlankLine(s: string, a: nat, k: nat)
    requires a < |s| && Find(s[a + 1..], BlankLine) == Some(k)
    ensures a + 1 + k <= |s|
    ensures Absent(s[a..a + 1 + k][1..] + "\n", BlankLine)
  {
    var u := s[a + 1..];
    BeforeFirstOccurrence(u, BlankLine, k);
    var v := s[a..a + 1 + k];
    assert v[1..] + "\n" == u[..k + 1] by {
      assert OccursAt(u, BlankLine, k);
      assert u[k] == u[k..k + 2][0] == '\n';
      assert v[1..] == u[..k];
      assert u[..k + 1] == u[..k] + [u[k]];
    }
  }

  /** The label, the capture and the blank line that ends it are consecutive. */
  lemma {:induction false} CaptureFollowedByBlankLine(marker: string, s: string, p: nat, k: nat)
    requires p <= |s| && StartsWith(s[p..], marker)
    requires OccursAt(s, BlankLine, p + |marker| + 1 + k)
    ensures StartsWith(s[p..], marker + s[p + |marker|..p + |marker| + 1 + k] + BlankLine)
  {
    var a := p + |marker|;
    var v := s[a..a + 1 + k];
    StartsWithOccurs(s, marker, p);
    OccursThree(s, marker, v, BlankLine, p);
    StartsWithOccurs(s, marker + v + BlankLine, p);
  }

  /** Three pieces that occur one right after the other occur together. */
  lemma {:induction false} OccursThree(s: string, x: string, y: string, z: string, p: nat)
    requires OccursAt(s, x, p) && OccursAt(s, y, p + |x|) && OccursAt(s, z, p + |x| + |y|)
    ensures OccursAt(s, x + y + z, p)
  {
    var q := p + |x|;
    var r := q + |y|;
    assert s[p..r + |z|] == s[p..q] + s[q..r] + s[r..r + |z|];
  }

  /** Up to the end of the first occurrence's first character, `d` does not occur. */
  lemma {:induction false} BeforeFirstOccurrence(u: string, d: string, k: nat)
    requires |d| >= 2 && Find(u, d) == Some(k)
    ensures Absent(u[..k + |d| - 1], d)
  {
    var n := k + |d| - 1;
    var w := u[..n];
    forall j | OccursAt(w, d, j) ensures false {
      OccursAtPrefix(u, d, n, j);
    }
  }

  function Rest24hAt(s: string, p: nat): Option<string> { RestListAt(Rest24hLabel, s, p) }
  function Rest7dAt(s: string, p: nat): Option<string> { RestListAt(Rest7dLabel, s, p) }

  // ---------------------------------------------------------------------
  // Rest-hour tokens
  // ---------------------------------------------------------------------

  const NotApplicable := "N/A"

  /**
   * Converts the tokens of a rest-hour list: the sentinel stays a sentinel,
   * every other token goes through the number parser `num`. The first token
   * it rejects is the error.
   */
  function ToRestValues(toks: seq<string>, num: string -> Option<real>): (r: Result<seq<RestValue>, string>)
    ensures r.Ok? <==> forall k :: 0 <= k < |toks| ==> toks[k] == NotApplicable || num(toks[k]).Some?
    ensures r.Ok? ==> |r.value| == |toks|
    ensures r.Ok? ==> forall k :: 0 <= k < |toks| ==> (r.value[k].NA? <==> toks[k] == NotApplicable)
    ensures r.Ok? ==> forall k :: 0 <= k < |toks| && toks[k] != NotApplicable ==> r.value[k] == Num(num(toks[k]).value)
    ensures r.Err? ==> exists k :: 0 <= k < |toks| && toks[k] == r.error && r.error != NotApplicable && num(r.error).None?
  {
    if |toks| == 0 then Ok([])
    else
      var t := toks[0];
      if t != NotApplicable && num(t).None? then Err(t)
      else
        var v := if t == NotApplicable then NA else Num(num(t).value);
        match ToRestValues(toks[1..], num)
        case Err(e) => Err(e)
        case Ok(vs) =>
          assert forall k :: 0 < k < |toks| ==> toks[k] == toks[1..][k - 1];
          Ok([v] + vs)
  }

  // ---------------------------------------------------------------------
  // One segment
  // ---------------------------------------------------------------------

  /** The lines of a rest-hour list: `group(1).split('\n')`. */
  function Tokens(list: string): seq<string>
  {
    Split(list, "\n")
  }

  /** What each of the nine searches of a segment finds, in the order the extractor reads them. */
  datatype Found = Found(
    vessel: Option<string>, seafarer: Option<string>, position: Option<string>,
    period: Option<string>, startDay: Option<int>, endDay: Option<int>, page: Option<string>,
    rest24: Option<string>, rest7: Option<string>)
  {
    /** Every search found something. */
    predicate Complete()
    {
      && vessel.Some? && seafarer.Some? && position.Some? && period.Some?
      && startDay.Some? && endDay.Some? && page.Some? && rest24.Some? && rest7.Some?
    }

    /** The first field, in reading order, that was not found. */
    function FirstMissing(): (f: Field)
      requires !Complete()
    {
      if vessel.None? then VesselField
      else if seafarer.None? then SeafarerField
      else if position.None? then PositionField
      else if period.None? then PeriodField
      else if startDay.None? then StartDayField
      else if endDay.None? then EndDayField
      else if page.None? then PageField
      else if rest24.None? then RestIn24hField
      else RestIn7dField
    }
  }

  /** A start day that the search finds is a two-digit number. */
  lemma {:induction false} StartDayInRange(seg: string)
    ensures Search(seg, StartDayAt).Some? ==> 0 <= Search(seg, StartDayAt).value <= 99
  {
    match FirstMatch(seg, StartDayAt, 0)
    case None =>
    case Some(q) => assert Search(seg, StartDayAt) == StartDayAt(seg, q);
  }

  /** An end day that the search finds is a two-digit number. */
  lemma {:induction false} EndDayInRange(seg: string)
    ensures Search(seg, EndDayAt).Some? ==> 0 <= Search(seg, EndDayAt).value <= 99
  {
    match FirstMatch(seg, EndDayAt, 0)
    case None =>
    case Some(q) => assert Search(seg, EndDayAt) == EndDayAt(seg, q);
  }

  /** The nine searches of one segment. Days that are found are two-digit numbers. */
  function Searches(seg: string): (f: Found)
    ensures f.startDay.Some? ==> 0 <= f.startDay.value <= 99
    ensures f.endDay.Some? ==> 0 <= f.endDay.value <= 99
  {
    StartDayInRange(seg);
    EndDayInRange(seg);
    Found(
      Search(seg, VesselAt), Search(seg, SeafarerAt), Search(seg, PositionAt),
      Search(seg, PeriodAt), Search(seg, StartDayAt), Search(seg, EndDayAt), Search(seg, PageAt),
      Search(seg, Rest24hAt), Search(seg, Rest7dAt))
  }

  /** Every field the extractor reads is found in the segment. */
  predicate AllFieldsFound(seg: string)
  {
    Searches(seg).Complete()
  }

  /** Every token of both rest-hour lists is the sentinel or a number. */
  predicate TokensParse(seg: string, num: string -> Option<real>)
    requires AllFieldsFound(seg)
  {
    && ToRestValues(Tokens(Searches(seg).rest24.value), num).Ok?
    && ToRestValues(Tokens(Searches(seg).rest7.value), num).Ok?
  }

  /**
   * Builds a page from what the searches found. A field that was not found
   * is an error naming the first such field; a token that is neither the
   * sentinel nor a number is an error naming that token (24-hour list first).
   */
  function ParseFound(f: Found, page: nat, num: string -> Option<real>): (r: Result<ParsedPage, ExtractError>)
    ensures r.Ok? <==> f.Complete() && ToRestValues(Tokens(f.rest24.value), num).Ok? && ToRestValues(Tokens(f.rest7.value), num).Ok?
    ensures r.Ok? ==> r.value.header.startDay == f.startDay.value && r.value.header.endDay == f.endDay.value
    ensures r.Ok? ==>
      && r.value.header.vessel == f.vessel.value && r.value.header.seafarer == f.seafarer.value
      && r.value.header.position == f.position.value && r.value.header.period == f.period.value
      && r.value.header.page == f.page.value
    ensures r.Ok? ==> r.value.rest24 == ToRestValues(Tokens(f.rest24.value), num).value
    ensures r.Ok? ==> r.value.rest7 == ToRestValues(Tokens(f.rest7.value), num).value
    ensures r.Ok? ==> |r.value.rest24| == |Tokens(f.rest24.value)| && |r.value.rest7| == |Tokens(f.rest7.value)|
    ensures r.Err? ==> r.error.page == page && !r.error.MissingImage?
    ensures r.Err? && r.error.MissingField? <==> !f.Complete()
    ensures r.Err? && r.error.MissingField? ==> r.error.field == f.FirstMissing()
    ensures r.Err? && r.error.BadNumber? ==>
      if ToRestValues(Tokens(f.rest24.value), num).Err?
      then r.error.token == ToRestValues(Tokens(f.rest24.value), num).error
      else r.error.token == ToRestValues(Tokens(f.rest7.value), num).error
  {
    if !f.Complete() then Err(MissingField(page, f.FirstMissing()))
    else
      var header := Header(
        f.vessel.value, f.seafarer.value, f.position.value, f.period.value,
        f.startDay.value, f.endDay.value, f.page.value);
      match ToRestValues(Tokens(f.rest24.value), num)
      case Err(t) => Err(BadNumber(page, t))
      case Ok(rest24) =>
        match ToRestValues(Tokens(f.rest7.value), num)
        case Err(t) => Err(BadNumber(page, t))
        case Ok(rest7) => Ok(ParsedPage(header, rest24, rest7))
  }

  /** Reads the header fields and both rest-hour lists of segment number `page`. */
  function ParsePage(seg: string, page: nat, num: string -> Option<real>): (r: Result<ParsedPage, ExtractError>)
    ensures r.Ok? <==> AllFieldsFound(seg) && TokensParse(seg, num)
    ensures r.Ok? ==> 0 <= r.value.header.startDay <= 99 && 0 <= r.value.header.endDay <= 99
    ensures r.Ok? ==>
      var f := Searches(seg);
      && r.value.header == Header(
           f.vessel.value, f.seafarer.value, f.position.value, f.period.value,
           f.startDay.value, f.endDay.value, f.page.value)
      && r.value.rest24 == ToRestValues(Tokens(f.rest24.value), num).value
      && r.value.rest7 == ToRestValues(Tokens(f.rest7.value), num).value
    ensures r.Err? ==> r.error.page == page && !r.error.MissingImage?
    ensures r.Err? && r.error.MissingField? <==> !AllFieldsFound(seg)
    ensures r.Err? && r.error.MissingField? ==> r.error.field == Searches(seg).FirstMissing()
  {
    ParseFound(Searches(seg), page, num)
  }

  /** A parsed page has one rest value per line of each rest-hour list. */
  lemma {:induction false} ParsedListsFollowLines(seg: string, page: nat, num: string -> Option<real>)
    requires ParsePage(seg, page, num).Ok?
    ensures AllFieldsFound(seg)
    ensures |ParsePage(seg, page, num).value.rest24| == |Tokens(Search(seg, Rest24hAt).value)|
    ensures |ParsePage(seg, page, num).value.rest7| == |Tokens(Search(seg, Rest7dAt).value)|
    ensures ParsePage(seg, page, num).value.rest24 == ToRestValues(Tokens(Search(seg, Rest24hAt).value), num).value
    ensures ParsePage(seg, page, num).value.rest7 == ToRestValues(Tokens(Search(seg, Rest7dAt).value), num).value
  {
  }

  /** The header of a parsed page is what the seven header searches of its segment found. */
  lemma {:induction false} ParsedHeaderFollowsSearches(seg: string, page: nat, num: string -> Option<real>)
    requires ParsePage(seg, page, num).Ok?
    ensures var h := ParsePage(seg, page, num).value.header;
      && Search(seg, VesselAt) == Some(h.vessel) && Search(seg, SeafarerAt) == Some(h.seafarer)
      && Search(seg, PositionAt) == Some(h.position) && Search(seg, PeriodAt) == Some(h.period)
      && Search(seg, StartDayAt) == Some(h.startDay) && Search(seg, EndDayAt) == Some(h.endDay)
      && Search(seg, PageAt) == Some(h.page)
  {
  }
}
