/**
 * The document-level extraction: the text is cut into one segment per
 * record, each segment is parsed, and each record's chart is decoded from
 * the page image with the same index, asking for as many rows as the
 * header's day range covers. Hours worked are then derived from every chart.
 */
module Extract {
  import opened Outcomes
  import opened Text
  import opened Chart
  import opened Hours
  import opened Rest
  import opened Record

  /** The heading that starts every record in the document text. */
  const Delimiter := "RECORD OF HOURS OF REST"

  /** Two occurrences of the heading can never overlap. */
  lemma {:induction false} DelimiterNoSelfOverlap()
    ensures NoSelfOverlap(Delimiter)
  {
    var head := "RECORD OF HOURS OF RES";
    assert Delimiter == head + "T";
    assert 'T' !in head;
    forall k | 0 < k < |Delimiter| ensures !Border(Delimiter, k) {
      var n := |Delimiter| - 1 - k;
      assert Delimiter[k..][n] == 'T';
      assert Delimiter[..|Delimiter| - k][n] == head[n];
    }
  }

  /**
   * The record segments: the text after each occurrence of the heading, up
   * to the next one. There is one per occurrence, and none contains the
   * heading.
   */
  function Segments(text: string): (segs: seq<string>)
    ensures |segs| == Occurrences(text, Delimiter)
    ensures forall k :: 0 <= k < |segs| ==> Absent(segs[k], Delimiter)
  {
    var parts := Split(text, Delimiter);
    DelimiterNoSelfOverlap();
    SplitCount(text, Delimiter);
    SplitPiecesAbsent(text, Delimiter);
    parts[1..]
  }

  /** Joining the heading and the segments back onto the text before the first heading restores the text. */
  lemma {:induction false} SegmentsRoundTrip(text: string)
    ensures Join([Split(text, Delimiter)[0]] + Segments(text), Delimiter) == text
  {
    var parts := Split(text, Delimiter);
    assert [parts[0]] + parts[1..] == parts;
    JoinSplit(text, Delimiter);
  }

  /** A parsed record together with its decoded chart. */
  datatype PageRecord = PageRecord(header: Header, rest24: seq<RestValue>, rest7: seq<RestValue>, gantt: Grid)

  /** Number of chart rows a header asks for: `EndDay - StartDay + 1`. */
  function DaysCovered(h: Header): int
  {
    h.endDay - h.startDay + 1
  }

  /** Parses segment `i` and decodes page image `i` for it. */
  function ExtractPage(seg: string, i: nat, images: seq<Image>, num: string -> Option<real>): (r: Result<PageRecord, ExtractError>)
    ensures r.Ok? <==> ParsePage(seg, i, num).Ok? && i < |images|
    ensures r.Err? ==> r.error.page == i
  {
    var parsed :- ParsePage(seg, i, num);
    if i < |images| then
      Ok(PageRecord(parsed.header, parsed.rest24, parsed.rest7, Decode(images[i], DaysCovered(parsed.header))))
    else
      Err(MissingImage(i))
  }

  /**
   * A page that extracts has the header its segment states, days in 0..99,
   * and a chart decoded from its own image with one row per day of its range;
   * a page whose segment parses fails only for want of an image.
   */
  lemma {:induction false} ExtractPageFacts(seg: string, i: nat, images: seq<Image>, num: string -> Option<real>)
    ensures var r := ExtractPage(seg, i, images, num);
      && (r.Ok? ==> r.value.header == ParsePage(seg, i, num).value.header)
      && (r.Ok? ==> r.value.rest24 == ParsePage(seg, i, num).value.rest24 && r.value.rest7 == ParsePage(seg, i, num).value.rest7)
      && (r.Ok? ==> 0 <= r.value.header.startDay <= 99 && 0 <= r.value.header.endDay <= 99)
      && (r.Ok? ==> r.value.gantt == Decode(images[i], DaysCovered(r.value.header)))
      && (r.Ok? ==> |r.value.gantt| == RowCount(DaysCovered(r.value.header)) && WellFormed(r.value.gantt))
      && (r.Err? && ParsePage(seg, i, num).Ok? ==> r.error == MissingImage(i))
  {
  }

  /** Everything read from one document. */
  datatype Extraction = Extraction(
    gantts: seq<Grid>, headers: seq<Header>, anyHours: AnyHours, hoursWorked: seq<seq<real>>)

  /** What extracting each segment of the text yields, in order. */
  function PageOutcomes(text: string, images: seq<Image>, num: string -> Option<real>): (rs: seq<Result<PageRecord, ExtractError>>)
    ensures |rs| == Occurrences(text, Delimiter)
    ensures forall k :: 0 <= k < |rs| ==> rs[k] == ExtractPage(Segments(text)[k], k, images, num)
  {
    var segs := Segments(text);
    seq(|segs|, k requires 0 <= k < |segs| => ExtractPage(segs[k], k, images, num))
  }

  /**
   * Reads a document given its text and its page images. `num` parses a
   * rest-hour token as a number, or rejects it. The read succeeds only if
   * every segment does; otherwise it fails with the first segment's error.
   */
  function ReadPdf(text: string, images: seq<Image>, num: string -> Option<real>): (r: Result<Extraction, ExtractError>)
    ensures r.Ok? <==> forall k :: 0 <= k < |Segments(text)| ==> ExtractPage(Segments(text)[k], k, images, num).Ok?
    ensures r.Ok? ==>
      var n := Occurrences(text, Delimiter);
      && |r.value.gantts| == n && |r.value.headers| == n && |r.value.hoursWorked| == n
      && |r.value.anyHours.in24h| == n && |r.value.anyHours.in7d| == n
    ensures r.Err? ==> r.error.page < Occurrences(text, Delimiter)
    ensures r.Err? ==>
      var k := r.error.page;
      && ExtractPage(Segments(text)[k], k, images, num) == Err(r.error)
      && forall j :: 0 <= j < k ==> ExtractPage(Segments(text)[j], j, images, num).Ok?
  {
    var outcomes := PageOutcomes(text, images, num);
    FailureNamesAPage(text, images, num);
    match Collect(outcomes)
    case Err(e) => Err(e)
    case Ok(pages) => Ok(Assemble(pages))
  }

  /** The lists of a read, one entry per extracted page in page order; hours worked come from each chart. */
  function Assemble(pages: seq<PageRecord>): (x: Extraction)
    ensures |x.gantts| == |pages| && |x.headers| == |pages| && |x.hoursWorked| == |pages|
    ensures |x.anyHours.in24h| == |pages| && |x.anyHours.in7d| == |pages|
    ensures forall i :: 0 <= i < |pages| ==> x.gantts[i] == pages[i].gantt && x.headers[i] == pages[i].header
    ensures forall i :: 0 <= i < |pages| ==> x.hoursWorked[i] == HoursWorked(pages[i].gantt)
    ensures forall i :: 0 <= i < |pages| ==> x.anyHours.in24h[i] == pages[i].rest24 && x.anyHours.in7d[i] == pages[i].rest7
  {
    Extraction(
      seq(|pages|, i requires 0 <= i < |pages| => pages[i].gantt),
      seq(|pages|, i requires 0 <= i < |pages| => pages[i].header),
      AnyHours(
        seq(|pages|, i requires 0 <= i < |pages| => pages[i].rest24),
        seq(|pages|, i requires 0 <= i < |pages| => pages[i].rest7)),
      seq(|pages|, i requires 0 <= i < |pages| => HoursWorked(pages[i].gantt)))
  }

  /** When every failing outcome names its own index, a failed collection names the first failure. */
  lemma {:induction false} CollectNamesFirstFailure(outcomes: seq<Result<PageRecord, ExtractError>>)
    requires forall k :: 0 <= k < |outcomes| && outcomes[k].Err? ==> outcomes[k].error.page == k
    ensures var c := Collect(outcomes);
      c.Err? ==>
        var k := c.error.page;
        && k < |outcomes| && outcomes[k] == Err(c.error)
        && forall j :: 0 <= j < k ==> outcomes[j].Ok?
  {
    var c := Collect(outcomes);
    if c.Err? {
      var k :| 0 <= k < |outcomes| && outcomes[k] == Err(c.error) && forall j :: 0 <= j < k ==> outcomes[j].Ok?;
      assert c.error.page == k;
    }
  }

  /** The error that stops a read is the error of the first segment that fails, and names that segment. */
  lemma {:induction false} FailureNamesAPage(text: string, images: seq<Image>, num: string -> Option<real>)
    ensures var c := Collect(PageOutcomes(text, images, num));
      c.Err? ==>
        var k := c.error.page;
        && k < Occurrences(text, Delimiter)
        && ExtractPage(Segments(text)[k], k, images, num) == Err(c.error)
        && forall j :: 0 <= j < k ==> ExtractPage(Segments(text)[j], j, images, num).Ok?
  {
    var outcomes := PageOutcomes(text, images, num);
    var segs := Segments(text);
    assert forall k :: 0 <= k < |outcomes| ==> outcomes[k] == ExtractPage(segs[k], k, images, num);
    CollectNamesFirstFailure(outcomes);
  }

  /**
   * In a successful read, page i's days are two-digit numbers, its chart is
   * decoded from image i with EndDay - StartDay + 1 rows (none when that is
   * not positive), every row has 48 cells of 0 or 1, and its hours worked
   * are derived from that chart.
   */
  lemma {:induction false} ReadPdfPages(text: string, images: seq<Image>, num: string -> Option<real>, i: nat)
    requires ReadPdf(text, images, num).Ok?
    requires i < |ReadPdf(text, images, num).value.headers|
    ensures var x := ReadPdf(text, images, num).value;
      && i < |images|
      && 0 <= x.headers[i].startDay <= 99 && 0 <= x.headers[i].endDay <= 99
      && x.gantts[i] == Decode(images[i], DaysCovered(x.headers[i]))
      && |x.gantts[i]| == RowCount(DaysCovered(x.headers[i]))
      && WellFormed(x.gantts[i])
      && x.hoursWorked[i] == HoursWorked(x.gantts[i])
      && ParsePage(Segments(text)[i], i, num).Ok?
      && x.headers[i] == ParsePage(Segments(text)[i], i, num).value.header
      && x.anyHours.in24h[i] == ParsePage(Segments(text)[i], i, num).value.rest24
      && x.anyHours.in7d[i] == ParsePage(Segments(text)[i], i, num).value.rest7
  {
    var outcomes := PageOutcomes(text, images, num);
    var pages := Collect(outcomes).value;
    assert outcomes[i] == Ok(pages[i]);
    ExtractPageFacts(Segments(text)[i], i, images, num);
    assert ReadPdf(text, images, num).value == Assemble(pages);
  }

  /** A required field missing from any segment makes the whole read fail, at that segment or an earlier one. */
  lemma {:induction false} MissingFieldAborts(text: string, images: seq<Image>, num: string -> Option<real>, k: nat)
    requires k < |Segments(text)| && !AllFieldsFound(Segments(text)[k])
    ensures ReadPdf(text, images, num).Err?
    ensures ReadPdf(text, images, num).error.page <= k
  {
    var outcomes := PageOutcomes(text, images, num);
    assert outcomes[k].Err?;
    var f := FirstFailure(outcomes);
    assert f.Some? && f.value <= k;
    assert Collect(outcomes) == Err(outcomes[f.value].error);
    assert outcomes[f.value].error.page == f.value;
  }

  /**
   * The lists of an extraction run in parallel, one entry per page, and each
   * page's chart has one row per day its header covers (none when that is not
   * positive), rows of 48 cells of 0 or 1, and hours worked derived from it.
   */
  ghost predicate Coherent(x: Extraction)
  {
    && |x.gantts| == |x.headers| && |x.hoursWorked| == |x.headers|
    && |x.anyHours.in24h| == |x.headers| && |x.anyHours.in7d| == |x.headers|
    && forall i :: 0 <= i < |x.headers| ==>
         && |x.gantts[i]| == RowCount(DaysCovered(x.headers[i]))
         && WellFormed(x.gantts[i])
         && x.hoursWorked[i] == HoursWorked(x.gantts[i])
  }

  /** Every successful read is coherent. */
  lemma {:induction false} ReadPdfCoherent(text: string, images: seq<Image>, num: string -> Option<real>)
    requires ReadPdf(text, images, num).Ok?
    ensures Coherent(ReadPdf(text, images, num).value)
  {
    var x := ReadPdf(text, images, num).value;
    forall i | 0 <= i < |x.headers|
      ensures |x.gantts[i]| == RowCount(DaysCovered(x.headers[i])) && WellFormed(x.gantts[i])
      ensures x.hoursWorked[i] == HoursWorked(x.gantts[i])
    {
      ReadPdfPages(text, images, num, i);
    }
  }

  /** Every hours-worked value of a successful read lies between 0 and 24. */
  lemma {:induction false} HoursWorkedInRange(text: string, images: seq<Image>, num: string -> Option<real>)
    requires ReadPdf(text, images, num).Ok?
    ensures var x := ReadPdf(text, images, num).value;
      forall i, d :: 0 <= i < |x.hoursWorked| && 0 <= d < |x.hoursWorked[i]| ==> 0.0 <= x.hoursWorked[i][d] <= 24.0
  {
    var x := ReadPdf(text, images, num).value;
    forall i, d | 0 <= i < |x.hoursWorked| && 0 <= d < |x.hoursWorked[i]|
      ensures 0.0 <= x.hoursWorked[i][d] <= 24.0
    {
      ReadPdfPages(text, images, num, i);
      HoursWorkedOfDecoded(images[i], DaysCovered(x.headers[i]), d);
    }
  }
}
