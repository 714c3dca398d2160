/**
 * first20_pre1900_pg19.py: `strip_headers`, which cuts the Project Gutenberg
 * START and END markers out of a book, and the loop of `main`, which streams
 * the PG-19 rows and writes the first 20 with a parseable year before 1900.
 */
module First20 {
  import opened Py
  import opened PyStr
  import opened Regex

  /** The `\*\*\*` that closes a marker. */
  const Stars: string := "***"

  /** The literal part of `START_PATTERN`. */
  const StartMarker: string := "*** START" + " OF THIS" + " PROJECT" + " GUTENBERG" + " EBOOK"

  /** The literal part of `END_PATTERN`. */
  const EndMarker: string := "*** END" + " OF THIS" + " PROJECT" + " GUTENBERG" + " EBOOK"

  // ---------------------------------------------------------------------
  // START_PATTERN and END_PATTERN
  // ---------------------------------------------------------------------

  /** `marker.*?\*\*\*` (DOTALL) can match at `p`: the marker occurs there,
      case-sensitively, and `***` occurs somewhere after it. */
  predicate Closes(text: string, p: nat, marker: string) {
    OccursAt(text, p, marker, false) && exists q: nat :: p + |marker| <= q < |text| && OccursAt(text, q, Stars, false)
  }

  /** `re.compile(re.escape(marker) + r".*?\*\*\*", re.DOTALL).search(text, from)`:
      the leftmost position where the marker is closed, and the lazy `.*?`
      stops at the first `***` after the marker, whatever lies between. */
  function MarkerSearch(text: string, marker: string, from: nat): (r: Option<Match>)
    ensures r.Some? ==> from <= r.value.start && Closes(text, r.value.start, marker)
    ensures r.Some? ==> r.value.start + |marker| + |Stars| <= r.value.end <= |text|
                        && OccursAt(text, r.value.end - |Stars|, Stars, false)
                        && forall q :: r.value.start + |marker| <= q < r.value.end - |Stars| ==> !OccursAt(text, q, Stars, false)
    ensures r.Some? ==> forall p :: from <= p < r.value.start ==> !Closes(text, p, marker)
    ensures r.None? ==> forall p :: from <= p ==> !Closes(text, p, marker)
    decreases |text| + 1 - from
  {
    match Find(text, marker, from, false)
    case None => None
    case Some(p) =>
      OccursAtBound(text, p, marker, false);
      match Find(text, Stars, p + |marker|, false)
      case Some(q) =>
        OccursAtBound(text, q, Stars, false);
        assert forall p' :: from <= p' < p ==> !OccursAt(text, p', marker, false);
        assert Closes(text, p, marker);
        Some(Match(p, q + |Stars|))
      case None =>
        assert !Closes(text, p, marker);
        var r := MarkerSearch(text, marker, p + 1);
        assert forall p' :: from <= p' < p ==> !Closes(text, p', marker);
        r
  }

  /** `Find` reports the leftmost occurrence it is shown. */
  lemma FindIs(s: string, lit: string, from: nat, i: nat)
    requires from <= i && OccursAt(s, i, lit, false)
    requires forall j :: from <= j < i ==> !OccursAt(s, j, lit, false)
    ensures Find(s, lit, from, false) == Some(i)
  {
  }

  /** The search reports the leftmost marker occurrence, closed by the first
      `***` after it: a later occurrence could only be closed by a `***` that
      also closes the earlier one. */
  lemma MarkerSearchAt(text: string, marker: string, from: nat, p: nat, q: nat)
    requires from <= p && OccursAt(text, p, marker, false)
    requires forall j :: from <= j < p ==> !OccursAt(text, j, marker, false)
    requires p + |marker| <= q && OccursAt(text, q, Stars, false)
    requires forall j :: p + |marker| <= j < q ==> !OccursAt(text, j, Stars, false)
    ensures MarkerSearch(text, marker, from) == Some(Match(p, q + |Stars|))
  {
    FindIs(text, marker, from, p);
    FindIs(text, Stars, p + |marker|, q);
  }

  /** Without an occurrence of the marker, the search finds nothing. */
  lemma MarkerSearchAbsent(text: string, marker: string, from: nat)
    requires forall j :: from <= j ==> !OccursAt(text, j, marker, false)
    ensures MarkerSearch(text, marker, from) == None
  {
  }

  // ---------------------------------------------------------------------
  // strip_headers
  // ---------------------------------------------------------------------

  /** The text after the first closed START marker, or all of it. */
  function AfterStart(text: string): (r: string)
    ensures |r| <= |text| && r == text[|text| - |r|..]
  {
    match MarkerSearch(text, StartMarker, 0)
    case Some(m) => text[m.end..]
    case None => text
  }

  /** The text before the first closed END marker, or all of it. */
  function BeforeEnd(text: string): (r: string)
    ensures |r| <= |text| && r == text[..|r|]
  {
    match MarkerSearch(text, EndMarker, 0)
    case Some(m) => text[..m.start]
    case None => text
  }

  /** `strip_headers(text)`: the START cut, then the END cut on what is left,
      then `strip()`. */
  function StripHeaders(text: string): string {
    Strip(BeforeEnd(AfterStart(text)))
  }

  /** Without either marker, the result is the text stripped. */
  lemma StripHeadersWithoutMarkers(text: string)
    requires forall j :: !OccursAt(text, j, StartMarker, false)
    requires forall j :: !OccursAt(text, j, EndMarker, false)
    ensures StripHeaders(text) == Strip(text)
  {
    MarkerSearchAbsent(text, StartMarker, 0);
    MarkerSearchAbsent(text, EndMarker, 0);
  }

  /** At the leftmost START marker, everything up to and including the first
      `***` after it is removed. */
  lemma StartCut(text: string, p: nat, q: nat)
    requires OccursAt(text, p, StartMarker, false) && forall j :: 0 <= j < p ==> !OccursAt(text, j, StartMarker, false)
    requires p + |StartMarker| <= q && OccursAt(text, q, Stars, false)
    requires forall j :: p + |StartMarker| <= j < q ==> !OccursAt(text, j, Stars, false)
    ensures q + |Stars| <= |text| && AfterStart(text) == text[q + |Stars|..]
  {
    MarkerSearchAt(text, StartMarker, 0, p, q);
  }

  /** A START marker that no `***` follows is left in place. */
  lemma StartUnclosed(text: string)
    requires forall j :: 0 <= j ==> !Closes(text, j, StartMarker)
    ensures AfterStart(text) == text
  {
  }

  /** In what the START cut left, everything from the leftmost closed END
      marker's start on is removed. */
  lemma EndCut(rest: string, e: nat, q: nat)
    requires OccursAt(rest, e, EndMarker, false) && forall j :: 0 <= j < e ==> !OccursAt(rest, j, EndMarker, false)
    requires e + |EndMarker| <= q && OccursAt(rest, q, Stars, false)
    ensures e <= |rest| && BeforeEnd(rest) == rest[..e]
  {
    var r := MarkerSearch(rest, EndMarker, 0);
    assert Closes(rest, e, EndMarker);
    assert r.Some? && r.value.start == e;
  }

  /** An END marker that no `***` follows is left in place. */
  lemma EndUnclosed(rest: string)
    requires forall j :: 0 <= j ==> !Closes(rest, j, EndMarker)
    ensures BeforeEnd(rest) == rest
  {
  }

  /** The result is a contiguous piece of the input with no whitespace at
      either end. */
  lemma StripHeadersIsSlice(text: string) returns (lo: nat, hi: nat)
    ensures lo <= hi <= |text| && StripHeaders(text) == text[lo..hi]
    ensures var r := StripHeaders(text); r != [] ==> !IsSpace(r[0]) && !IsSpace(r[|r| - 1])
  {
    var after := AfterStart(text);
    var body := BeforeEnd(after);
    var a := |text| - |after|;
    assert body == text[a..a + |body|];
    lo, hi := StripOfSlice(text, a, body);
  }

  /** Stripping a slice of `text` leaves a slice of `text`. */
  lemma StripOfSlice(text: string, a: nat, body: string) returns (lo: nat, hi: nat)
    requires a + |body| <= |text| && body == text[a..a + |body|]
    ensures lo <= hi <= |text| && Strip(body) == text[lo..hi]
  {
    var b, c := StripIsTrim(body);
    lo, hi := a + b, a + c;
    SliceOfSlice(text, a, a + |body|, b, c);
  }

  lemma SliceOfSlice(text: string, a: nat, e: nat, b: nat, c: nat)
    requires a <= e <= |text| && b <= c <= e - a
    ensures text[a..e][b..c] == text[a + b..a + c]
  {
    assert forall k :: 0 <= k < c - b ==> text[a..e][b..c][k] == text[a + b..a + c][k];
  }

  // ---------------------------------------------------------------------
  // An example
  // ---------------------------------------------------------------------

  /** A START marker with a title and its closing `***` on one line, then the
      book: only the book is left. */
  lemma StartMarkerExample(text: string)
    requires text == StartMarker + " FOO " + Stars + "\nReal" + " content" + " here."
    ensures StripHeaders(text) == "Real content here."
  {
    var tail := "\nReal" + " content" + " here.";
    assert text == StartMarker + " FOO " + Stars + tail;
    ExampleStartCut(text, tail);
    ExampleTail(tail);
  }

  lemma ExampleStartCut(text: string, tail: string)
    requires tail == "\nReal" + " content" + " here."
    requires text == StartMarker + " FOO " + Stars + tail
    ensures AfterStart(text) == tail
  {
    assert |StartMarker| == 41;
    assert text[..41] == StartMarker;
    OccursAtIsSlice(text, 0, StartMarker);
    assert text[46..49] == Stars;
    OccursAtIsSlice(text, 46, Stars);
    assert text[41..46] == " FOO ";
    forall j | 41 <= j < 46
      ensures !OccursAt(text, j, Stars, false)
    {
      StarsAt(text, j);
      assert text[j] == text[41..46][j - 41];
    }
    StartCut(text, 0, 46);
    assert text[49..] == tail;
  }

  lemma StarsAt(s: string, j: nat)
    ensures OccursAt(s, j, Stars, false) ==> j < |s| && s[j] == '*'
  {
    OccursAtAll(s, j, Stars, false);
  }

  lemma ExampleTail(tail: string)
    requires tail == "\nReal" + " content" + " here."
    ensures Strip(BeforeEnd(tail)) == "Real content here."
  {
    assert |EndMarker| == 39 && |tail| == 19;
    EndTooShort(tail);
    ExampleStrip(tail);
  }

  /** A text shorter than the END marker cannot hold one. */
  lemma EndTooShort(text: string)
    requires |text| < |EndMarker|
    ensures BeforeEnd(text) == text
  {
    forall j ensures !OccursAt(text, j, EndMarker, false) {
      OccursAtAll(text, j, EndMarker, false);
    }
    MarkerSearchAbsent(text, EndMarker, 0);
  }

  lemma ExampleStrip(tail: string)
    requires tail == "\nReal" + " content" + " here."
    ensures Strip(tail) == "Real content here."
  {
    var head, rest := "\nReal", " content" + " here.";
    assert tail == head + rest && |head| == 5;
    assert tail[0] == head[0] == '\n';
    assert tail[1] == head[1] == 'R';
    assert tail[|tail| - 1] == rest[|rest| - 1] == '.';
    StripOneLeading(tail);
    assert tail[1..] == head[1..] + rest;
    assert head[1..] == "Real";
  }

  /** One leading whitespace character and none at the end: only it goes. */
  lemma StripOneLeading(s: string)
    requires |s| >= 2 && IsSpace(s[0]) && !IsSpace(s[1]) && !IsSpace(s[|s| - 1])
    ensures Strip(s) == s[1..]
  {
    var body := s[1..];
    assert StripLeft(s) == StripLeft(body) == body;
    assert body[|body| - 1] == s[|s| - 1];
  }

  /** Marker matching is case-sensitive: a START marker in lower case, even
      closed by `***`, is not cut. */
  lemma LowerCaseStartKept(text: string)
    requires text == "*** start" + " of this" + " project" + " gutenberg" + " ebook" + " ***"
    ensures AfterStart(text) == text
  {
    assert |text| == 45 && |StartMarker| == 41;
    assert text[3] == ' ' && text[4] == 's' && text[5] == 't';
    assert StartMarker[0] == '*' && StartMarker[1] == '*' && StartMarker[2] == '*' && StartMarker[4] == 'S';
    forall j ensures !OccursAt(text, j, StartMarker, false) {
      if j == 0 {
        MismatchAt(text, j, StartMarker, 4, false);
      } else if j == 1 {
        MismatchAt(text, j, StartMarker, 2, false);
      } else if j == 2 {
        MismatchAt(text, j, StartMarker, 1, false);
      } else if j <= 4 {
        MismatchAt(text, j, StartMarker, 0, false);
      } else {
        OccursAtAll(text, j, StartMarker, false);
      }
    }
    MarkerSearchAbsent(text, StartMarker, 0);
  }

  /** `strip_headers` is not idempotent: a second closed START marker behind
      the first survives one pass and is cut by the next. */
  lemma StripHeadersNotIdempotent(text: string)
    requires text == StartMarker + " ***" + StartMarker + " ***x"
    ensures StripHeaders(text) == StartMarker + " ***x"
    ensures StripHeaders(StripHeaders(text)) == "x"
  {
    var once := StartMarker + " ***x";
    FirstPass(text, once);
    SecondPass(once);
  }

  lemma FirstPass(text: string, once: string)
    requires once == StartMarker + " ***x" && text == StartMarker + " ***" + once
    ensures StripHeaders(text) == once
  {
    LeadingMarkerCut(text, once);
    EndAbsentInOnce(once);
    StripNoEdges(once);
  }

  lemma SecondPass(once: string)
    requires once == StartMarker + " ***x"
    ensures StripHeaders(once) == "x"
  {
    LeadingMarkerCut(once, "x");
    EndTooShort("x");
    StripNoEdges("x");
  }

  /** A START marker at the very start, closed by ` ***`, and the rest. */
  lemma LeadingMarkerCut(text: string, rest: string)
    requires text == StartMarker + " ***" + rest
    ensures AfterStart(text) == rest
  {
    assert |StartMarker| == 41;
    assert text[..41] == StartMarker;
    OccursAtIsSlice(text, 0, StartMarker);
    assert text[42..45] == Stars;
    OccursAtIsSlice(text, 42, Stars);
    assert text[41] == ' ';
    StarsAt(text, 41);
    StartCut(text, 0, 42);
    assert text[45..] == rest;
  }

  lemma EndAbsentInOnce(once: string)
    requires once == StartMarker + " ***x"
    ensures BeforeEnd(once) == once
  {
    assert |once| == 46 && |EndMarker| == 39;
    assert once[3] == ' ' && once[4] == 'S' && once[5] == 'T' && once[6] == 'A' && once[7] == 'R';
    assert EndMarker[0] == '*' && EndMarker[1] == '*' && EndMarker[2] == '*' && EndMarker[4] == 'E';
    forall j ensures !OccursAt(once, j, EndMarker, false) {
      if j == 0 {
        MismatchAt(once, j, EndMarker, 4, false);
      } else if j == 1 {
        MismatchAt(once, j, EndMarker, 2, false);
      } else if j == 2 {
        MismatchAt(once, j, EndMarker, 1, false);
      } else if j <= 7 {
        MismatchAt(once, j, EndMarker, 0, false);
      } else {
        OccursAtAll(once, j, EndMarker, false);
      }
    }
    MarkerSearchAbsent(once, EndMarker, 0);
  }

  /** Without whitespace at either end, stripping changes nothing. */
  lemma StripNoEdges(s: string)
    requires s != [] && !IsSpace(s[0]) && !IsSpace(s[|s| - 1])
    ensures Strip(s) == s
  {
    assert StripLeft(s) == s;
  }

  // ---------------------------------------------------------------------
  // The selection loop of main
  // ---------------------------------------------------------------------

  const DateColumn := "publication_date"
  const TextColumn := "text"
  const UrlColumn := "url"
  const TitleColumn := "short_book_title"
  const YearLimit: int := 1900

  /** The loop stops once this many records are written. */
  const MaxRecords: nat := 20

  /** `int(pub_date)`: an int is itself and a str is parsed, with None for the
      ValueError the loop catches; `int(None)` raises TypeError, which it
      does not catch. */
  function IntOf(v: Value): Result<Option<int>> {
    match v
    case VInt(i) => Ok(Some(i))
    case VStr(s) => Ok(ParseInt(s))
    case VNone => Err(TypeError)
  }

  /** The record written for a row. */
  function OutputRecord(ex: Record, pubDate: Value, text: string): Record {
    map["id" := Get(ex, UrlColumn, VStr("")), "title" := Get(ex, TitleColumn, VStr("")),
        "publication_date" := pubDate, "text" := VStr(text)]
  }

  /** What one pass of the loop body does with a row. */
  datatype Step = Skip | Write(rec: Record) | Crash(error: Error)

  function RowStep(ex: Record): Step {
    var pubDate := Get(ex, DateColumn, VStr(""));
    match IntOf(pubDate)
    case Err(e) => Crash(e)
    case Ok(None) => Skip
    case Ok(Some(year)) =>
      if year >= YearLimit then Skip else WriteStep(ex)
  }

  /** The rest of the body once the year has passed: strip the text, which
      must be a str, and build the record. */
  function WriteStep(ex: Record): Step {
    match Get(ex, TextColumn, VStr(""))
    case VStr(raw) => Write(OutputRecord(ex, Get(ex, DateColumn, VStr("")), StripHeaders(raw)))
    case _ => Crash(TypeError)
  }

  /** A row is written exactly when its year parses to one before 1900 and its
      text is a str. */
  lemma RowStepWrites(ex: Record)
    ensures RowStep(ex).Write? <==> YearBefore1900(ex) && Get(ex, TextColumn, VStr("")).VStr?
  {
  }

  /** The record written for a row has the four output fields: the row's url
      and short title (empty strings when absent), its own date value and its
      text with the markers stripped. */
  lemma RowStepRecord(ex: Record)
    ensures RowStep(ex).Write? ==>
              var rec := RowStep(ex).rec;
              && rec.Keys == {"id", "title", "publication_date", "text"}
              && rec["id"] == Get(ex, UrlColumn, VStr(""))
              && rec["title"] == Get(ex, TitleColumn, VStr(""))
              && rec["publication_date"] == Get(ex, DateColumn, VStr(""))
              && rec["text"] == VStr(StripHeaders(Get(ex, TextColumn, VStr("")).s))
  {
    if RowStep(ex).Write? {
      assert RowStep(ex) == WriteStep(ex);
      var pubDate := Get(ex, DateColumn, VStr(""));
      var stripped := StripHeaders(Get(ex, TextColumn, VStr("")).s);
      assert WriteStep(ex) == Write(OutputRecord(ex, pubDate, stripped));
      OutputRecordFields(ex, pubDate, stripped);
    }
  }

  lemma OutputRecordFields(ex: Record, pubDate: Value, text: string)
    ensures var rec := OutputRecord(ex, pubDate, text);
            && rec.Keys == {"id", "title", "publication_date", "text"}
            && rec["id"] == Get(ex, UrlColumn, VStr("")) && rec["title"] == Get(ex, TitleColumn, VStr(""))
            && rec["publication_date"] == pubDate && rec["text"] == VStr(text)
  {
  }

  /** A row is skipped exactly when its year does not parse or is 1900 or later. */
  lemma RowStepSkips(ex: Record)
    ensures RowStep(ex) == Skip <==>
              var year := IntOf(Get(ex, DateColumn, VStr("")));
              year.Ok? && (year.value.None? || year.value.value >= YearLimit)
  {
  }

  /** The records the stream yields and the error that ended it, if any. */
  datatype Run = Run(written: seq<Record>, crash: Option<Error>)

  /** The loop over `rows` with `count` records already written, `step`
      being what the body does with one row. */
  function Stream(rows: seq<Record>, count: nat, step: Record -> Step): Run
    decreases |rows|
  {
    if rows == [] then Run([], None)
    else
      match step(rows[0])
      case Skip => Stream(rows[1..], count, step)
      case Crash(e) => Run([], Some(e))
      case Write(rec) =>
        if count + 1 >= MaxRecords then Run([rec], None)
        else
          var rest := Stream(rows[1..], count + 1, step);
          Run([rec] + rest.written, rest.crash)
  }

  /** Records already written, before those of the rest of the run. */
  function After(written: seq<Record>, run: Run): Run {
    Run(written + run.written, run.crash)
  }

  /** `main`'s loop: for each row, work out what to do with it, skip it on a
      bad or late year, otherwise write its record, and stop after the 20th.
      An uncaught error ends the run with the records written so far. */
  method SelectFirst20(rows: seq<Record>) returns (written: seq<Record>, crash: Option<Error>, count: nat)
    ensures Run(written, crash) == Stream(rows, 0, RowStep)
    ensures count == |written|
  {
    written, crash, count := [], None, 0;
    var i := 0;
    assert rows[i..] == rows;
    while i < |rows|
      invariant 0 <= i <= |rows| && count == |written| < MaxRecords && crash == None
      invariant Stream(rows, 0, RowStep) == After(written, Stream(rows[i..], count, RowStep))
    {
      var ex := rows[i];
      ghost var rest := rows[i + 1..];
      StreamCons(rows[i..], count, RowStep);
      assert rows[i..][0] == ex && rows[i..][1..] == rest;
      i := i + 1;
      var step := ProcessRow(ex);
      match step
      case Crash(e) =>
        crash := Some(e);
        return;
      case Skip =>
        continue;
      case Write(rec) =>
        AfterAssoc(written, rec, Stream(rest, count + 1, RowStep));
        written := written + [rec];
        count := count + 1;
        if count >= MaxRecords {
          break;
        }
    }
  }

  /** The body of the loop up to the write: parse the year, `continue` on a
      ValueError or a year from 1900 on, then strip the text and build the
      record. */
  method ProcessRow(ex: Record) returns (step: Step)
    ensures step == RowStep(ex)
  {
    var pubDate := Get(ex, DateColumn, VStr(""));
    var year := IntOf(pubDate);
    if year.Err? {
      return Crash(year.error);
    }
    if year.value.None? || year.value.value >= YearLimit {
      return Skip;
    }
    var raw := Get(ex, TextColumn, VStr(""));
    if !raw.VStr? {
      return Crash(TypeError);
    }
    var text := StripHeaders(raw.s);
    return Write(OutputRecord(ex, pubDate, text));
  }

  lemma AfterAssoc(written: seq<Record>, rec: Record, run: Run)
    ensures After(written, After([rec], run)) == After(written + [rec], run)
  {
    assert written + ([rec] + run.written) == (written + [rec]) + run.written;
  }

  /** One row of the loop. */
  lemma StreamCons(rows: seq<Record>, count: nat, step: Record -> Step)
    requires rows != []
    ensures Stream(rows, count, step) ==
              match step(rows[0])
              case Skip => Stream(rows[1..], count, step)
              case Crash(e) => Run([], Some(e))
              case Write(rec) =>
                if count + 1 >= MaxRecords then Run([rec], None)
                else After([rec], Stream(rows[1..], count + 1, step))
  {
  }

  // ---------------------------------------------------------------------
  // What the loop selects
  // ---------------------------------------------------------------------

  /** The records of the written rows, in stream order, as if nothing stopped
      the loop. */
  function Written(rows: seq<Record>, step: Record -> Step): (w: seq<Record>)
    ensures |w| <= |rows|
  {
    if rows == [] then []
    else (match step(rows[0]) case Write(rec) => [rec] case _ => []) + Written(rows[1..], step)
  }

  /** The first row whose step raises, or the length when none does. */
  function CrashIndex(rows: seq<Record>, step: Record -> Step): (n: nat)
    ensures n <= |rows|
    ensures forall k :: 0 <= k < n ==> !step(rows[k]).Crash?
    ensures n < |rows| ==> step(rows[n]).Crash?
  {
    if rows == [] || step(rows[0]).Crash? then 0
    else
      var n := CrashIndex(rows[1..], step);
      assert forall k :: 1 <= k < n + 1 ==> rows[k] == rows[1..][k - 1];
      n + 1
  }

  /** The reference for the loop: the first 20 (less `count`) records of the
      rows before the first crash, ending cleanly; the crash is reported only
      when fewer records than that come before it. */
  function Selected(rows: seq<Record>, count: nat, step: Record -> Step): Run
    requires count < MaxRecords
  {
    var n := CrashIndex(rows, step);
    var w := Written(rows[..n], step);
    var room := MaxRecords - count;
    if |w| >= room then Run(w[..room], None)
    else Run(w, if n < |rows| then Some(step(rows[n]).error) else None)
  }

  /** The loop computes the reference selection. */
  lemma {:induction false} StreamMeaning(rows: seq<Record>, count: nat, step: Record -> Step)
    requires count < MaxRecords
    ensures Stream(rows, count, step) == Selected(rows, count, step)
    decreases |rows|
  {
    if rows != [] {
      StreamCons(rows, count, step);
      match step(rows[0])
      case Crash(e) =>
        SelectedCrash(rows, count, step);
      case Skip =>
        StreamMeaning(rows[1..], count, step);
        SelectedSkip(rows, count, step);
      case Write(rec) =>
        if count + 1 < MaxRecords {
          StreamMeaning(rows[1..], count + 1, step);
          SelectedWrite(rows, count, step);
        } else {
          SelectedLast(rows, count, step);
        }
    }
  }

  lemma SelectedCrash(rows: seq<Record>, count: nat, step: Record -> Step)
    requires count < MaxRecords && rows != [] && step(rows[0]).Crash?
    ensures Selected(rows, count, step) == Run([], Some(step(rows[0]).error))
  {
    assert rows[..0] == [];
  }

  lemma SelectedSkip(rows: seq<Record>, count: nat, step: Record -> Step)
    requires count < MaxRecords && rows != [] && step(rows[0]).Skip?
    ensures Selected(rows, count, step) == Selected(rows[1..], count, step)
  {
    StepPrefix(rows, CrashIndex(rows, step), step);
  }

  lemma SelectedWrite(rows: seq<Record>, count: nat, step: Record -> Step)
    requires count + 1 < MaxRecords && rows != [] && step(rows[0]).Write?
    ensures Selected(rows, count, step) == After([step(rows[0]).rec], Selected(rows[1..], count + 1, step))
  {
    var n := CrashIndex(rows, step);
    StepPrefix(rows, n, step);
    var w' := Written(rows[1..][..n - 1], step);
    var room := MaxRecords - count;
    if |w'| >= room - 1 {
      assert ([step(rows[0]).rec] + w')[..room] == [step(rows[0]).rec] + w'[..room - 1];
    }
  }

  lemma SelectedLast(rows: seq<Record>, count: nat, step: Record -> Step)
    requires count < MaxRecords <= count + 1 && rows != [] && step(rows[0]).Write?
    ensures Selected(rows, count, step) == Run([step(rows[0]).rec], None)
  {
    var n := CrashIndex(rows, step);
    StepPrefix(rows, n, step);
    var w := Written(rows[..n], step);
    assert w[..1] == [step(rows[0]).rec];
  }

  lemma StepPrefix(rows: seq<Record>, n: nat, step: Record -> Step)
    requires rows != [] && !step(rows[0]).Crash? && n == CrashIndex(rows, step)
    ensures n >= 1 && CrashIndex(rows[1..], step) == n - 1
    ensures rows[..n][1..] == rows[1..][..n - 1]
    ensures Written(rows[..n], step) ==
              (match step(rows[0]) case Write(rec) => [rec] case _ => []) + Written(rows[1..][..n - 1], step)
    ensures n - 1 < |rows[1..]| ==> rows[1..][n - 1] == rows[n]
  {
    assert rows[..n][0] == rows[0];
  }

  /** A record is among those written exactly when some row writes it. */
  lemma {:induction false} WrittenMeaning(rows: seq<Record>, step: Record -> Step, rec: Record)
    ensures rec in Written(rows, step) <==> exists k :: 0 <= k < |rows| && step(rows[k]) == Write(rec)
  {
    if rows != [] {
      WrittenMeaning(rows[1..], step, rec);
      assert forall k :: 1 <= k < |rows| ==> rows[k] == rows[1..][k - 1];
      if exists k :: 0 <= k < |rows| && step(rows[k]) == Write(rec) {
        var k :| 0 <= k < |rows| && step(rows[k]) == Write(rec);
        if k > 0 {
          assert step(rows[1..][k - 1]) == Write(rec);
        }
      }
    }
  }

  /** At most 20 records are written, each by a row of the stream. */
  lemma StreamBounds(rows: seq<Record>, step: Record -> Step)
    ensures var w := Stream(rows, 0, step).written;
            && |w| <= MaxRecords
            && forall rec :: rec in w ==> exists k :: 0 <= k < |rows| && step(rows[k]) == Write(rec)
  {
    StreamMeaning(rows, 0, step);
    var n := CrashIndex(rows, step);
    assert Stream(rows, 0, step).written <= Written(rows[..n], step);
    forall rec | rec in Stream(rows, 0, step).written
      ensures exists k :: 0 <= k < |rows| && step(rows[k]) == Write(rec)
    {
      assert rec in Written(rows[..n], step);
      WrittenMeaning(rows[..n], step, rec);
      var k :| 0 <= k < n && step(rows[..n][k]) == Write(rec);
      assert rows[..n][k] == rows[k];
    }
  }

  /** At most 20 records are written, each from a row of the stream whose
      year parses to one before 1900 and whose date it keeps. */
  lemma SelectionBounds(rows: seq<Record>)
    ensures var w := Stream(rows, 0, RowStep).written;
            && |w| <= MaxRecords
            && forall rec :: rec in w ==>
                 exists k :: 0 <= k < |rows| && RowStep(rows[k]) == Write(rec) && YearBefore1900(rows[k])
  {
    StreamBounds(rows, RowStep);
    forall k | 0 <= k < |rows| {
      RowStepWrites(rows[k]);
    }
  }

  /** The row's year parses to one before 1900. */
  predicate YearBefore1900(ex: Record) {
    var year := IntOf(Get(ex, DateColumn, VStr("")));
    year.Ok? && year.value.Some? && year.value.value < YearLimit
  }
}
