/**
 * The Project Gutenberg part of build_data.py: `HEADER_RE`, `clean_pg19`, which
 * cuts a heuristic licence header off a book, and `load_gutenberg`, which
 * keeps the books published before 1900, cleans them, drops the ones that
 * still mention something obviously modern and removes two metadata columns.
 */
module Gutenberg {
  import opened Py
  import opened PyStr
  import opened Regex
  import opened Modern
  import opened Datasets

  /** The phrases of `HEADER_RE`, matched ignoring case and without `\b`. */
  const HeaderKeywords: seq<string> := [
    "produced by", "internet", "scanner", "executive director", "gutenberg", "computer", "html"
  ]

  /** `header_len`: only this many leading characters are scanned for keywords. */
  const HeaderLen: nat := 10000

  /** The margin kept after the start of the last keyword. */
  const Margin: nat := 100

  const TextColumn := "text"
  const DateColumn := "publication_date"
  const DroppedColumns: set<string> := {"short_book_title", "url"}
  const YearLimit: int := 1900

  lemma HeaderKeywordsNonEmpty()
    ensures NonEmptyAlts(HeaderKeywords)
  {
  }

  /** `HEADER_RE.finditer(header)` */
  function HeaderMatches(header: string): (ms: seq<Match>)
    ensures forall k :: 0 <= k < |ms| ==> InText(header, ms[k]) && MatchesAt(header, ms[k].start, HeaderKeywords, false)
    ensures Complete(header, ms, 0, HeaderKeywords, false)
    ensures NoMatchFrom(header, if ms == [] then 0 else ms[|ms| - 1].end, HeaderKeywords, false)
  {
    HeaderKeywordsNonEmpty();
    FindIterComplete(header, HeaderKeywords, false, 0);
    FindIterExhausts(header, HeaderKeywords, false, 0);
    FindIter(header, HeaderKeywords, false, 0)
  }

  /** The text `clean_pg19` stores back into the example, computed step by
      step as the source does. */
  function CleanText(raw: string): string {
    var text := ReplaceCRLF(raw);
    var header := Slice(text, 0, HeaderLen);
    Strip(KeptHeader(header) + Slice(text, HeaderLen, |text|))
  }

  /** What is left of the header: everything from the last match's start plus
      100 on, or all of it when nothing matches. */
  function KeptHeader(header: string): string {
    var matches := HeaderMatches(header);
    if |matches| > 0 then Slice(header, matches[|matches| - 1].start + Margin, |header|) else header
  }

  /** The scanned header is the newline-normalised text's first 10000 characters. */
  function Header(raw: string): (header: string)
    ensures var text := ReplaceCRLF(raw);
            header == text[..if |text| < HeaderLen then |text| else HeaderLen]
  {
    Slice(ReplaceCRLF(raw), 0, HeaderLen)
  }

  lemma SliceTail(text: string)
    ensures var h := if |text| < HeaderLen then |text| else HeaderLen;
            Slice(text, HeaderLen, |text|) == text[h..]
  {
  }

  /** Without a keyword in the header, the result is the normalised text, stripped. */
  lemma CleanWithoutKeyword(raw: string)
    requires forall j :: !MatchesAt(Header(raw), j, HeaderKeywords, false)
    ensures CleanText(raw) == Strip(ReplaceCRLF(raw))
  {
    var text := ReplaceCRLF(raw);
    HeaderKeywordsNonEmpty();
    FindIterEmptyIff(Header(raw), HeaderKeywords, false, 0);
    assert KeptHeader(Header(raw)) == Header(raw);
    SliceTail(text);
    var h := if |text| < HeaderLen then |text| else HeaderLen;
    assert text[..h] + text[h..] == text;
  }

  /** With a keyword in the header, the cut falls at the start of the last
      `finditer` match plus 100, clipped to the header: `m` is that match, a
      keyword occurrence, no keyword occurs from its end on, and the result is the
      normalised text from the cut on, stripped, so the rest of the text from
      position 10000 on is kept verbatim before stripping. */
  lemma CleanWithKeyword(raw: string) returns (m: Match, cut: nat)
    requires exists j :: MatchesAt(Header(raw), j, HeaderKeywords, false)
    ensures var header := Header(raw);
            && HeaderMatches(header) != [] && m == HeaderMatches(header)[|HeaderMatches(header)| - 1]
            && InText(header, m) && MatchesAt(header, m.start, HeaderKeywords, false)
            && (forall j :: m.end <= j ==> !MatchesAt(header, j, HeaderKeywords, false))
            && cut == (if m.start + Margin < |header| then m.start + Margin else |header|)
            && CleanText(raw) == Strip(ReplaceCRLF(raw)[cut..])
  {
    var text := ReplaceCRLF(raw);
    var header := Header(raw);
    m, cut := KeptHeaderCut(header);
    SliceTail(text);
    var h := if |text| < HeaderLen then |text| else HeaderLen;
    SuffixAcrossCut(text, cut, h);
  }

  /** In a header with a keyword, what is kept starts at the last match's start plus 100. */
  lemma KeptHeaderCut(header: string) returns (m: Match, cut: nat)
    requires exists j :: MatchesAt(header, j, HeaderKeywords, false)
    ensures && HeaderMatches(header) != [] && m == HeaderMatches(header)[|HeaderMatches(header)| - 1]
            && InText(header, m) && MatchesAt(header, m.start, HeaderKeywords, false)
            && (forall j :: m.end <= j ==> !MatchesAt(header, j, HeaderKeywords, false))
            && cut == (if m.start + Margin < |header| then m.start + Margin else |header|)
            && KeptHeader(header) == header[cut..]
  {
    m := LastHeaderMatch(header);
    cut := if m.start + Margin < |header| then m.start + Margin else |header|;
    KeptHeaderOfLast(header, HeaderMatches(header), m);
    SliceToEnd(header, m.start + Margin);
  }

  lemma KeptHeaderOfLast(header: string, ms: seq<Match>, m: Match)
    requires ms == HeaderMatches(header) && ms != [] && m == ms[|ms| - 1]
    ensures KeptHeader(header) == Slice(header, m.start + Margin, |header|)
  {
  }

  lemma KeptHeaderOfNone(header: string, ms: seq<Match>)
    requires ms == HeaderMatches(header) && ms == []
    ensures KeptHeader(header) == header
  {
  }

  /** A slice to the end from a start that is not negative. */
  lemma SliceToEnd(s: string, i: nat)
    ensures Slice(s, i, |s|) == s[if i < |s| then i else |s|..]
  {
    SliceNonNegative(s, i, |s|);
  }

  /** The last match `finditer` reports in a header that has one. */
  lemma LastHeaderMatch(header: string) returns (m: Match)
    requires exists j :: MatchesAt(header, j, HeaderKeywords, false)
    ensures var ms := HeaderMatches(header);
            && ms != [] && m == ms[|ms| - 1]
            && InText(header, m) && MatchesAt(header, m.start, HeaderKeywords, false)
            && forall j :: m.end <= j ==> !MatchesAt(header, j, HeaderKeywords, false)
  {
    HeaderKeywordsNonEmpty();
    FindIterEmptyIff(header, HeaderKeywords, false, 0);
    var ms := HeaderMatches(header);
    FindIterLast(header, HeaderKeywords, false, 0);
    m := ms[|ms| - 1];
  }

  lemma SuffixAcrossCut(text: string, cut: nat, h: nat)
    requires cut <= h <= |text|
    ensures text[..h][cut..] + text[h..] == text[cut..]
  {
    assert text[..h][cut..] == text[cut..h];
  }

  /** Cleaning never makes the text longer. */
  lemma CleanTextShorter(raw: string)
    ensures |CleanText(raw)| <= |ReplaceCRLF(raw)| <= |raw|
  {
    var header := Header(raw);
    if exists j :: MatchesAt(header, j, HeaderKeywords, false) {
      var m, cut := CleanWithKeyword(raw);
    } else {
      CleanWithoutKeyword(raw);
    }
  }

  // ---------------------------------------------------------------------
  // clean_pg19 on a record
  // ---------------------------------------------------------------------

  /** `clean_pg19(example)` on a record value: reading a missing "text" raises
      KeyError, a non-str "text" has no `replace`, and otherwise only "text"
      is replaced. */
  function CleanRecord(example: Record): Result<Record> {
    match Index(example, TextColumn)
    case Err(e) => Err(e)
    case Ok(v) =>
      match AsStr(v)
      case Err(e) => Err(e)
      case Ok(raw) => Ok(example[TextColumn := VStr(CleanText(raw))])
  }

  /** Cleaning fails exactly when "text" is missing or not a str; otherwise
      every other field is unchanged and no field is added or removed. */
  lemma CleanRecordOnlyText(example: Record)
    ensures CleanRecord(example).Ok? <==> TextColumn in example && example[TextColumn].VStr?
    ensures TextColumn !in example ==> CleanRecord(example) == Err(KeyError(TextColumn))
    ensures TextColumn in example && !example[TextColumn].VStr? ==> CleanRecord(example) == Err(AttributeError)
    ensures CleanRecord(example).Ok? ==>
              var cleaned := CleanRecord(example).value;
              && cleaned.Keys == example.Keys
              && (forall k :: k in example && k != TextColumn ==> cleaned[k] == example[k])
              && cleaned[TextColumn] == VStr(CleanText(example[TextColumn].s))
  {
  }

  /** A dataset row that `clean_pg19` updates in place. */
  class Example {
    var fields: Record

    constructor(fields: Record)
      ensures this.fields == fields
    {
      this.fields := fields;
    }
  }

  /** `clean_pg19(example)`: rebinds the text step by step, writes it back into
      the example and returns the same example. */
  method CleanPg19(example: Example) returns (result: Result<Example>)
    modifies example
    ensures CleanRecord(old(example.fields)).Ok? ==> result == Ok(example) && example.fields == CleanRecord(old(example.fields)).value
    ensures CleanRecord(old(example.fields)).Err? ==>
              result == Err(CleanRecord(old(example.fields)).error) && example.fields == old(example.fields)
  {
    var value := Index(example.fields, TextColumn);
    if value.Err? {
      assert CleanRecord(example.fields) == Err(value.error);
      return Err(value.error);
    }
    var str := AsStr(value.value);
    if str.Err? {
      assert CleanRecord(example.fields) == Err(str.error);
      return Err(str.error);
    }
    var text := CleanString(str.value);
    assert CleanRecord(example.fields) == Ok(example.fields[TextColumn := VStr(text)]);
    example.fields := example.fields[TextColumn := VStr(text)];
    return Ok(example);
  }

  /** The body of `clean_pg19` on the text: normalise newlines, cut the
      header after its last keyword, put the rest back and strip. */
  method CleanString(raw: string) returns (cleaned: string)
    ensures cleaned == CleanText(raw)
  {
    var text := ReplaceCRLF(raw);
    var header := Slice(text, 0, HeaderLen);
    ghost var kept := KeptHeader(header);
    var matches := HeaderMatches(header);
    if |matches| > 0 {
      KeptHeaderOfLast(header, matches, matches[|matches| - 1]);
      header := Slice(header, matches[|matches| - 1].start + Margin, |header|);
    } else {
      KeptHeaderOfNone(header, matches);
    }
    assert header == kept;
    text := header + Slice(text, HeaderLen, |text|);
    cleaned := Strip(text);
  }

  // ---------------------------------------------------------------------
  // load_gutenberg
  // ---------------------------------------------------------------------

  /** `x["publication_date"] < 1900`: a missing column raises KeyError and a
      value that is not an int cannot be compared with one. */
  function PublishedBefore1900(example: Record): Result<bool> {
    match Index(example, DateColumn)
    case Err(e) => Err(e)
    case Ok(v) => if v.VInt? then Ok(v.i < YearLimit) else Err(TypeError)
  }

  /** `not is_obvious_modern(x.get("text", ""))`: searching something other
      than a str raises TypeError. */
  function NotModern(example: Record): Result<bool> {
    match Get(example, TextColumn, VStr(""))
    case VStr(s) => Ok(!IsObviousModern(s))
    case _ => Err(TypeError)
  }

  /** `load_gutenberg` after `load_dataset`: the year filter, the cleaning map,
      the modern-reference filter and the column removal, in that order. */
  function LoadGutenberg(ds: seq<Record>): Result<seq<Record>> {
    FilterMapFilter(ds, PublishedBefore1900, CleanRecord, NotModern, DroppedColumns)
  }

  /** The rows `load_gutenberg` keeps when every row is loadable: those
      published before 1900 whose cleaned text is not flagged, each with its
      text cleaned and without the two columns. */
  lemma LoadGutenbergKeeps(ds: seq<Record>, y: Record)
    requires forall k :: 0 <= k < |ds| ==> Loadable(ds[k])
    ensures LoadGutenberg(ds).Ok?
    ensures y in LoadGutenberg(ds).value <==>
              exists x: Record :: x in ds && Loadable(x) && x[DateColumn].i < YearLimit && KeptAs(x, y)
  {
    LoadGutenbergOkIff(ds);
    FilterMapFilterOkIff(ds, PublishedBefore1900, CleanRecord, NotModern, DroppedColumns);
    FilterMapFilterRows(ds, PublishedBefore1900, CleanRecord, NotModern, DroppedColumns);
    KeptMeaning(ds, PublishedBefore1900, CleanRecord, NotModern, DroppedColumns, y);
    forall x | x in ds {
      RowKept(x, y);
    }
  }

  /** A pre-1900 row whose cleaned text is not flagged comes out as `y`. */
  predicate KeptAs(x: Record, y: Record)
    requires TextColumn in x && x[TextColumn].VStr?
  {
    var cleaned := CleanText(x[TextColumn].s);
    !IsObviousModern(cleaned) && y == x[TextColumn := VStr(cleaned)] - DroppedColumns
  }

  lemma RowKept(x: Record, y: Record)
    ensures Loadable(x) ==>
              ((PublishedBefore1900(x) == Ok(true) && CleanRecord(x).Ok?
                && NotModern(CleanRecord(x).value) == Ok(true) && y == CleanRecord(x).value - DroppedColumns)
               <==> (x[DateColumn].i < YearLimit && KeptAs(x, y)))
  {
    CleanRecordOnlyText(x);
  }

  /** A row loads without raising when its year is an int and, if it is
      before 1900, its text is a str; the modern filter never raises on a
      cleaned row. */
  predicate Loadable(x: Record) {
    DateColumn in x && x[DateColumn].VInt?
    && (x[DateColumn].i < YearLimit ==> TextColumn in x && x[TextColumn].VStr?)
  }

  lemma ContributionOkIff(x: Record)
    ensures Contribution(x, PublishedBefore1900, CleanRecord, NotModern, DroppedColumns).Ok? <==> Loadable(x)
  {
    ContributionOk(x, PublishedBefore1900, CleanRecord, NotModern, DroppedColumns);
    CleanRecordOnlyText(x);
    assert PublishedBefore1900(x).Ok? <==> DateColumn in x && x[DateColumn].VInt?;
    if PublishedBefore1900(x) == Ok(true) && CleanRecord(x).Ok? {
      NotModernOfCleaned(CleanRecord(x).value);
    }
  }

  /** The modern filter does not raise on a row whose text is a str. */
  lemma NotModernOfCleaned(y: Record)
    requires TextColumn in y && y[TextColumn].VStr?
    ensures NotModern(y).Ok?
  {
  }

  /** `load_gutenberg` raises exactly when some row is not loadable. */
  lemma LoadGutenbergOkIff(ds: seq<Record>)
    ensures LoadGutenberg(ds).Ok? <==> forall k :: 0 <= k < |ds| ==> Loadable(ds[k])
  {
    FilterMapFilterOkIff(ds, PublishedBefore1900, CleanRecord, NotModern, DroppedColumns);
    forall k | 0 <= k < |ds| {
      ContributionOkIff(ds[k]);
    }
  }

  /** A row is judged modern on its cleaned text, so a modern term that only
      appears in the cut-off header does not get the book removed. */
  lemma ModernJudgedAfterCleaning(x: Record)
    requires PublishedBefore1900(x) == Ok(true) && TextColumn in x && x[TextColumn].VStr?
    requires !IsObviousModern(CleanText(x[TextColumn].s))
    ensures Contribution(x, PublishedBefore1900, CleanRecord, NotModern, DroppedColumns)
            == Ok([CleanRecord(x).value - DroppedColumns])
  {
    CleanRecordOnlyText(x);
    var cleaned := CleanText(x[TextColumn].s);
    NotModernOfText(CleanRecord(x).value, cleaned);
    ContributionKept(x, PublishedBefore1900, CleanRecord, NotModern, DroppedColumns);
  }

  /** The modern filter keeps a row whose text is not flagged. */
  lemma NotModernOfText(y: Record, text: string)
    requires TextColumn in y && y[TextColumn] == VStr(text) && !IsObviousModern(text)
    ensures NotModern(y) == Ok(true)
  {
  }
}
