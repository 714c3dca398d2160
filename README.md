# project1899 corpus preparation, modelled in Dafny

project1899 builds a training corpus of texts written before 1900. This
project models the parts of its scripts that decide what text goes into the
corpus, and proves properties of that model:

- **Chunking** (`dedup.py`). `chunk_text` splits a book into word windows of
  `chunk_size` words. A new window starts every `max(32, chunk_size - overlap)`
  words. `explode_into_chunks` turns every book of a dataset into rows of
  `book_id`, `chunk_id` and `text`. Modules `Dedup` and `PyStr`.
- **Modern-reference filter** (`build_data.py`). `_MODERN_RE` is a
  case-insensitive alternation of eleven phrases, each bounded by `\b`.
  `is_obvious_modern` asks whether it matches anywhere. `extract_snippet`
  reports a match with some text around it. Modules `Modern` and `Regex`.
- **Gutenberg cleaning and loading** (`build_data.py`):
  - `clean_pg19` normalises CRLF to LF. It takes the last match of `HEADER_RE.finditer`
    over the first 10000 characters, drops everything before that match's
    start plus 100, and strips the result.
  - `load_gutenberg` applies, in order: the pre-1900 year filter, the
    cleaning map, the modern-reference filter, and the removal of two
    columns.
  - Modules `Gutenberg` and `Datasets`.
- **First-20 extraction** (`first20_pre1900_pg19.py`):
  - `strip_headers` cuts the text after the first closed
    `*** START OF THIS PROJECT GUTENBERG EBOOK ... ***` marker and before the
    first closed END marker, then strips it.
  - The loop of `main` streams rows. It skips a row whose year does not parse
    as an int or is 1900 or later. It writes a record for every other row
    and stops after 20.
  - Module `First20`.

Python values are modelled in module `Py`. A row is a `map<string, Value>`,
and Python exceptions are the `Err` case of a `Result`. Every operation models
the error path the source has:
- a missing key raises KeyError;
- comparing a str year with an int raises TypeError;
- `int(None)` raises TypeError, which the loop does not catch;
- `None.replace` raises AttributeError.

The regular expressions are modelled directly by what they match:
- An alternation of literal phrases matches at the leftmost position where
  some phrase matches. At that position the first alternative in pattern
  order wins.
- `finditer` resumes each search at the previous match's end.
- `lit.*?\*\*\*` under DOTALL matches at the leftmost occurrence of `lit` that
  has a `***` anywhere after it. The match ends at the first such `***`.

Four consequences of the code, each proved:
- `chunk_text("A B C D E F", 3, 1)` gives the single chunk `"A B C"`. The
  step is 32, so words 4 to 6 are never covered (`Dedup.SmallChunksExample`).
- The number of chunks is `ceil(W / step)` for `W` words. With the default
  sizes 1000 words give 2 chunks, so the count is not
  `1 + ceil(max(W - 1024, 0) / 896)` (`Dedup.DefaultCountNotClosedForm`).
- `strip_headers` is not idempotent. A text that carries its START marker
  twice loses one marker per pass (`First20.StripHeadersNotIdempotent`).
- The snippet of `extract_snippet` is centred on the match only when
  `context_len` is even and the window is not clipped at either end of the
  text. An odd `context_len` puts one more character after the match than
  before it, and a clipped window is shorter (`Modern.SnippetWindow`).

## Model

| member | source | states |
|---|---|---|
| Py.Truthy | dedup.py:25 | Python truthiness: None, the empty str and zero are false; the body is the definition; `Dedup.BookId` and `Dedup.BookIdFalsyFallsThrough` state how `or` uses it |
| Py.Get | first20_pre1900_pg19.py:37 | `d.get(k, default)` is the stored value when `k` is present and the default otherwise |
| Py.Index | build_data.py:85 | `d[k]` is the stored value, or KeyError naming `k` when it is absent |
| Py.AsStr | build_data.py:87 | only a str value has str methods, giving its contents; anything else raises AttributeError |
| PyStr.Slice | build_data.py:90 | a Python slice is never longer than the sequence, and within bounds it is the plain sub-sequence |
| PyStr.SliceNonNegative | build_data.py:94 | with bounds that are not negative, a slice runs to the end bound clipped to the length, and is empty when the start is past the end or the length |
| PyStr.Split | dedup.py:16 | `str.split()` gives words that are non-empty and hold no whitespace; `SplitAtSpace` and `SplitOfWord` determine which words |
| PyStr.SplitAtSpace | dedup.py:16 | a whitespace character separates: `split(a + c + b)` is `split(a) + split(b)` |
| PyStr.SplitOfWord | dedup.py:16 | a non-empty text without whitespace splits to itself as the only word |
| PyStr.Join | dedup.py:19 | `" ".join(words)`: the body is the definition, words separated by one space; `SplitJoin` gives the round trip with `split` |
| PyStr.SplitEmptyIffBlank | dedup.py:16 | `split()` yields no words exactly when every character is whitespace |
| PyStr.SplitJoin | dedup.py:19 | splitting the space-joined list of words gives the same words back |
| PyStr.Strip | build_data.py:96 | `str.strip()` is no longer than its input and neither starts nor ends with whitespace |
| PyStr.StripIsTrim | first20_pre1900_pg19.py:23 | `strip()` is a slice `s[a..b]` with only whitespace outside it |
| PyStr.StripStrip | build_data.py:96 | stripping twice is stripping once |
| PyStr.ReplaceCRLF | build_data.py:87 | `replace("\r\n", "\n")`, scanning left to right: the body is the definition and the result is never longer; the lemmas below say which characters change |
| PyStr.ReplaceCRLFAtCRLF | build_data.py:87 | a CRLF becomes one line feed, and the text on either side is replaced on its own |
| PyStr.ReplaceCRLFWithoutCRLF | build_data.py:87 | a text in which no CR is directly followed by LF is unchanged |
| PyStr.ReplaceCRLFConcat | build_data.py:87 | the replacement of a concatenation whose join is not a CR followed by LF is the concatenation of the replacements |
| PyStr.ReplaceCRLFOnlyDropsCR | build_data.py:87 | `replace("\r\n", "\n")` deletes only carriage returns: with them removed, the text before and after is the same |
| PyStr.ReplaceCRLFMayLeaveCRLF | build_data.py:87 | one pass of the replacement can leave a CRLF behind (`"\r\r\n"`) |
| PyStr.OccursAtIgnoringCase | build_data.py:29 | an exact-case occurrence of a literal is also an IGNORECASE occurrence |
| PyStr.Find | first20_pre1900_pg19.py:17 | a literal search returns the leftmost occurrence at or after the start, or none when there is no occurrence |
| PyStr.ParseIntOfNatToString | build_data.py:38 | `int(str(n))` is `n` for every natural number, and `int("")` raises ValueError |
| PyStr.NatToString | build_data.py:38 | `str(n)` is a non-empty string of decimal digits without a leading zero |
| PyStr.DecimalOfNatToString | build_data.py:38 | the decimal digits of `str(n)` read back as `n` |
| PyStr.ParseInt | first20_pre1900_pg19.py:39 | `int(s)` on a str: surrounding whitespace stripped, an optional sign and ASCII decimal digits, and ValueError (no value) otherwise; the body is the definition; `ParseIntOfNatToString` gives the round trip with `str` |
| Regex.FirstAlt | build_data.py:29 | at one position the first alternative in pattern order that matches is chosen, and none before it matches |
| Regex.SearchFrom | build_data.py:42 | `search` reports the leftmost position where an alternative matches, ending after the first matching alternative, or nothing when none matches |
| Regex.SearchFromAt | build_data.py:59 | a known leftmost match with its first alternative is exactly what `search` returns |
| Regex.FindIter | build_data.py:91 | `finditer` matches lie in the text, are non-empty, are real matches and do not overlap, each starting at or after the previous end |
| Regex.FindIterComplete | build_data.py:91 | `finditer` skips no match: no alternative matches between where each search began and the match it found, and each match ends after the first alternative that matches at its start |
| Regex.FindIterUnique | build_data.py:91 | `finditer` is the only sequence of matches, each at or after the previous end, that skips no match, ends each match after its first matching alternative and leaves nothing to match after the last |
| Regex.FindIterEmptyIff | build_data.py:92 | `finditer` finds nothing exactly when no alternative matches anywhere |
| Regex.FindIterLast | build_data.py:94 | no alternative matches anywhere from the last match's end on |
| Regex.FindIterExhausts | build_data.py:91-94 | `finditer` leaves nothing to match: no alternative matches from the last match's end on, or from the start when it finds nothing |
| Dedup.Step | dedup.py:17 | the step is at least 32 and at least `chunk_size - overlap`, and equal to one of them |
| Dedup.ChunkText | dedup.py:14-19 | the chunks `chunk_text` yields, one per word window; `ChunkCount`, `ChunkContents`, `ChunkCoverage` and `ChunkOverlap` state what they are |
| Dedup.ChunkCount | dedup.py:16-18 | the number of chunks is `ceil(W / step)` for `W` words, with `step = max(32, chunk_size - overlap)`; there are none exactly when the text is blank |
| Dedup.ChunkContents | dedup.py:18-19 | chunk `k` is the space join of the words from `k * step` to `k * step + chunk_size`, clipped to the text |
| Dedup.WindowContents | dedup.py:18-19 | window `k` is the words from `k * step` to its end clipped to the word count: between 1 and `chunk_size` words, in order |
| Dedup.ChunkCoverage | dedup.py:17-19 | when `chunk_size >= 32` and `overlap >= 0`, every word of the text lies in some chunk's window |
| Dedup.ChunkOverlap | dedup.py:17-19 | two consecutive full windows share exactly `chunk_size - step` words |
| Dedup.SmallChunksSkipWords | dedup.py:17 | when `chunk_size < 32`, word number `chunk_size` lies in no chunk's window |
| Dedup.SmallChunksExample | dedup.py:14-19 | `chunk_text("A B C D E F", 3, 1)` yields only `"A B C"` |
| Dedup.DefaultCountNotClosedForm | dedup.py:17-18 | with the default sizes, 897 to 1024 words give two chunks |
| Dedup.BookId | dedup.py:25 | the book id is the first truthy one of `id` and `identifier`, else `__index_level_0__`, which raises KeyError when it is missing |
| Dedup.BookIdFalsyFallsThrough | dedup.py:25 | an `id` that is empty or zero falls through to `identifier` |
| Dedup.ExplodeBook | dedup.py:25-27 | one book's rows, or the KeyError or AttributeError of its id or text: the body is the definition; `BookRows` and `BookRowMeaning` state the rows |
| Dedup.BookRows | dedup.py:26-27 | a book gives one row per chunk; row `k` carries the book id, chunk id `k` and chunk `k` |
| Dedup.BookResults | dedup.py:24-27 | each book's rows or error, in dataset order |
| Dedup.AppendChunkRows | dedup.py:26-27 | the inner loop appends exactly the book's rows, in chunk order, to the rows built so far |
| Dedup.Explode | dedup.py:22-28 | all books' rows back to back, or the first failing book's error: the body is the definition; `ExplodeOkIff`, `ExplodeLength` and `ExplodeRowAt` state its properties and `ExplodeIntoChunks` is the loop that computes it |
| Dedup.ExplodeIntoChunks | dedup.py:22-28 | the nested loops compute `Explode`: the books' rows back to back, or the error of the first book whose pass raises |
| Dedup.ExplodeOkIff | dedup.py:24-27 | exploding succeeds exactly when every book succeeds, and an error is that of the first failing book |
| Dedup.ExplodeLength | dedup.py:22-28 | the number of rows is the sum of the books' chunk counts |
| Dedup.ExplodeRowAt | dedup.py:24-27 | chunk `k` of book `b` is the row at the number of rows of the books before `b`, plus `k`, and carries the book's id |
| Dedup.BookRowMeaning | dedup.py:26-27 | a book's rows are numbered from 0, one per chunk, each carrying the book's id and its chunk |
| Modern.ModernSearch | build_data.py:42 | `_MODERN_RE.search(text)`: the body is the definition, a search for the eleven phrases from position 0; `Regex.SearchFrom` states what it finds |
| Modern.IsObviousModern | build_data.py:40-42 | `bool(_MODERN_RE.search(text))`: the body is the definition; `IsObviousModernIff` states when it holds |
| Modern.IsObviousModernIff | build_data.py:16-29 | a text is flagged exactly when some one of the eleven phrases occurs in it, ignoring case, with a word boundary on both sides |
| Modern.TermAtMatches | build_data.py:18-27 | each listed phrase, at a position with a word boundary on both sides, makes `_MODERN_RE` match |
| Modern.InternetIsModern | build_data.py:24 | a text containing a standalone `internet` is flagged |
| Modern.MatchStartsWord | build_data.py:18-27 | a match starts at a word character that begins a word |
| Modern.TelevisionExample | build_data.py:22 | in `"The television was invented in the 20th century."` the match is `(4, 14)` and its text is `television` |
| Modern.OnlyAtStart | build_data.py:42 | a single word with no phrase matching at its start is not flagged |
| Modern.WordBoundaryExamples | build_data.py:18-26 | `computers`, `lasers` and a bare `relativity` are not flagged |
| Modern.PhraseExamples | build_data.py:18-19 | a text that is exactly one of `general relativity`, `special relativity`, `quantum mechanics` and `quantum theory` is flagged |
| Modern.ExtractSnippet | build_data.py:32-38 | the match start, a colon and a window of the text around the match: the body is the definition; `SnippetWindow` and `SnippetOffsetReadsBack` state its properties |
| Modern.SnippetWindow | build_data.py:32-38 | the snippet window runs from `max(0, start - pre)` to `min(len, end + post)` with `pre + post == context_len` and `post - pre == context_len % 2`, holds the match and is at most `context_len` longer than it, exactly that when not clipped |
| Modern.SnippetOffsetReadsBack | build_data.py:38 | the text before the snippet's first colon parses back to the match start |
| Modern.Audit | build_data.py:58-65 | the audit entry of one text: the matched text and its snippet, or no match and the first 50 characters; `AuditOfFlagged` states it for a flagged text |
| Modern.AuditOfFlagged | build_data.py:58-65 | a flagged text's audit entry has a matched text, and the lemma names the listed phrase it equals up to letter case, with the same length |
| Datasets.Filter | build_data.py:102 | `filter` keeps only rows the predicate accepts, no more of them than there are rows; an error is some row's error |
| Datasets.FilterOkIff | build_data.py:102 | `filter` raises exactly when the predicate raises on some row; otherwise every row the predicate accepts is kept |
| Datasets.FilterCons | build_data.py:102 | `filter` keeps input order: on a row followed by more rows it gives that row, if accepted, in front of the filtered rest |
| Datasets.Map | build_data.py:103 | `map` keeps the length and maps each row at the same index; an error is some row's error |
| Datasets.RemoveColumns | build_data.py:114 | `remove_columns` drops the named columns from every row, in order |
| Datasets.FilterMapFilter | build_data.py:102-114 | a filter, a map, a filter and a column removal, each stopping at an error: the body is the definition; `FilterMapFilterOkIff`, `FilterMapFilterRows` and `KeptMeaning` state its properties |
| Datasets.ContributionOk | build_data.py:102-109 | one row passes the stages without raising exactly when the first filter does not raise on it and, if it accepts it, neither the map nor the second filter raises |
| Datasets.ContributionKept | build_data.py:102-114 | a row both filters accept contributes its mapped image with the columns removed |
| Datasets.FilterMapFilterOkIff | build_data.py:102-109 | the staged filter, map and filter raise exactly when some single row makes a stage raise |
| Datasets.FilterMapFilterRows | build_data.py:102-114 | without a raising row, the stages yield the per-row contributions in input order |
| Datasets.KeptMeaning | build_data.py:102-114 | a row is kept exactly when it is the mapped image, columns removed, of an input row both filters accept |
| Gutenberg.HeaderMatches | build_data.py:91 | every header match lies in the header and is an occurrence of a keyword; no keyword occurs between where each search resumed and its match, each match ends after its first matching keyword, and no keyword occurs from the last match's end on (from 0 when there is none) |
| Gutenberg.Header | build_data.py:89-90 | the scanned header is the first 10000 characters of the normalised text |
| Gutenberg.KeptHeader | build_data.py:91-94 | the header from the last match's start plus 100, or the whole header without a match: the body is the definition; `KeptHeaderCut` states it |
| Gutenberg.CleanText | build_data.py:85-96 | the text `clean_pg19` stores: the body is the definition; `CleanWithoutKeyword`, `CleanWithKeyword` and `CleanTextShorter` state its properties |
| Gutenberg.CleanWithoutKeyword | build_data.py:85-96 | without a keyword in the header, cleaning is CRLF normalisation followed by strip |
| Gutenberg.CleanWithKeyword | build_data.py:91-95 | with a keyword, `m` is the last `finditer` match and the cut is its start plus 100, clipped to the header; the result is the normalised text from the cut on, stripped |
| Gutenberg.KeptHeaderCut | build_data.py:92-94 | `m` is the last `finditer` match, and the header is kept from its start plus 100, clipped to the header |
| Gutenberg.LastHeaderMatch | build_data.py:94 | `matches[-1]` is a keyword occurrence after which no keyword occurs |
| Gutenberg.CleanTextShorter | build_data.py:87-96 | cleaning never makes the text longer |
| Gutenberg.CleanRecord | build_data.py:79-97 | `clean_pg19` on a value: the body is the definition; `CleanRecordOnlyText` states its errors and what changes |
| Gutenberg.CleanRecordOnlyText | build_data.py:85-97 | `clean_pg19` raises KeyError without `text` and AttributeError for a non-str `text`; otherwise it changes only `text`, to the cleaned text |
| Gutenberg.CleanString | build_data.py:85-96 | the step-by-step cleaning (replace, header slice, `finditer`, cut, concatenation, strip) computes the cleaned text `CleanText` |
| Gutenberg.CleanPg19 | build_data.py:79-97 | the method writes the cleaned text back into the same example and returns it, or raises and leaves the example unchanged |
| Gutenberg.Example.constructor | build_data.py:79 | the example holds the given fields |
| Gutenberg.PublishedBefore1900 | build_data.py:102 | `x["publication_date"] < 1900`: KeyError without the column and TypeError for a year that is not an int; the body is the definition; `LoadGutenbergOkIff` states the errors |
| Gutenberg.NotModern | build_data.py:109 | `not is_obvious_modern(x.get("text", ""))`, TypeError for a non-str text: the body is the definition; `NotModernOfText` and `NotModernOfCleaned` state it |
| Gutenberg.LoadGutenberg | build_data.py:99-115 | the year filter, the cleaning map, the modern filter and the column removal, in that order: the body is the definition; `LoadGutenbergOkIff` and `LoadGutenbergKeeps` state what it keeps and when it raises |
| Gutenberg.LoadGutenbergOkIff | build_data.py:102-109 | loading raises exactly when some row has no int year, or is before 1900 without a str text |
| Gutenberg.ContributionOkIff | build_data.py:102-103 | one row passes the stages without raising exactly when it is loadable |
| Gutenberg.LoadGutenbergKeeps | build_data.py:99-115 | the loaded rows are exactly the pre-1900 rows whose cleaned text is not flagged, with cleaned text and without `short_book_title` and `url` |
| Gutenberg.NotModernOfText | build_data.py:109 | the safety filter raises nothing and keeps a row whose str text is not flagged |
| Gutenberg.NotModernOfCleaned | build_data.py:109 | the safety filter raises nothing on a row whose text is a str |
| Gutenberg.ModernJudgedAfterCleaning | build_data.py:103-109 | a pre-1900 row is judged on the cleaned text, so a modern term only in the removed header does not drop it |
| First20.MarkerSearch | first20_pre1900_pg19.py:8-13 | the marker pattern matches at the leftmost position where the marker has a later `***`, ending at the first such `***`; there is no match when no marker is closed |
| First20.MarkerSearchAt | first20_pre1900_pg19.py:17 | the leftmost marker with a first `***` after it is exactly the reported match |
| First20.MarkerSearchAbsent | first20_pre1900_pg19.py:20 | a text without the marker gives no match |
| First20.AfterStart | first20_pre1900_pg19.py:17-19 | the text after the START match is a suffix of the text |
| First20.BeforeEnd | first20_pre1900_pg19.py:20-22 | the text before the END match is a prefix of the text |
| First20.StripHeaders | first20_pre1900_pg19.py:15-23 | `strip_headers`: the START cut, then the END cut, then strip; the body is the definition; the lemmas below state each cut |
| First20.StripHeadersWithoutMarkers | first20_pre1900_pg19.py:15-23 | with neither marker present, `strip_headers` is plain `strip` |
| First20.StartCut | first20_pre1900_pg19.py:17-19 | when the START marker at `p` is the leftmost one and the first `***` after it is at `q`, the text is cut at `q + 3` |
| First20.StartUnclosed | first20_pre1900_pg19.py:8-10 | when no START marker has a later `***`, the text is left alone |
| First20.EndCut | first20_pre1900_pg19.py:20-22 | when the END marker at `e` is the leftmost one and some `***` follows it, the text is cut before `e` |
| First20.EndUnclosed | first20_pre1900_pg19.py:11-13 | when no END marker has a later `***`, the text is left alone |
| First20.StripHeadersIsSlice | first20_pre1900_pg19.py:15-23 | the result is a slice of the text with no whitespace at either end |
| First20.StartMarkerExample | first20_pre1900_pg19.py:15-23 | a START marker line followed by `Real content here.` strips to `Real content here.` |
| First20.LowerCaseStartKept | first20_pre1900_pg19.py:8-9 | the markers are case-sensitive: a lower-case START line is not removed |
| First20.StripHeadersNotIdempotent | first20_pre1900_pg19.py:15-23 | a text with its START marker twice strips to a text that strips to something else |
| First20.IntOf | first20_pre1900_pg19.py:39 | `int(pub_date)`: an int as it is, a str parsed (ValueError when it does not parse), TypeError for None; the body is the definition |
| First20.RowStep | first20_pre1900_pg19.py:37-52 | what one pass of the loop body does with a row: the body is the definition; `RowStepWrites`, `RowStepSkips` and `RowStepRecord` state it |
| First20.WriteStep | first20_pre1900_pg19.py:45-52 | the part of the pass after the year check: the body is the definition; `RowStepRecord` states the record |
| First20.RowStepWrites | first20_pre1900_pg19.py:37-52 | a row is written exactly when its year parses to one before 1900 and its text is a str |
| First20.RowStepRecord | first20_pre1900_pg19.py:45-51 | a written record has exactly the fields `id`, `title`, `publication_date` and `text`: the row's `url` and `short_book_title` (empty str when absent), its date value and its stripped text |
| First20.OutputRecordFields | first20_pre1900_pg19.py:46-51 | the output record has exactly the keys `id`, `title`, `publication_date` and `text`: the row's `url` and `short_book_title` (empty str when absent), the given date value and text |
| First20.RowStepSkips | first20_pre1900_pg19.py:38-43 | a row is skipped exactly when its year raises ValueError or is 1900 or later |
| First20.ProcessRow | first20_pre1900_pg19.py:37-51 | the body of the loop, parsing in place, decides the row's step as `RowStep` does |
| First20.Stream | first20_pre1900_pg19.py:34-55 | the records the loop writes and the error that ends it: the body is the definition; `StreamMeaning`, `StreamBounds` and `WrittenMeaning` state its properties |
| First20.SelectFirst20 | first20_pre1900_pg19.py:34-55 | the loop writes exactly the records of the stream, stopping at the 20th or at an uncaught error, and counts them |
| First20.CrashIndex | first20_pre1900_pg19.py:39 | the first row whose pass raises, with no row before it raising |
| First20.StreamMeaning | first20_pre1900_pg19.py:34-55 | the loop yields the first 20 records written before the first uncaught error, reporting that error only when fewer than 20 come before it |
| First20.WrittenMeaning | first20_pre1900_pg19.py:46-52 | a record is among those written exactly when some row writes it |
| First20.StreamBounds | first20_pre1900_pg19.py:53-55 | at most 20 records are written, each by some row of the stream |
| First20.SelectionBounds | first20_pre1900_pg19.py:37-55 | at most 20 records are written, each from a row whose year parses to one before 1900 |

## Left out

- `dedup_chunks` and the command-line `main` of dedup.py: they call into `text_dedup`'s MinHash deduplicator, which is outside this model.
- `load_dataset`, `Dataset.from_list`, `concatenate_datasets`, `shuffle` and the `num_proc` parallel workers. Datasets are sequences of rows. With several workers, which error is raised first is not modelled.
- Datasets.FilterMapFilterOkIff: an error is the first raising row of the first stage that raises, which can differ from the first raising row in input order.
- File and console I/O: the JSONL writing (`json.dumps`, `fout.write`), `print` and tqdm progress bars. The loop's written records are returned as a sequence.
- `debug_is_obvious_modern`: the random sampling (`random.seed`, `random.sample`) and the file it writes. Only the per-text audit entry (matched text and snippet) is modelled, as `Modern.Audit`.
- `british_library_books` and the other corpus sources in build_data.py, spotcheck.py and scripts/count_tokens.py are not part of this model.
- Case folding and `\b`: only ASCII letters are folded and only ASCII letters, digits and `_` are word characters. Python's Unicode rules for non-ASCII text are not modelled.
- PyStr.ParseInt: `int()` on a str with underscores or non-ASCII digits is not modelled. A year of type float is not a `Value`.
- Datasets.RemoveColumns: the ValueError for a column that is missing from the dataset is not modelled; every row keeps at most the other columns.
- Gutenberg.CleanPg19: idempotence of `clean_pg19` is neither claimed nor refuted. Only `strip_headers` is shown not to be idempotent.
- Dedup.ChunkText: `chunk_text` is a generator. It is modelled by the list of chunks it yields.
