/**
 * The chunking stage of dedup.py: `chunk_text` cuts a book into word windows
 * of `chunk_size` words starting every `max(32, chunk_size - overlap)` words,
 * and `explode_into_chunks` flattens a dataset of books into one row per
 * chunk, `{book_id, chunk_id, text}`.
 */
module Dedup {
  import opened Py
  import opened PyStr

  /** The floor on the step between window starts. */
  const MinStep: nat := 32
  /** `chunk_text`'s default overlap, the one `explode_into_chunks` uses. */
  const DefaultOverlap: int := 128
  /** The CLI default for `--chunk_size`. */
  const DefaultChunkSize: int := 1024
  /** The column a book id falls back to. */
  const IndexColumn := "__index_level_0__"

  // ---------------------------------------------------------------------
  // chunk_text
  // ---------------------------------------------------------------------

  /** `max(32, chunk_size - overlap)`: never below 32, never below the
      requested step, and one of the two. */
  function Step(chunkSize: int, overlap: int): (step: nat)
    ensures step >= MinStep && step >= chunkSize - overlap
    ensures step == MinStep || step == chunkSize - overlap
  {
    if chunkSize - overlap > MinStep then chunkSize - overlap else MinStep
  }

  /** The word windows for the starts `i, i + step, ...` below `|words|`,
      that is `words[i : i + chunk_size]` for `i` in `range(start, len(words), step)`. */
  function WindowsFrom(words: seq<string>, chunkSize: int, step: nat, i: nat): seq<seq<string>>
    requires step > 0
    decreases |words| - i
  {
    if i >= |words| then []
    else [Window(words, i, chunkSize)] + WindowsFrom(words, chunkSize, step, i + step)
  }

  /** `words[i : i + chunk_size]` */
  function Window(words: seq<string>, i: nat, chunkSize: int): seq<string> {
    Slice(words, i, i + chunkSize)
  }

  /** The windows `chunk_text` cuts from `text`. */
  function Windows(text: string, chunkSize: int, overlap: int): seq<seq<string>> {
    WindowsFrom(Split(text), chunkSize, Step(chunkSize, overlap), 0)
  }

  /** `list(chunk_text(text, chunk_size, overlap))`: each window joined with single spaces. */
  function ChunkText(text: string, chunkSize: int, overlap: int): (chunks: seq<string>)
    ensures |chunks| == |Windows(text, chunkSize, overlap)|
  {
    var ws := Windows(text, chunkSize, overlap);
    seq(|ws|, k requires 0 <= k < |ws| => Join(ws[k]))
  }

  // Arithmetic on window starts, kept apart so that the lemmas about chunks
  // stay linear.

  /** The start of window `k`: `k * step`, as repeated addition. */
  function WindowStart(k: nat, step: nat): nat {
    if k == 0 then 0 else WindowStart(k - 1, step) + step
  }

  lemma {:induction false} WindowStartIsProduct(k: nat, step: nat)
    ensures WindowStart(k, step) == k * step
  {
    if k > 0 {
      WindowStartIsProduct(k - 1, step);
      assert (k - 1) * step + step == k * step;
    }
  }

  /** `n` is `ceil(w / d)` when `n * d` is the least multiple of `d` reaching `w`. */
  lemma CeilDivOfBounds(w: nat, d: nat, n: nat)
    requires d > 0
    requires w <= WindowStart(n, d)
    requires n == 0 || WindowStart(n - 1, d) < w
    ensures (w + d - 1) / d == n
  {
    WindowStartIsProduct(n, d);
    if n > 0 {
      WindowStartIsProduct(n - 1, d);
    }
    DivBetween(w + d - 1, d, n);
  }

  /** `x / d == n` when `x` lies in `[n * d, n * d + d)`. */
  lemma DivBetween(x: nat, d: nat, n: nat)
    requires d > 0 && n * d <= x < n * d + d
    ensures x / d == n
  {
    var q := x / d;
    assert x == q * d + x % d && 0 <= x % d < d;
    if q < n {
      MulMonotone(q + 1, n, d);
      assert false;
    } else if q > n {
      MulMonotone(n + 1, q, d);
      assert false;
    }
  }

  lemma {:induction false} MulMonotone(a: nat, b: nat, d: nat)
    requires a <= b
    ensures a * d <= b * d
    decreases b - a
  {
    if a < b {
      MulMonotone(a, b - 1, d);
      assert (b - 1) * d + d == b * d;
    }
  }

  /** The chunks from start `i` are `n` windows, `n` the least count of steps
      that passes the last word. */
  lemma {:induction false} WindowsFromCount(words: seq<string>, chunkSize: int, step: nat, i: nat)
    requires step > 0
    ensures var n := |WindowsFrom(words, chunkSize, step, i)|;
            (i >= |words| ==> n == 0)
            && (i < |words| ==> n > 0 && |words| - i <= WindowStart(n, step) && WindowStart(n - 1, step) < |words| - i)
    decreases |words| - i
  {
    if i < |words| {
      WindowsFromCount(words, chunkSize, step, i + step);
      var n := |WindowsFrom(words, chunkSize, step, i + step)|;
      if n > 0 {
        WindowStartShift(n, step);
      }
    }
  }

  lemma {:induction false} WindowStartShift(n: nat, step: nat)
    requires n > 0
    ensures WindowStart(n + 1, step) == WindowStart(n, step) + step
    ensures WindowStart(n, step) == WindowStart(n - 1, step) + step
  {
  }

  /** The `k`-th window from start `i` starts at word `i + k * step`. */
  lemma {:induction false} WindowsFromAt(words: seq<string>, chunkSize: int, step: nat, i: nat, k: nat)
    requires step > 0
    requires k < |WindowsFrom(words, chunkSize, step, i)|
    ensures i + WindowStart(k, step) < |words|
    ensures WindowsFrom(words, chunkSize, step, i)[k] ==
            Window(words, i + WindowStart(k, step), chunkSize)
    decreases k
  {
    var windows := WindowsFrom(words, chunkSize, step, i);
    var rest := WindowsFrom(words, chunkSize, step, i + step);
    assert i < |words| && windows == [Window(words, i, chunkSize)] + rest;
    if k > 0 {
      WindowsFromAt(words, chunkSize, step, i + step, k - 1);
      var start := i + step + WindowStart(k - 1, step);
      assert start == i + WindowStart(k, step);
      assert windows[k] == rest[k - 1];
    }
  }

  /** Every word at or after start `i` lies in the step-long stretch after one of the window starts. */
  lemma {:induction false} WindowsFromReach(words: seq<string>, chunkSize: int, step: nat, i: nat, j: nat)
    returns (k: nat)
    requires step > 0
    requires i <= j < |words|
    ensures k < |WindowsFrom(words, chunkSize, step, i)|
    ensures i + WindowStart(k, step) <= j < i + WindowStart(k, step) + step
    decreases j - i
  {
    if j < i + step {
      k := 0;
    } else {
      var k' := WindowsFromReach(words, chunkSize, step, i + step, j);
      k := k' + 1;
      assert WindowStart(k, step) == WindowStart(k', step) + step;
    }
  }

  /** The number of chunks is `ceil(W / step)` for `W` words; in particular
      an empty or all-whitespace text gives no chunk. */
  lemma ChunkCount(text: string, chunkSize: int, overlap: int)
    ensures var w, step := |Split(text)|, Step(chunkSize, overlap);
            |ChunkText(text, chunkSize, overlap)| == (w + step - 1) / step
    ensures ChunkText(text, chunkSize, overlap) == [] <==>
            forall i :: 0 <= i < |text| ==> IsSpace(text[i])
  {
    var words, step := Split(text), Step(chunkSize, overlap);
    WindowsFromCount(words, chunkSize, step, 0);
    SplitEmptyIffBlank(text);
    CeilDivOfBounds(|words|, step, |ChunkText(text, chunkSize, overlap)|);
  }

  /** The upper end of a window: clipped to the number of words. */
  function WindowEnd(w: nat, start: nat, chunkSize: nat): nat {
    if start + chunkSize < w then start + chunkSize else w
  }

  /** Chunk `k` is words `k * step` up to `min(W, k * step + chunk_size)` joined
      with single spaces: at most `chunk_size` words, the first of them word `k * step`. */
  lemma ChunkContents(text: string, chunkSize: int, overlap: int, k: nat)
    requires chunkSize >= 1
    requires k < |ChunkText(text, chunkSize, overlap)|
    ensures var words, start := Split(text), k * Step(chunkSize, overlap);
            var chunk := ChunkText(text, chunkSize, overlap)[k];
            && start < WindowEnd(|words|, start, chunkSize) <= |words|
            && chunk == Join(words[start..WindowEnd(|words|, start, chunkSize)])
            && Split(chunk) == words[start..WindowEnd(|words|, start, chunkSize)]
            && 1 <= |Split(chunk)| <= chunkSize
            && Split(chunk)[0] == words[start]
  {
    var words, step := Split(text), Step(chunkSize, overlap);
    WindowStartIsProduct(k, step);
    var window := WindowContents(words, chunkSize, step, k);
    assert ChunkText(text, chunkSize, overlap)[k] == Join(window);
    SplitJoin(window);
  }

  /** Window `k` is the slice from its start to its clipped end. */
  lemma WindowContents(words: seq<string>, chunkSize: nat, step: nat, k: nat)
    returns (window: seq<string>)
    requires chunkSize >= 1 && step > 0
    requires forall m :: 0 <= m < |words| ==> IsWord(words[m])
    requires k < |WindowsFrom(words, chunkSize, step, 0)|
    ensures var start := WindowStart(k, step);
            var end := WindowEnd(|words|, start, chunkSize);
            && start < end <= |words|
            && window == WindowsFrom(words, chunkSize, step, 0)[k] == words[start..end]
            && 1 <= |window| <= chunkSize
            && window[0] == words[start]
            && forall m :: 0 <= m < |window| ==> IsWord(window[m]) && window[m] == words[start + m]
  {
    WindowsFromAt(words, chunkSize, step, 0, k);
    var start := WindowStart(k, step);
    var end := WindowEnd(|words|, start, chunkSize);
    window := words[start..end];
    assert Window(words, start, chunkSize) == window;
  }

  /** With `chunk_size >= 32` and `overlap >= 0` the step is at most the
      window, so every word lies in some chunk. */
  lemma ChunkCoverage(text: string, chunkSize: int, overlap: int, j: nat) returns (k: nat)
    requires MinStep <= chunkSize && 0 <= overlap
    requires j < |Split(text)|
    ensures k < |ChunkText(text, chunkSize, overlap)|
    ensures var start := k * Step(chunkSize, overlap);
            var chunkWords := Split(ChunkText(text, chunkSize, overlap)[k]);
            start <= j < start + |chunkWords| && chunkWords[j - start] == Split(text)[j]
  {
    var words, step := Split(text), Step(chunkSize, overlap);
    k := WindowsFromReach(words, chunkSize, step, 0, j);
    WindowStartIsProduct(k, step);
    var start := k * step;
    assert start <= j < start + step;
    ChunkContents(text, chunkSize, overlap, k);
    var chunkWords := Split(ChunkText(text, chunkSize, overlap)[k]);
    assert chunkWords == words[start..WindowEnd(|words|, start, chunkSize)];
    assert j - start < |chunkWords|;
  }

  /** Two consecutive chunks that are not clipped share `chunk_size - step` words:
      the tail of chunk `k` is the head of chunk `k + 1`. */
  lemma ChunkOverlap(text: string, chunkSize: int, overlap: int, k: nat)
    requires MinStep <= chunkSize && 0 <= overlap
    requires k + 1 < |ChunkText(text, chunkSize, overlap)|
    requires (k + 1) * Step(chunkSize, overlap) + chunkSize <= |Split(text)|
    ensures var step := Step(chunkSize, overlap);
            var chunks := ChunkText(text, chunkSize, overlap);
            |Split(chunks[k])| == |Split(chunks[k + 1])| == chunkSize
            && Split(chunks[k])[step..] == Split(chunks[k + 1])[..chunkSize - step]
  {
    var words, step := Split(text), Step(chunkSize, overlap);
    var a := MulSucc(k, step);
    ChunkContents(text, chunkSize, overlap, k);
    ChunkContents(text, chunkSize, overlap, k + 1);
    SharedWords(words, a, step, chunkSize);
  }

  /** The start of the next window is one step further. */
  lemma MulSucc(k: nat, step: nat) returns (a: nat)
    ensures a == k * step && (k + 1) * step == a + step
  {
    a := k * step;
  }

  /** Windows of `c` words starting `step` apart share `c - step` words. */
  lemma SharedWords(words: seq<string>, a: nat, step: nat, c: nat)
    requires step <= c && a + step + c <= |words|
    ensures words[a..a + c][step..] == words[a + step..a + step + c][..c - step]
  {
    assert words[a..a + c][step..] == words[a + step..a + c];
    assert words[a + step..a + step + c][..c - step] == words[a + step..a + c];
  }

  /** With `chunk_size < 32` the step exceeds the window, so words are skipped:
      word number `chunk_size` is in no chunk. */
  lemma SmallChunksSkipWords(text: string, chunkSize: int, overlap: int, k: nat)
    requires 1 <= chunkSize < MinStep as int
    requires chunkSize < |Split(text)|
    requires k < |ChunkText(text, chunkSize, overlap)|
    ensures var start := k * Step(chunkSize, overlap);
            chunkSize < start || start + |Split(ChunkText(text, chunkSize, overlap)[k])| <= chunkSize
  {
    var step := Step(chunkSize, overlap);
    ChunkContents(text, chunkSize, overlap, k);
    if k > 0 {
      MulMonotone(1, k, step);
    }
  }

  /** `chunk_text("A B C D E F", 3, 1)`: the step is 32, so only the first
      window, three words long, is yielded. */
  lemma SmallChunksExample(text: string)
    requires text == "A B C D E F"
    ensures ChunkText(text, 3, 1) == ["A B C"]
  {
    var ws := SixWords(text);
    ChunkCount(text, 3, 1);
    assert |ChunkText(text, 3, 1)| == 1;
    ChunkContents(text, 3, 1, 0);
    assert WindowEnd(6, 0, 3) == 3;
    assert ws[0..3] == ["A", "B", "C"];
    assert Join(["A", "B", "C"]) == "A B C";
  }

  lemma SixWords(text: string) returns (ws: seq<string>)
    requires text == "A B C D E F"
    ensures ws == ["A", "B", "C", "D", "E", "F"] == Split(text)
  {
    ws := ["A", "B", "C", "D", "E", "F"];
    assert Join(ws[4..]) == "E F";
    assert Join(ws[2..]) == "C D E F";
    assert Join(ws) == text;
    SplitJoin(ws);
  }

  /** With the defaults (1024 words, overlap 128) a book of 897 to 1024 words
      has two chunks, so the count is not `ceil(max(W - 1024, 0) / 896) + 1`. */
  lemma DefaultCountNotClosedForm(text: string)
    requires 896 < |Split(text)| <= DefaultChunkSize
    ensures |ChunkText(text, DefaultChunkSize, DefaultOverlap)| == 2
    ensures var w := |Split(text)|;
            (if w - 1024 > 0 then w - 1024 else 0) / 896 + 1 == 1
  {
    ChunkCount(text, DefaultChunkSize, DefaultOverlap);
  }

  // ---------------------------------------------------------------------
  // explode_into_chunks
  // ---------------------------------------------------------------------

  /** One output row of `explode_into_chunks`. */
  datatype Row = Row(bookId: Value, chunkId: nat, text: string)

  /** `ex.get("id") or ex.get("identifier") or ex["__index_level_0__"]`. */
  function BookId(ex: Record): (r: Result<Value>)
    ensures Truthy(Get(ex, "id", VNone)) ==> r == Ok(ex["id"])
    ensures !Truthy(Get(ex, "id", VNone)) && Truthy(Get(ex, "identifier", VNone)) ==> r == Ok(ex["identifier"])
    ensures !Truthy(Get(ex, "id", VNone)) && !Truthy(Get(ex, "identifier", VNone)) ==> r == Index(ex, IndexColumn)
    ensures r.Ok? && !Truthy(r.value) ==> IndexColumn in ex && r.value == ex[IndexColumn]
    ensures r.Err? <==> !Truthy(Get(ex, "id", VNone)) && !Truthy(Get(ex, "identifier", VNone)) && IndexColumn !in ex
  {
    var id := Get(ex, "id", VNone);
    if Truthy(id) then Ok(id)
    else
      var identifier := Get(ex, "identifier", VNone);
      if Truthy(identifier) then Ok(identifier)
      else Index(ex, IndexColumn)
  }

  /** An `id` that is falsy (None, "" or 0) counts as no `id` at all. */
  lemma BookIdFalsyFallsThrough(ex: Record)
    requires "id" in ex && !Truthy(ex["id"])
    ensures BookId(ex) == BookId(ex - {"id"})
    ensures ex["id"] == VStr("") && Get(ex, "identifier", VNone) == VStr("pg-1") ==> BookId(ex) == Ok(VStr("pg-1"))
  {
  }

  /** The rows of one book: chunk ids `0 .. n-1` in generation order. */
  function BookRows(id: Value, chunks: seq<string>): (rows: seq<Row>)
    ensures |rows| == |chunks|
    ensures forall k :: 0 <= k < |rows| ==> rows[k] == Row(id, k, chunks[k])
  {
    seq(|chunks|, k requires 0 <= k < |chunks| => Row(id, k, chunks[k]))
  }

  /** The rows one book contributes, or the error the loop body raises on it:
      the id is looked up first, then `ex["text"]`, which must be a str. */
  function ExplodeBook(ex: Record, chunkSize: int): Result<seq<Row>> {
    match BookId(ex)
    case Err(e) => Err(e)
    case Ok(id) =>
      match Index(ex, "text")
      case Err(e) => Err(e)
      case Ok(v) =>
        match AsStr(v)
        case Err(e) => Err(e)
        case Ok(text) => Ok(BookRows(id, ChunkText(text, chunkSize, DefaultOverlap)))
  }

  /** Each book's rows or error, in dataset order. */
  function BookResults(ds: seq<Record>, chunkSize: int): (parts: seq<Result<seq<Row>>>)
    ensures |parts| == |ds|
    ensures forall b :: 0 <= b < |ds| ==> parts[b] == ExplodeBook(ds[b], chunkSize)
  {
    seq(|ds|, b requires 0 <= b < |ds| => ExplodeBook(ds[b], chunkSize))
  }

  /** What `explode_into_chunks` returns: the books' rows in dataset order, or
      the first book's error. */
  function Explode(ds: seq<Record>, chunkSize: int): Result<seq<Row>> {
    Flatten(BookResults(ds, chunkSize))
  }

  /** The books of a prefix of the dataset are a prefix of the books. */
  lemma BookResultsPrefix(ds: seq<Record>, chunkSize: int, b: nat)
    requires b <= |ds|
    ensures BookResults(ds[..b], chunkSize) == BookResults(ds, chunkSize)[..b]
  {
  }

  /** The nested loops of `explode_into_chunks`. */
  method ExplodeIntoChunks(ds: seq<Record>, chunkSize: int) returns (res: Result<seq<Row>>)
    ensures res == Explode(ds, chunkSize)
  {
    var rows: seq<Row> := [];
    var b := 0;
    while b < |ds|
      invariant 0 <= b <= |ds|
      invariant Flatten(BookResults(ds, chunkSize)[..b]) == Ok(rows)
    {
      var ex := ds[b];
      ghost var parts := BookResults(ds, chunkSize);
      assert parts[..b + 1][..b] == parts[..b];
      assert parts[..b + 1][b] == ExplodeBook(ex, chunkSize);
      var bookId := BookId(ex);
      if bookId.Err? {
        FlattenErrExtends(parts, b + 1);
        return Err(bookId.error);
      }
      var field := Index(ex, "text");
      if field.Err? {
        FlattenErrExtends(parts, b + 1);
        return Err(field.error);
      }
      var text := AsStr(field.value);
      if text.Err? {
        FlattenErrExtends(parts, b + 1);
        return Err(text.error);
      }
      var chunks := ChunkText(text.value, chunkSize, DefaultOverlap);
      ghost var before := rows;
      rows := AppendChunkRows(rows, bookId.value, chunks);
      FlattenStep(parts, b, before, BookRows(bookId.value, chunks));
      b := b + 1;
    }
    assert BookResults(ds, chunkSize)[..b] == BookResults(ds, chunkSize);
    return Ok(rows);
  }

  /** The inner loop of `explode_into_chunks`: one row per chunk, numbered by
      `enumerate`, appended in order. */
  method AppendChunkRows(rows: seq<Row>, id: Value, chunks: seq<string>) returns (out: seq<Row>)
    ensures out == rows + BookRows(id, chunks)
  {
    out := rows;
    var idx := 0;
    while idx < |chunks|
      invariant 0 <= idx <= |chunks|
      invariant out == rows + BookRows(id, chunks[..idx])
    {
      assert chunks[..idx + 1] == chunks[..idx] + [chunks[idx]];
      out := out + [Row(id, idx, chunks[idx])];
      idx := idx + 1;
    }
    assert chunks[..idx] == chunks;
  }

  // ---------------------------------------------------------------------
  // Flattening per-book results, as the row list accumulates them
  // ---------------------------------------------------------------------

  /** The parts' values back to back, or the first part's error. */
  function Flatten<T>(parts: seq<Result<seq<T>>>): Result<seq<T>>
    decreases |parts|
  {
    if parts == [] then Ok([])
    else
      match Flatten(parts[..|parts| - 1])
      case Err(e) => Err(e)
      case Ok(done) =>
        match parts[|parts| - 1]
        case Err(e) => Err(e)
        case Ok(more) => Ok(done + more)
  }

  /** The length of a part, 0 for an error. */
  function PartLength<T>(part: Result<seq<T>>): nat {
    if part.Ok? then |part.value| else 0
  }

  /** The lengths of the parts added up. */
  function TotalLength<T>(parts: seq<Result<seq<T>>>): nat
    decreases |parts|
  {
    if parts == [] then 0 else TotalLength(parts[..|parts| - 1]) + PartLength(parts[|parts| - 1])
  }

  /** One more successful part appends its value. */
  lemma FlattenStep<T>(parts: seq<Result<seq<T>>>, b: nat, done: seq<T>, more: seq<T>)
    requires b < |parts| && Flatten(parts[..b]) == Ok(done) && parts[b] == Ok(more)
    ensures Flatten(parts[..b + 1]) == Ok(done + more)
  {
    assert parts[..b + 1][..b] == parts[..b];
  }

  /** An error in a prefix of the parts is the error of all of them. */
  lemma {:induction false} FlattenErrExtends<T>(parts: seq<Result<seq<T>>>, b: nat)
    requires b <= |parts| && Flatten(parts[..b]).Err?
    ensures Flatten(parts) == Flatten(parts[..b])
    decreases |parts| - b
  {
    if b < |parts| {
      assert parts[..b + 1][..b] == parts[..b];
      FlattenErrExtends(parts, b + 1);
    } else {
      assert parts[..b] == parts;
    }
  }

  /** Flattening succeeds exactly when every part does. */
  lemma {:induction false} FlattenOkIff<T>(parts: seq<Result<seq<T>>>)
    ensures Flatten(parts).Ok? <==> forall b :: 0 <= b < |parts| ==> parts[b].Ok?
    decreases |parts|
  {
    if parts != [] {
      var init := parts[..|parts| - 1];
      FlattenOkIff(init);
      assert forall b :: 0 <= b < |init| ==> init[b] == parts[b];
    }
  }

  /** A failed flattening reports the error of the first failing part. */
  lemma {:induction false} FlattenErrFirst<T>(parts: seq<Result<seq<T>>>) returns (b: nat)
    requires Flatten(parts).Err?
    ensures b < |parts| && parts[b] == Err(Flatten(parts).error)
    ensures forall c :: 0 <= c < b ==> parts[c].Ok?
    decreases |parts|
  {
    var n := |parts| - 1;
    var init := parts[..n];
    if Flatten(init).Err? {
      b := FlattenErrFirst(init);
      assert forall c :: 0 <= c <= b ==> init[c] == parts[c];
    } else {
      b := n;
      FlattenOkIff(init);
      assert forall c :: 0 <= c < n ==> init[c] == parts[c];
    }
  }

  lemma {:induction false} FlattenLength<T>(parts: seq<Result<seq<T>>>)
    requires Flatten(parts).Ok?
    ensures |Flatten(parts).value| == TotalLength(parts)
    decreases |parts|
  {
    if parts != [] {
      FlattenLength(parts[..|parts| - 1]);
    }
  }

  lemma {:induction false} TotalLengthPrefix<T>(parts: seq<Result<seq<T>>>, b: nat)
    requires b < |parts|
    ensures TotalLength(parts[..b]) + PartLength(parts[b]) <= TotalLength(parts)
    decreases |parts|
  {
    var n := |parts| - 1;
    if b < n {
      assert parts[..n][..b] == parts[..b];
      assert parts[..n][b] == parts[b];
      TotalLengthPrefix(parts[..n], b);
    } else {
      assert parts[..b] == parts[..n];
    }
  }

  /** Element `k` of part `b` sits at `TotalLength(parts[..b]) + k`. */
  lemma {:induction false} FlattenAt<T>(parts: seq<Result<seq<T>>>, b: nat, k: nat)
    requires Flatten(parts).Ok?
    requires b < |parts| && k < PartLength(parts[b])
    ensures var all, offset := Flatten(parts).value, TotalLength(parts[..b]);
            offset + k < |all| && all[offset + k] == parts[b].value[k]
    decreases |parts|
  {
    var n := |parts| - 1;
    var init := parts[..n];
    var all := Flatten(parts).value;
    var head := Flatten(init).value;
    assert all == head + parts[n].value;
    FlattenLength(init);
    if b == n {
      assert parts[..b] == init;
    } else {
      assert init[b] == parts[b];
      assert init[..b] == parts[..b];
      FlattenAt(init, b, k);
      TotalLengthPrefix(init, b);
    }
  }

  // ---------------------------------------------------------------------
  // What the flattened rows look like
  // ---------------------------------------------------------------------

  /** The number of rows the books of `ds` contribute together. */
  function TotalRows(ds: seq<Record>, chunkSize: int): nat {
    TotalLength(BookResults(ds, chunkSize))
  }

  /** Flattening succeeds exactly when every book has an id and a str text;
      otherwise the error is that of the first book without. */
  lemma ExplodeOkIff(ds: seq<Record>, chunkSize: int)
    ensures Explode(ds, chunkSize).Ok? <==> forall b :: 0 <= b < |ds| ==> ExplodeBook(ds[b], chunkSize).Ok?
    ensures Explode(ds, chunkSize).Err? ==>
              exists b :: 0 <= b < |ds| && ExplodeBook(ds[b], chunkSize) == Err(Explode(ds, chunkSize).error)
                && forall c :: 0 <= c < b ==> ExplodeBook(ds[c], chunkSize).Ok?
  {
    var parts := BookResults(ds, chunkSize);
    FlattenOkIff(parts);
    if Flatten(parts).Err? {
      var b := FlattenErrFirst(parts);
      assert ExplodeBook(ds[b], chunkSize) == Err(Explode(ds, chunkSize).error);
    }
  }

  /** The number of rows is the sum of the books' chunk counts. */
  lemma ExplodeLength(ds: seq<Record>, chunkSize: int)
    requires Explode(ds, chunkSize).Ok?
    ensures |Explode(ds, chunkSize).value| == TotalRows(ds, chunkSize)
  {
    FlattenLength(BookResults(ds, chunkSize));
  }

  /** The rows are the books' chunks back to back: chunk `k` of book `b` is row
      `TotalRows(ds[..b]) + k`, carrying that book's id, chunk id `k` and the
      `k`-th text `chunk_text` yields with the default overlap. So rows of
      earlier books precede rows of later ones. */
  lemma ExplodeRowAt(ds: seq<Record>, chunkSize: int, b: nat, k: nat)
    requires Explode(ds, chunkSize).Ok?
    requires b < |ds|
    requires ExplodeBook(ds[b], chunkSize).Ok? && k < |ExplodeBook(ds[b], chunkSize).value|
    ensures BookId(ds[b]).Ok? && "text" in ds[b] && ds[b]["text"].VStr?
    ensures var rows, offset := Explode(ds, chunkSize).value, TotalRows(ds[..b], chunkSize);
            && offset + k < |rows|
            && rows[offset + k] == Row(BookId(ds[b]).value, k, ChunkText(ds[b]["text"].s, chunkSize, DefaultOverlap)[k])
  {
    var parts := BookResults(ds, chunkSize);
    BookResultsPrefix(ds, chunkSize, b);
    assert TotalRows(ds[..b], chunkSize) == TotalLength(parts[..b]);
    var part := ExplodeBook(ds[b], chunkSize);
    assert parts[b] == part;
    FlattenAt(parts, b, k);
    BookRowMeaning(ds[b], chunkSize, k);
  }

  /** Row `k` of a book that chunks without error; the book has one row per chunk. */
  lemma BookRowMeaning(ex: Record, chunkSize: int, k: nat)
    requires ExplodeBook(ex, chunkSize).Ok? && k < |ExplodeBook(ex, chunkSize).value|
    ensures BookId(ex).Ok? && "text" in ex && ex["text"].VStr?
    ensures |ExplodeBook(ex, chunkSize).value| == |ChunkText(ex["text"].s, chunkSize, DefaultOverlap)|
    ensures ExplodeBook(ex, chunkSize).value[k] ==
            Row(BookId(ex).value, k, ChunkText(ex["text"].s, chunkSize, DefaultOverlap)[k])
  {
  }
}
