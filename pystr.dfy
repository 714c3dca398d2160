/**
 * The Python str built-ins the corpus scripts rely on, over `seq<char>`:
 * `str.split()` and `" ".join`, `str.strip()`, slicing with Python's index
 * rules, `str.replace("\r\n", "\n")`, literal search (case-sensitive or
 * ASCII case-insensitive), `str(n)` for a natural number and `int(s)`.
 */
module PyStr {
  import opened Py

  // ---------------------------------------------------------------------
  // Character classes
  // ---------------------------------------------------------------------

  /** The characters CPython's `str.isspace()` accepts; `str.split()` and
      `str.strip()` with no argument use exactly this set. */
  predicate IsSpace(c: char) {
    c == ' ' || ('\t' <= c <= '\r') || ('\U{1C}' <= c <= '\U{1F}')
    || c == '\U{85}' || c == '\U{A0}' || c == '\U{1680}'
    || ('\U{2000}' <= c <= '\U{200A}') || c == '\U{2028}' || c == '\U{2029}'
    || c == '\U{202F}' || c == '\U{205F}' || c == '\U{3000}'
  }

  /** The word characters of a regular-expression `\b`, restricted to ASCII. */
  predicate IsWordChar(c: char) {
    ('a' <= c <= 'z') || ('A' <= c <= 'Z') || ('0' <= c <= '9') || c == '_'
  }

  predicate IsDigit(c: char) {
    '0' <= c <= '9'
  }

  /** Case folding for IGNORECASE matching, restricted to ASCII letters. */
  function Fold(c: char): (d: char)
    ensures d == c || ('A' <= c <= 'Z' && 'a' <= d <= 'z')
    ensures !('A' <= d <= 'Z')
  {
    if 'A' <= c <= 'Z' then (c as int + 32) as char else c
  }

  // ---------------------------------------------------------------------
  // Python slicing
  // ---------------------------------------------------------------------

  /** How a slice bound is normalised: negative bounds count from the end,
      and every bound is clipped to `[0, n]`. */
  function Clamp(i: int, n: nat): (k: nat)
    ensures k <= n
    ensures 0 <= i <= n ==> k == i
    ensures i > n ==> k == n
    ensures i < 0 ==> k == if i + n < 0 then 0 else i + n
  {
    if i < 0 then (if i + n < 0 then 0 else i + n)
    else if i > n then n
    else i
  }

  /** `s[a:b]` */
  function Slice<T>(s: seq<T>, a: int, b: int): (r: seq<T>)
    ensures 0 <= a <= b <= |s| ==> r == s[a..b]
    ensures |r| <= |s|
  {
    var lo, hi := Clamp(a, |s|), Clamp(b, |s|);
    if lo < hi then s[lo..hi] else []
  }

  /** For non-negative bounds a slice is the part of `s` between the bounds, clipped to `s`. */
  lemma SliceNonNegative<T>(s: seq<T>, a: int, b: int)
    requires 0 <= a && 0 <= b
    ensures a < |s| && a < b ==> Slice(s, a, b) == s[a..if b < |s| then b else |s|]
    ensures a >= |s| || b <= a ==> Slice(s, a, b) == []
  {
  }

  // ---------------------------------------------------------------------
  // str.split() and " ".join
  // ---------------------------------------------------------------------

  /** What `str.split()` produces: non-empty words with no whitespace in them. */
  predicate IsWord(w: string) {
    w != [] && forall i :: 0 <= i < |w| ==> !IsSpace(w[i])
  }

  /** The longest prefix of `s` free of whitespace. */
  function TakeWord(s: string): (w: string)
    ensures |w| <= |s| && w == s[..|w|]
    ensures forall i :: 0 <= i < |w| ==> !IsSpace(s[i])
    ensures |w| == |s| || IsSpace(s[|w|])
    decreases |s|
  {
    if s == [] || IsSpace(s[0]) then [] else [s[0]] + TakeWord(s[1..])
  }

  /** `s.split()`: the maximal runs of non-whitespace, in order. */
  function Split(s: string): (ws: seq<string>)
    ensures forall k :: 0 <= k < |ws| ==> IsWord(ws[k])
    decreases |s|
  {
    if s == [] then []
    else if IsSpace(s[0]) then Split(s[1..])
    else
      var w := TakeWord(s);
      [w] + Split(s[|w|..])
  }

  /** `" ".join(ws)` */
  function Join(ws: seq<string>): (s: string)
    decreases |ws|
  {
    if ws == [] then ""
    else if |ws| == 1 then ws[0]
    else ws[0] + " " + Join(ws[1..])
  }

  /** `s.split()` is empty exactly when `s` is empty or all whitespace. */
  lemma {:induction false} SplitEmptyIffBlank(s: string)
    ensures Split(s) == [] <==> forall i :: 0 <= i < |s| ==> IsSpace(s[i])
    decreases |s|
  {
    if s != [] {
      if IsSpace(s[0]) {
        SplitEmptyIffBlank(s[1..]);
        assert forall i :: 1 <= i < |s| ==> s[i] == s[1..][i - 1];
      } else {
        assert !IsSpace(s[0]);
      }
    }
  }

  lemma {:induction false} TakeWordOfWord(w: string, rest: string)
    requires IsWord(w)
    requires rest == [] || IsSpace(rest[0])
    ensures TakeWord(w + rest) == w
    decreases |w|
  {
    var s := w + rest;
    assert s[0] == w[0];
    if |w| == 1 {
      assert s[1..] == rest;
    } else {
      assert s[1..] == w[1..] + rest;
      TakeWordOfWord(w[1..], rest);
    }
  }

  /** Splitting what " ".join produced gives back the words: a chunk's words
      can be recovered from its text. */
  lemma {:induction false} SplitJoin(ws: seq<string>)
    requires forall k :: 0 <= k < |ws| ==> IsWord(ws[k])
    ensures Split(Join(ws)) == ws
    decreases |ws|
  {
    if ws == [] {
    } else if |ws| == 1 {
      var w := ws[0];
      TakeWordOfWord(w, []);
      assert w + [] == w;
      assert w[|w|..] == [];
    } else {
      var w, j := ws[0], Join(ws[1..]);
      var s := w + " " + j;
      assert Join(ws) == s;
      assert s == w + (" " + j);
      TakeWordOfWord(w, " " + j);
      assert s[0] == w[0];
      assert s[|w|..] == " " + j;
      assert (" " + j)[1..] == j;
      SplitJoin(ws[1..]);
      assert ws == [w] + ws[1..];
    }
  }

  // ---------------------------------------------------------------------
  // str.strip()
  // ---------------------------------------------------------------------

  /** `s.lstrip()`: the suffix of `s` left after its leading whitespace. */
  function StripLeft(s: string): (r: string)
    ensures |r| <= |s| && r == s[|s| - |r|..]
    ensures forall i :: 0 <= i < |s| - |r| ==> IsSpace(s[i])
    ensures r != [] ==> !IsSpace(r[0])
    decreases |s|
  {
    if s != [] && IsSpace(s[0]) then StripLeft(s[1..]) else s
  }

  /** `s.rstrip()`: the prefix of `s` left before its trailing whitespace. */
  function StripRight(s: string): (r: string)
    ensures |r| <= |s| && r == s[..|r|]
    ensures forall i :: |r| <= i < |s| ==> IsSpace(s[i])
    ensures r != [] ==> !IsSpace(r[|r| - 1])
    decreases |s|
  {
    if s != [] && IsSpace(s[|s| - 1]) then StripRight(s[..|s| - 1]) else s
  }

  /** `s.strip()` */
  function Strip(s: string): (r: string)
    ensures |r| <= |s|
    ensures r != [] ==> !IsSpace(r[0]) && !IsSpace(r[|r| - 1])
  {
    StripRight(StripLeft(s))
  }

  /** `s.strip()` is the part of `s` between two runs of whitespace: a
      contiguous slice `s[a..b]` with only whitespace outside it. */
  lemma StripIsTrim(s: string) returns (a: nat, b: nat)
    ensures a <= b <= |s| && Strip(s) == s[a..b]
    ensures forall i :: 0 <= i < a ==> IsSpace(s[i])
    ensures forall i :: b <= i < |s| ==> IsSpace(s[i])
  {
    var l := StripLeft(s);
    a := |s| - |l|;
    b := StripRightOfSuffix(s, a, l);
  }

  /** Right-stripping the suffix `l == s[a..]` leaves `s[a..b]` and only
      whitespace from `b` on. */
  lemma StripRightOfSuffix(s: string, a: nat, l: string) returns (b: nat)
    requires a <= |s| && l == s[a..]
    ensures a <= b <= |s| && StripRight(l) == s[a..b]
    ensures forall i :: b <= i < |s| ==> IsSpace(s[i])
  {
    var r := StripRight(l);
    b := a + |r|;
    assert r == l[..|r|];
    forall i | b <= i < |s|
      ensures IsSpace(s[i])
    {
      assert s[i] == l[i - a];
    }
  }

  /** Stripping is idempotent. */
  lemma StripStrip(s: string)
    ensures Strip(Strip(s)) == Strip(s)
  {
    var r := Strip(s);
    if r != [] {
      assert StripLeft(r) == r;
      assert StripRight(r) == r;
    }
  }

  /** A word that ends before `a` does, or before whitespace, is not
      lengthened by what follows. */
  lemma {:induction false} TakeWordAppend(a: string, rest: string)
    requires |TakeWord(a)| < |a| || rest == [] || IsSpace(rest[0])
    ensures TakeWord(a + rest) == TakeWord(a)
    decreases |a|
  {
    if a == [] {
      assert a + rest == rest;
    } else if !IsSpace(a[0]) {
      assert (a + rest)[0] == a[0] && (a + rest)[1..] == a[1..] + rest;
      TakeWordAppend(a[1..], rest);
    } else {
      assert (a + rest)[0] == a[0];
    }
  }

  /** A whitespace character separates: the words of `a + [c] + b` are
      those of `a` followed by those of `b`. */
  lemma {:induction false} SplitAtSpace(a: string, c: char, b: string)
    requires IsSpace(c)
    ensures Split(a + [c] + b) == Split(a) + Split(b)
    decreases |a|
  {
    var s := a + [c] + b;
    if a == [] {
      assert s[0] == c && s[1..] == b;
    } else if IsSpace(a[0]) {
      assert s[0] == a[0] && s[1..] == a[1..] + [c] + b;
      SplitAtSpace(a[1..], c, b);
    } else {
      var w := TakeWord(a);
      assert s == a + ([c] + b);
      TakeWordAppend(a, [c] + b);
      assert s[0] == a[0] && TakeWord(s) == w;
      assert s[|w|..] == a[|w|..] + [c] + b;
      SplitAtSpace(a[|w|..], c, b);
    }
  }

  /** A single word splits into itself. */
  lemma SplitOfWord(w: string)
    requires IsWord(w)
    ensures Split(w) == [w]
  {
    TakeWordOfWord(w, []);
    assert w + [] == w;
    assert w[|w|..] == [];
  }

  // ---------------------------------------------------------------------
  // str.replace("\r\n", "\n")
  // ---------------------------------------------------------------------

  /** `s.replace("\r\n", "\n")`, scanning left to right. */
  function ReplaceCRLF(s: string): (r: string)
    ensures |r| <= |s|
    decreases |s|
  {
    if |s| >= 2 && s[0] == '\r' && s[1] == '\n' then "\n" + ReplaceCRLF(s[2..])
    else if s == [] then []
    else [s[0]] + ReplaceCRLF(s[1..])
  }

  /** The replacement works piecewise on two texts, unless the first ends in
      a carriage return and the second starts with a line feed. */
  lemma {:induction false} ReplaceCRLFConcat(a: string, b: string)
    requires a == [] || b == [] || !(a[|a| - 1] == '\r' && b[0] == '\n')
    ensures ReplaceCRLF(a + b) == ReplaceCRLF(a) + ReplaceCRLF(b)
    decreases |a|
  {
    if a == [] {
      assert a + b == b && ReplaceCRLF(a) == [];
      assert [] + ReplaceCRLF(b) == ReplaceCRLF(b);
    } else {
      var head, n := ReplaceCRLFHead(a, b);
      var a' := a[n..];
      assert a' != [] ==> a'[|a'| - 1] == a[|a| - 1];
      ReplaceCRLFConcat(a', b);
      ConcatAssoc(head, ReplaceCRLF(a'), ReplaceCRLF(b));
    }
  }

  lemma ConcatAssoc(x: string, y: string, z: string)
    ensures (x + y) + z == x + (y + z)
  {
  }

  /** The scan takes the same head off `a + b` as off `a`: a line feed for a
      leading CRLF, otherwise the first character. */
  lemma ReplaceCRLFHead(a: string, b: string) returns (head: string, n: nat)
    requires a != []
    requires b == [] || !(a[|a| - 1] == '\r' && b[0] == '\n')
    ensures 1 <= n <= |a|
    ensures ReplaceCRLF(a) == head + ReplaceCRLF(a[n..])
    ensures ReplaceCRLF(a + b) == head + ReplaceCRLF(a[n..] + b)
  {
    var s := a + b;
    if |a| >= 2 && a[0] == '\r' && a[1] == '\n' {
      head, n := "\n", 2;
      assert s[0] == '\r' && s[1] == '\n' && s[2..] == a[2..] + b;
    } else {
      head, n := [a[0]], 1;
      assert s[0] == a[0] && s[1..] == a[1..] + b;
      assert |s| >= 2 ==> s[1] == if |a| >= 2 then a[1] else b[0];
    }
  }

  /** Each CRLF becomes a line feed and the text on either side is replaced
      on its own. */
  lemma ReplaceCRLFAtCRLF(a: string, b: string)
    ensures ReplaceCRLF(a + "\r\n" + b) == ReplaceCRLF(a) + "\n" + ReplaceCRLF(b)
  {
    var t := "\r\n" + b;
    assert a + "\r\n" + b == a + t;
    ReplaceCRLFConcat(a, t);
    assert t[0] == '\r' && t[1] == '\n' && t[2..] == b;
  }

  /** A text without a CRLF is left unchanged; in particular, a lone
      carriage return is kept. */
  lemma {:induction false} ReplaceCRLFWithoutCRLF(s: string)
    requires forall i :: 0 <= i < |s| - 1 ==> !(s[i] == '\r' && s[i + 1] == '\n')
    ensures ReplaceCRLF(s) == s
    decreases |s|
  {
    if s != [] {
      assert !(|s| >= 2 && s[0] == '\r' && s[1] == '\n');
      var t := s[1..];
      assert forall i :: 0 <= i < |t| ==> t[i] == s[i + 1];
      ReplaceCRLFWithoutCRLF(t);
    }
  }

  /** `s` with every carriage return removed. */
  function WithoutCR(s: string): (r: string)
    ensures forall i :: 0 <= i < |r| ==> r[i] != '\r'
    decreases |s|
  {
    if s == [] then [] else (if s[0] == '\r' then [] else [s[0]]) + WithoutCR(s[1..])
  }

  /** The replacement deletes carriage returns and nothing else: every other
      character survives, in order. */
  lemma {:induction false} ReplaceCRLFOnlyDropsCR(s: string)
    ensures WithoutCR(ReplaceCRLF(s)) == WithoutCR(s)
    decreases |s|
  {
    if |s| >= 2 && s[0] == '\r' && s[1] == '\n' {
      ReplaceCRLFOnlyDropsCR(s[2..]);
      var r := ReplaceCRLF(s[2..]);
      assert ("\n" + r)[1..] == r;
      assert s[1..][1..] == s[2..];
    } else if s != [] {
      ReplaceCRLFOnlyDropsCR(s[1..]);
      assert ([s[0]] + ReplaceCRLF(s[1..]))[1..] == ReplaceCRLF(s[1..]);
    }
  }

  /** The replacement does not leave a text free of CRLF: "\r\r\n" becomes "\r\n". */
  lemma ReplaceCRLFMayLeaveCRLF()
    ensures ReplaceCRLF("\r\r\n") == "\r\n"
  {
    assert "\r\r\n"[1..] == "\r\n";
    assert "\r\n"[2..] == [];
  }

  // ---------------------------------------------------------------------
  // Literal search
  // ---------------------------------------------------------------------

  /** Character equality, or equality after ASCII case folding. */
  predicate SameChar(c: char, d: char, ignoreCase: bool) {
    if ignoreCase then Fold(c) == Fold(d) else c == d
  }

  /** `lit` occurs in `s` starting at position `i`. */
  predicate OccursAt(s: string, i: nat, lit: string, ignoreCase: bool) {
    MatchesFrom(s, i, lit, ignoreCase, 0)
  }

  /** The characters of `lit` from the `k`-th on match `s` from `i + k` on. */
  predicate MatchesFrom(s: string, i: nat, lit: string, ignoreCase: bool, k: nat)
    decreases |lit| - k
  {
    if k >= |lit| then i + |lit| <= |s|
    else i + k < |s| && SameChar(s[i + k], lit[k], ignoreCase) && MatchesFrom(s, i, lit, ignoreCase, k + 1)
  }

  lemma {:induction false} MatchesFromAll(s: string, i: nat, lit: string, ignoreCase: bool, k: nat)
    requires k <= |lit|
    ensures MatchesFrom(s, i, lit, ignoreCase, k) <==>
              i + |lit| <= |s| && forall m :: k <= m < |lit| ==> SameChar(s[i + m], lit[m], ignoreCase)
    decreases |lit| - k
  {
    if k < |lit| {
      MatchesFromAll(s, i, lit, ignoreCase, k + 1);
    }
  }

  /** An occurrence is a character-by-character match that fits in `s`. */
  lemma OccursAtAll(s: string, i: nat, lit: string, ignoreCase: bool)
    ensures OccursAt(s, i, lit, ignoreCase) <==>
              i + |lit| <= |s| && forall m :: 0 <= m < |lit| ==> SameChar(s[i + m], lit[m], ignoreCase)
  {
    MatchesFromAll(s, i, lit, ignoreCase, 0);
  }

  /** One character that differs, even after folding, rules an occurrence out. */
  lemma MismatchAt(s: string, i: nat, lit: string, k: nat, ignoreCase: bool)
    ensures k < |lit| && i + k < |s| && !SameChar(s[i + k], lit[k], ignoreCase) ==> !OccursAt(s, i, lit, ignoreCase)
  {
    OccursAtAll(s, i, lit, ignoreCase);
  }

  lemma OccursAtBound(s: string, i: nat, lit: string, ignoreCase: bool)
    requires OccursAt(s, i, lit, ignoreCase)
    ensures i + |lit| <= |s|
  {
    OccursAtAll(s, i, lit, ignoreCase);
  }

  /** A case-sensitive occurrence is equality of the slice with the literal. */
  lemma OccursAtIsSlice(s: string, i: nat, lit: string)
    ensures OccursAt(s, i, lit, false) <==> i + |lit| <= |s| && s[i..i + |lit|] == lit
  {
    OccursAtAll(s, i, lit, false);
    if i + |lit| <= |s| && s[i..i + |lit|] == lit {
      assert forall m :: 0 <= m < |lit| ==> lit[m] == s[i..i + |lit|][m] == s[i + m];
    }
  }

  /** A case-sensitive occurrence is also one when case is ignored. */
  lemma OccursAtIgnoringCase(s: string, i: nat, lit: string)
    requires OccursAt(s, i, lit, false)
    ensures OccursAt(s, i, lit, true)
  {
    OccursAtAll(s, i, lit, false);
    OccursAtAll(s, i, lit, true);
  }

  /** An occurrence inside the window `s[d..e]` is an occurrence in `s`, shifted by `d`. */
  lemma OccursAtWindow(s: string, d: nat, e: nat, i: nat, lit: string, ignoreCase: bool)
    requires d <= e <= |s| && d + i + |lit| <= e
    ensures OccursAt(s, d + i, lit, ignoreCase) <==> OccursAt(s[d..e], i, lit, ignoreCase)
  {
    OccursAtAll(s, d + i, lit, ignoreCase);
    OccursAtAll(s[d..e], i, lit, ignoreCase);
    assert forall m :: 0 <= m < |lit| ==>
      s[d..e][i + m] == s[d + i + m] &&
      (SameChar(s[d..e][i + m], lit[m], ignoreCase) <==> SameChar(s[d + i + m], lit[m], ignoreCase));
  }

  /** The leftmost position at or after `from` where `lit` occurs. */
  function Find(s: string, lit: string, from: nat, ignoreCase: bool): (r: Option<nat>)
    ensures r.Some? ==> from <= r.value && OccursAt(s, r.value, lit, ignoreCase)
    ensures r.Some? ==> forall j :: from <= j < r.value ==> !OccursAt(s, j, lit, ignoreCase)
    ensures r.None? ==> forall j :: from <= j ==> !OccursAt(s, j, lit, ignoreCase)
    decreases |s| - from
  {
    if from + |lit| > |s| then
      assert forall j :: from <= j ==> !OccursAt(s, j, lit, ignoreCase) by {
        forall j | from <= j && OccursAt(s, j, lit, ignoreCase) ensures false {
          OccursAtBound(s, j, lit, ignoreCase);
        }
      }
      None
    else if OccursAt(s, from, lit, ignoreCase) then Some(from)
    else Find(s, lit, from + 1, ignoreCase)
  }

  // ---------------------------------------------------------------------
  // str(n) and int(s)
  // ---------------------------------------------------------------------

  function Digit(d: nat): (c: char)
    requires d < 10
    ensures IsDigit(c) && c as int - '0' as int == d
  {
    ('0' as int + d) as char
  }

  predicate IsDecimal(s: string) {
    s != [] && forall i :: 0 <= i < |s| ==> IsDigit(s[i])
  }

  /** The number a string of decimal digits denotes. */
  function DecimalValue(s: string): nat
    requires forall i :: 0 <= i < |s| ==> IsDigit(s[i])
    decreases |s|
  {
    if s == [] then 0
    else
      assert IsDigit(s[|s| - 1]);
      DecimalValue(s[..|s| - 1]) * 10 + (s[|s| - 1] as int - '0' as int)
  }

  /** `str(n)` for a natural number: its decimal digits, without leading zeros. */
  function NatToString(n: nat): (s: string)
    ensures IsDecimal(s)
    ensures |s| > 1 ==> s[0] != '0'
    decreases n
  {
    if n < 10 then [Digit(n)] else NatToString(n / 10) + [Digit(n % 10)]
  }

  /** Reading back the decimal digits of `n` gives `n`. */
  lemma {:induction false} DecimalOfNatToString(n: nat)
    ensures DecimalValue(NatToString(n)) == n
    decreases n
  {
    if n >= 10 {
      DecimalOfNatToString(n / 10);
      var s := NatToString(n);
      assert s[..|s| - 1] == NatToString(n / 10);
    }
  }

  /** `int(s)` on a str: surrounding whitespace, an optional sign, then at
      least one decimal digit; None stands for the ValueError. */
  function ParseInt(s: string): (r: Option<int>)
  {
    var t := Strip(s);
    if t != [] && (t[0] == '+' || t[0] == '-') then
      if IsDecimal(t[1..]) then
        var magnitude: int := DecimalValue(t[1..]);
        Some(if t[0] == '-' then -magnitude else magnitude)
      else None
    else if IsDecimal(t) then Some(DecimalValue(t))
    else None
  }

  /** A string of decimal digits has no whitespace to strip. */
  lemma StripDecimal(s: string)
    requires IsDecimal(s)
    ensures Strip(s) == s
  {
    assert !IsSpace(s[0]);
    assert StripLeft(s) == s;
    assert !IsSpace(s[|s| - 1]);
    assert StripRight(s) == s;
  }

  /** `int(s)` of decimal digits is the number they denote. */
  lemma ParseIntOfDecimal(s: string)
    requires IsDecimal(s)
    ensures ParseInt(s) == Some(DecimalValue(s) as int)
  {
    StripDecimal(s);
    assert s[0] != '+' && s[0] != '-';
  }

  /** `int(str(n)) == n`, and `int("")` raises. */
  lemma ParseIntOfNatToString(n: nat)
    ensures ParseInt(NatToString(n)) == Some(n)
    ensures ParseInt("") == None
  {
    ParseIntOfDecimal(NatToString(n));
    DecimalOfNatToString(n);
  }

}
