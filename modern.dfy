/**
 * The anachronism check of build_data.py: `_MODERN_RE`, `is_obvious_modern`,
 * and the audit snippet `extract_snippet` with the per-record audit entry
 * `debug_is_obvious_modern` writes.
 */
module Modern {
  import opened Py
  import opened PyStr
  import opened Regex

  /** The phrases of `_MODERN_PATTERNS` in pattern order, with the groups
      `(general|special)` and `(?:mechanics|theory)` spelled out. */
  const ModernTerms: seq<string> := [
    "general relativity", "special relativity",
    "quantum mechanics", "quantum theory",
    "airplane", "television", "computer", "internet",
    "jet engine", "laser", "smartphone"
  ]

  /** `_SNIPPET_LEN` */
  const SnippetLen: int := 50

  /** `_MODERN_RE.search(text)` */
  function ModernSearch(text: string): Option<Match> {
    SearchFrom(text, ModernTerms, true, 0)
  }

  /** `is_obvious_modern(text)` */
  predicate IsObviousModern(text: string) {
    ModernSearch(text).Some?
  }

  /** A modern term occurs at `i`, ignoring case, with a word boundary on both sides. */
  predicate ModernTermAt(text: string, i: nat, term: string) {
    term in ModernTerms && OccursAt(text, i, term, true)
    && WordBoundary(text, i) && WordBoundary(text, i + |term|)
  }

  /** A text is flagged exactly when some modern term occurs in it at word
      boundaries, in any letter case. */
  lemma IsObviousModernIff(text: string)
    ensures IsObviousModern(text) <==> exists i: nat, term :: ModernTermAt(text, i, term)
  {
    var r := ModernSearch(text);
    if r.Some? {
      var a :| 0 <= a < |ModernTerms| && AltMatchesAt(text, r.value.start, ModernTerms[a], true);
      assert ModernTermAt(text, r.value.start, ModernTerms[a]);
    } else {
      forall i: nat, term ensures !ModernTermAt(text, i, term) {
        TermAtMatches(text, i, term);
      }
    }
  }

  lemma TermAtMatches(text: string, i: nat, term: string)
    ensures ModernTermAt(text, i, term) ==> MatchesAt(text, i, ModernTerms, true)
  {
    if term in ModernTerms {
      var a :| 0 <= a < |ModernTerms| && ModernTerms[a] == term;
      assert ModernTermAt(text, i, term) ==> AltMatchesAt(text, i, ModernTerms[a], true);
    }
  }

  /** "internet" as a word, in any letter case, flags a text. */
  lemma InternetIsModern(text: string, i: nat)
    requires OccursAt(text, i, "internet", true)
    requires WordBoundary(text, i) && WordBoundary(text, i + 8)
    ensures IsObviousModern(text)
  {
    assert ModernTermAt(text, i, "internet");
    IsObviousModernIff(text);
  }

  /** `m.group()` */
  function Group(text: string, m: Match): string
    requires InText(text, m)
  {
    text[m.start..m.end]
  }

  /** Every modern phrase starts with a lower-case ASCII letter. */
  lemma TermsStartWithLetters()
    ensures forall a :: 0 <= a < |ModernTerms| ==> ModernTerms[a] != [] && 'a' <= ModernTerms[a][0] <= 'z'
  {
  }

  /** A modern phrase matches only where its first letter is, up to case. */
  lemma FirstLetterAt(text: string, i: nat, a: nat)
    requires a < |ModernTerms|
    ensures AltMatchesAt(text, i, ModernTerms[a], true) ==> i < |text| && Fold(text[i]) == ModernTerms[a][0]
  {
    TermsStartWithLetters();
  }

  /** A modern phrase matches only at the start of a word. */
  lemma MatchStartsWord(text: string, i: nat)
    ensures MatchesAt(text, i, ModernTerms, true) ==>
              i < |text| && IsWordChar(text[i]) && (i == 0 || !IsWordChar(text[i - 1]))
  {
    if MatchesAt(text, i, ModernTerms, true) {
      var a :| 0 <= a < |ModernTerms| && AltMatchesAt(text, i, ModernTerms[a], true);
      FirstLetterAt(text, i, a);
      TermsStartWithLetters();
    }
  }

  /** "The television was invented in the 20th century." is flagged, the match
      being "television". */
  lemma TelevisionExample()
    ensures var text := "The " + "television" + " was" + " invented" + " in the 20th century.";
            ModernSearch(text) == Some(Match(4, 14)) && Group(text, Match(4, 14)) == "television"
  {
    var text := "The " + "television" + " was" + " invented" + " in the 20th century.";
    assert text[4..14] == "television";
    NoMatchInFirstWord(text);
    TelevisionAtFour(text);
    SearchFromAt(text, ModernTerms, true, 0, 4, 5);
  }

  lemma NoMatchInFirstWord(text: string)
    requires text == "The " + "television" + " was" + " invented" + " in the 20th century."
    ensures forall j :: 0 <= j < 4 ==> !MatchesAt(text, j, ModernTerms, true)
  {
    NoMatchAtZero(text);
    assert text[0] == 'T' && text[1] == 'h' && text[2] == 'e' && text[3] == ' ';
    // 1 and 2 are inside the word "The", and 3 is the space after it.
    forall j | 0 < j < 4 ensures !MatchesAt(text, j, ModernTerms, true) {
      MatchStartsWord(text, j);
    }
  }

  /** At 0 only "television" has the right first letter, and it is not there. */
  lemma NoMatchAtZero(text: string)
    requires text == "The " + "television" + " was" + " invented" + " in the 20th century."
    ensures !MatchesAt(text, 0, ModernTerms, true)
  {
    assert text[0] == 'T' && text[1] == 'h';
    TermsStartWithLetters();
    forall a | 0 <= a < |ModernTerms| ensures !AltMatchesAt(text, 0, ModernTerms[a], true) {
      FirstLetterAt(text, 0, a);
      if a == 5 {
        MismatchAt(text, 0, ModernTerms[a], 1, true);
      }
    }
  }

  lemma TelevisionAtFour(text: string)
    requires text == "The " + "television" + " was" + " invented" + " in the 20th century."
    ensures AltMatchesAt(text, 4, ModernTerms[5], true)
    ensures forall a :: 0 <= a < 5 ==> !AltMatchesAt(text, 4, ModernTerms[a], true)
  {
    assert text[3] == ' ' && text[4] == 't' && text[13] == 'n' && text[14] == ' ';
    assert text[4..14] == "television" == ModernTerms[5];
    TermsStartWithLetters();
    forall a | 0 <= a < 5 ensures !AltMatchesAt(text, 4, ModernTerms[a], true) {
      FirstLetterAt(text, 4, a);
    }
    OccursAtIsSlice(text, 4, ModernTerms[5]);
    OccursAtIgnoringCase(text, 4, ModernTerms[5]);
  }

  /** A single word matches, if at all, only at its start. */
  lemma OnlyAtStart(word: string)
    requires forall k :: 0 <= k < |word| ==> IsWordChar(word[k])
    requires !MatchesAt(word, 0, ModernTerms, true)
    ensures !IsObviousModern(word)
  {
    forall j: nat ensures !MatchesAt(word, j, ModernTerms, true) {
      MatchStartsWord(word, j);
    }
  }

  lemma ComputersNotFlagged(word: string)
    requires word == "computers"
    ensures !IsObviousModern(word)
  {
    TermsStartWithLetters();
    assert !WordBoundary(word, 8);
    forall a | 0 <= a < |ModernTerms| ensures !AltMatchesAt(word, 0, ModernTerms[a], true) {
      FirstLetterAt(word, 0, a);
    }
    OnlyAtStart(word);
  }

  lemma LasersNotFlagged(word: string)
    requires word == "lasers"
    ensures !IsObviousModern(word)
  {
    TermsStartWithLetters();
    assert !WordBoundary(word, 5);
    forall a | 0 <= a < |ModernTerms| ensures !AltMatchesAt(word, 0, ModernTerms[a], true) {
      FirstLetterAt(word, 0, a);
    }
    OnlyAtStart(word);
  }

  lemma RelativityNotFlagged(word: string)
    requires word == "relativity"
    ensures !IsObviousModern(word)
  {
    TermsStartWithLetters();
    OnlyAtStart(word);
  }

  /** Word boundaries matter: plurals and a bare "relativity" are not flagged. */
  lemma WordBoundaryExamples()
    ensures !IsObviousModern("computers")
    ensures !IsObviousModern("lasers")
    ensures !IsObviousModern("relativity")
  {
    ComputersNotFlagged("computers");
    LasersNotFlagged("lasers");
    RelativityNotFlagged("relativity");
  }

  /** The two-word phrases are flagged. */
  lemma PhraseExamples(text: string)
    requires text == "general relativity" || text == "special relativity"
             || text == "quantum mechanics" || text == "quantum theory"
    ensures IsObviousModern(text)
  {
    if text == "general relativity" {
      PhraseAtStart(text, 0);
    } else if text == "special relativity" {
      PhraseAtStart(text, 1);
    } else if text == "quantum mechanics" {
      PhraseAtStart(text, 2);
    } else {
      PhraseAtStart(text, 3);
    }
  }

  /** A text that is exactly the `a`-th modern phrase is flagged. */
  lemma PhraseAtStart(text: string, a: nat)
    requires a < |ModernTerms| && text == ModernTerms[a]
    ensures IsObviousModern(text)
  {
    TermsStartWithLetters();
    OccursAtIsSlice(text, 0, text);
    OccursAtIgnoringCase(text, 0, text);
    assert AltMatchesAt(text, 0, ModernTerms[a], true);
  }

  // ---------------------------------------------------------------------
  // extract_snippet and the audit entry
  // ---------------------------------------------------------------------

  /** `extract_snippet(text, match, context_len)`: the match offset, a colon,
      then the text from `context_len // 2` characters before the match to the
      rest of `context_len` after it. */
  function ExtractSnippet(text: string, m: Match, contextLen: int): string
    requires InText(text, m)
  {
    var pre := contextLen / 2;
    var post := contextLen - pre;
    var start := if m.start - pre > 0 then m.start - pre else 0;
    var end := if m.end + post < |text| then m.end + post else |text|;
    NatToString(m.start) + ":" + Slice(text, start, end)
  }

  /** The snippet's window `[max(0, start - pre), min(len, end + post))`, with
      `pre + post == context_len`, lies within the text and holds the whole
      match; `pre` and `post` are equal for an even `context_len` and `post`
      is one more for an odd one; the window is at most `context_len` longer
      than the match, and exactly that when it is not clipped. */
  lemma SnippetWindow(text: string, m: Match, contextLen: int) returns (lo: nat, hi: nat)
    requires InText(text, m) && contextLen >= 0
    ensures var pre := contextLen / 2;
            var post := contextLen - pre;
            && pre + post == contextLen && 0 <= pre <= post && post - pre == contextLen % 2
            && lo == (if m.start - pre > 0 then m.start - pre else 0)
            && hi == (if m.end + post < |text| then m.end + post else |text|)
            && lo <= m.start <= m.end <= hi <= |text|
            && ExtractSnippet(text, m, contextLen) == NatToString(m.start) + ":" + text[lo..hi]
            && hi - lo <= (m.end - m.start) + contextLen
            && (pre <= m.start && m.end + post <= |text| ==> hi - lo == (m.end - m.start) + contextLen)
  {
    var pre := contextLen / 2;
    var post := contextLen - pre;
    lo := if m.start - pre > 0 then m.start - pre else 0;
    hi := if m.end + post < |text| then m.end + post else |text|;
  }

  /** The offset in front of the colon reads back as the match start. */
  lemma SnippetOffsetReadsBack(text: string, m: Match, contextLen: int)
    requires InText(text, m)
    ensures var snippet, digits := ExtractSnippet(text, m, contextLen), NatToString(m.start);
            && Find(snippet, ":", 0, false) == Some(|digits|)
            && ParseInt(snippet[..|digits|]) == Some(m.start as int)
  {
    var pre := contextLen / 2;
    var post := contextLen - pre;
    var start := if m.start - pre > 0 then m.start - pre else 0;
    var end := if m.end + post < |text| then m.end + post else |text|;
    var digits := NatToString(m.start);
    assert ExtractSnippet(text, m, contextLen) == digits + ":" + Slice(text, start, end);
    ColonAfterDigits(digits, Slice(text, start, end));
    ParseIntOfNatToString(m.start);
  }

  /** In digits, a colon, then anything, the first colon is the one after the digits. */
  lemma ColonAfterDigits(digits: string, rest: string)
    requires IsDecimal(digits)
    ensures var s := digits + ":" + rest;
            Find(s, ":", 0, false) == Some(|digits|) && s[..|digits|] == digits
  {
    var s := digits + ":" + rest;
    OccursAtIsSlice(s, |digits|, ":");
    assert s[|digits|..|digits| + 1] == ":";
    forall j | 0 <= j < |digits| ensures !OccursAt(s, j, ":", false) {
      OccursAtIsSlice(s, j, ":");
      assert s[j] == digits[j];
      assert s[j..j + 1][0] == s[j];
    }
    var r := Find(s, ":", 0, false);
    assert r.Some?;
    assert s[..|digits|] == digits;
  }

  /** What `debug_is_obvious_modern` records for one removed text: the matched
      term and the snippet around it, or no term and the text's first 50
      characters when the search finds nothing. */
  datatype AuditEntry = AuditEntry(matched: Option<string>, snippet: string)

  function Audit(text: string): AuditEntry {
    match ModernSearch(text)
    case Some(m) => AuditEntry(Some(Group(text, m)), ExtractSnippet(text, m, SnippetLen))
    case None => AuditEntry(None, Slice(text, 0, SnippetLen))
  }

  /** A flagged text's audit entry carries the matched text, which is the
      `a`-th modern phrase up to letter case. */
  lemma AuditOfFlagged(text: string) returns (a: nat)
    requires IsObviousModern(text)
    ensures Audit(text).matched.Some? && a < |ModernTerms|
    ensures var matched := Audit(text).matched.value;
            |ModernTerms[a]| == |matched| && OccursAt(matched, 0, ModernTerms[a], true)
  {
    var m := ModernSearch(text).value;
    a := FirstAlt(text, m.start, ModernTerms, true, 0).value;
    var term := ModernTerms[a];
    assert m.end == m.start + |term| && OccursAt(text, m.start, term, true);
    OccursAtWindow(text, m.start, m.end, 0, term, true);
    var matched := Group(text, m);
    assert Audit(text).matched == Some(matched);
    assert OccursAt(matched, 0, term, true);
  }
}
