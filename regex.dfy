/**
 * The two regular expressions of build_data.py are IGNORECASE alternations of
 * literal phrases, `_MODERN_RE` with a `\b` on both sides of every phrase and
 * `HEADER_RE` without. This module gives `search` and `finditer` for such an
 * alternation: the leftmost position where some alternative matches, the
 * first alternative in pattern order at that position, and, for `finditer`,
 * the next search resuming where the previous match ended.
 */
module Regex {
  import opened Py
  import opened PyStr

  /** The span of a match object: `m.start()` and `m.end()`. */
  datatype Match = Match(start: nat, end: nat)

  /** A span lies within `s`. */
  predicate InText(s: string, m: Match) {
    m.start <= m.end <= |s|
  }

  /** `\b` at position `j`: a word character on exactly one side. */
  predicate WordBoundary(s: string, j: nat) {
    (0 < j <= |s| && IsWordChar(s[j - 1])) != (j < |s| && IsWordChar(s[j]))
  }

  /** The alternative `alt` matches at `i`, ignoring case, with `\b` on both
      sides when `bounded`. */
  predicate AltMatchesAt(s: string, i: nat, alt: string, bounded: bool) {
    OccursAt(s, i, alt, true) && (bounded ==> WordBoundary(s, i) && WordBoundary(s, i + |alt|))
  }

  /** Every alternative is a non-empty phrase. */
  predicate NonEmptyAlts(alts: seq<string>) {
    forall k :: 0 <= k < |alts| ==> alts[k] != []
  }

  /** Which alternative, from the `k`-th on, matches first at `i`. */
  function FirstAlt(s: string, i: nat, alts: seq<string>, bounded: bool, k: nat): (r: Option<nat>)
    ensures r.Some? ==> k <= r.value < |alts| && AltMatchesAt(s, i, alts[r.value], bounded)
    ensures r.Some? ==> forall a :: k <= a < r.value ==> !AltMatchesAt(s, i, alts[a], bounded)
    ensures r.None? ==> forall a :: k <= a < |alts| ==> !AltMatchesAt(s, i, alts[a], bounded)
    decreases |alts| - k
  {
    if k >= |alts| then None
    else if AltMatchesAt(s, i, alts[k], bounded) then Some(k)
    else FirstAlt(s, i, alts, bounded, k + 1)
  }

  /** Some alternative matches at `i`. */
  predicate MatchesAt(s: string, i: nat, alts: seq<string>, bounded: bool) {
    exists a :: 0 <= a < |alts| && AltMatchesAt(s, i, alts[a], bounded)
  }

  /** `pattern.search(s, from)`. */
  function SearchFrom(s: string, alts: seq<string>, bounded: bool, from: nat): (r: Option<Match>)
    ensures r.Some? ==> from <= r.value.start && InText(s, r.value)
    ensures r.Some? ==> exists a :: 0 <= a < |alts| && AltMatchesAt(s, r.value.start, alts[a], bounded)
                                    && r.value.end == r.value.start + |alts[a]|
    ensures r.Some? ==> var a := FirstAlt(s, r.value.start, alts, bounded, 0);
                        a.Some? && a.value < |alts| && r.value.end == r.value.start + |alts[a.value]|
    ensures r.Some? ==> forall j :: from <= j < r.value.start ==> !MatchesAt(s, j, alts, bounded)
    ensures r.None? ==> forall j :: from <= j ==> !MatchesAt(s, j, alts, bounded)
    decreases |s| + 1 - from
  {
    if from > |s| then
      None
    else
      match FirstAlt(s, from, alts, bounded, 0)
      case Some(a) =>
        OccursAtBound(s, from, alts[a], true);
        Some(Match(from, from + |alts[a]|))
      case None => SearchFrom(s, alts, bounded, from + 1)
  }

  /** The first alternative that matches at `i` is the one `FirstAlt` picks. */
  lemma {:induction false} FirstAltIs(s: string, i: nat, alts: seq<string>, bounded: bool, k: nat, a: nat)
    requires k <= a < |alts| && AltMatchesAt(s, i, alts[a], bounded)
    requires forall c :: k <= c < a ==> !AltMatchesAt(s, i, alts[c], bounded)
    ensures FirstAlt(s, i, alts, bounded, k) == Some(a)
    decreases a - k
  {
    if k < a {
      FirstAltIs(s, i, alts, bounded, k + 1, a);
    }
  }

  /** `search` reports the leftmost position where an alternative matches,
      with the first alternative that matches there. */
  lemma SearchFromAt(s: string, alts: seq<string>, bounded: bool, from: nat, i: nat, a: nat)
    requires from <= i && a < |alts| && AltMatchesAt(s, i, alts[a], bounded)
    requires forall c :: 0 <= c < a ==> !AltMatchesAt(s, i, alts[c], bounded)
    requires forall j :: from <= j < i ==> !MatchesAt(s, j, alts, bounded)
    ensures SearchFrom(s, alts, bounded, from) == Some(Match(i, i + |alts[a]|))
  {
    FirstAltIs(s, i, alts, bounded, 0, a);
    assert MatchesAt(s, i, alts, bounded);
    var r := SearchFrom(s, alts, bounded, from);
    assert r.Some?;
    var c :| 0 <= c < |alts| && AltMatchesAt(s, r.value.start, alts[c], bounded);
    assert MatchesAt(s, r.value.start, alts, bounded);
    assert r.value.start == i;
  }

  /** `pattern.finditer(s)` from position `from`: each search resumes where the
      previous match ended. */
  function FindIter(s: string, alts: seq<string>, bounded: bool, from: nat): (ms: seq<Match>)
    requires NonEmptyAlts(alts)
    ensures forall k :: 0 <= k < |ms| ==> from <= ms[k].start < ms[k].end && InText(s, ms[k])
    ensures forall k :: 0 <= k < |ms| ==> MatchesAt(s, ms[k].start, alts, bounded)
    ensures forall k :: 0 < k < |ms| ==> ms[k - 1].end <= ms[k].start
    decreases |s| + 1 - from
  {
    match SearchFrom(s, alts, bounded, from)
    case None => []
    case Some(m) => [m] + FindIter(s, alts, bounded, m.end)
  }

  /** `finditer` skips no match: each match is the leftmost one from where its
      search began, and it ends after the first alternative that matches at
      its start. */
  lemma {:induction false} FindIterComplete(s: string, alts: seq<string>, bounded: bool, from: nat)
    requires NonEmptyAlts(alts)
    ensures Complete(s, FindIter(s, alts, bounded, from), from, alts, bounded)
    decreases |s| + 1 - from
  {
    var r := SearchFrom(s, alts, bounded, from);
    if r.Some? {
      var m := r.value;
      var rest := FindIter(s, alts, bounded, m.end);
      assert FindIter(s, alts, bounded, from) == [m] + rest;
      FindIterComplete(s, alts, bounded, m.end);
      CompleteCons(s, alts, bounded, from, m, rest);
    }
  }

  /** A leftmost first match ending after its first alternative, followed by
      matches complete from its end, is complete. */
  lemma CompleteCons(s: string, alts: seq<string>, bounded: bool, from: nat, m: Match, rest: seq<Match>)
    requires EndsAfterFirstAlt(s, m, alts, bounded)
    requires forall j :: from <= j < m.start ==> !MatchesAt(s, j, alts, bounded)
    requires Complete(s, rest, m.end, alts, bounded)
    ensures Complete(s, [m] + rest, from, alts, bounded)
  {
    var ms := [m] + rest;
    assert LeftmostFrom(s, ms, from, 0, alts, bounded);
    forall k | 0 < k < |ms|
      ensures EndsAfterFirstAlt(s, ms[k], alts, bounded) && LeftmostFrom(s, ms, from, k, alts, bounded)
    {
      assert ms[k] == rest[k - 1];
      assert ResumeAt(ms, from, k) == ResumeAt(rest, m.end, k - 1);
      assert EndsAfterFirstAlt(s, rest[k - 1], alts, bounded) && LeftmostFrom(s, rest, m.end, k - 1, alts, bounded);
    }
  }

  /** `finditer` is the only sequence of matches, each found at or after
      where the previous one ended, that skips no match, ends each match
      after its first matching alternative and leaves nothing to match after
      the last. */
  lemma {:induction false} FindIterUnique(s: string, alts: seq<string>, bounded: bool, from: nat, ms: seq<Match>)
    requires NonEmptyAlts(alts)
    requires Ordered(ms, from) && Complete(s, ms, from, alts, bounded)
    requires NoMatchFrom(s, if ms == [] then from else ms[|ms| - 1].end, alts, bounded)
    ensures ms == FindIter(s, alts, bounded, from)
    decreases |ms|
  {
    if ms == [] {
      FindIterEmptyIff(s, alts, bounded, from);
    } else {
      FindIterUniqueStep(s, alts, bounded, from, ms);
      FindIterUnique(s, alts, bounded, ms[0].end, ms[1..]);
      assert ms == [ms[0]] + ms[1..];
    }
  }

  /** Each match starts at or after where its search resumed. */
  predicate Ordered(ms: seq<Match>, from: nat) {
    forall k :: 0 <= k < |ms| ==> ResumeAt(ms, from, k) <= ms[k].start
  }

  /** No alternative matches at any position from `from` on. */
  ghost predicate NoMatchFrom(s: string, from: nat, alts: seq<string>, bounded: bool) {
    forall j :: from <= j ==> !MatchesAt(s, j, alts, bounded)
  }

  /** One step of `FindIterUnique`: the first match is `finditer`'s first,
      and the rest meets the same requirements from its end. */
  lemma FindIterUniqueStep(s: string, alts: seq<string>, bounded: bool, from: nat, ms: seq<Match>)
    requires NonEmptyAlts(alts) && ms != []
    requires Ordered(ms, from) && Complete(s, ms, from, alts, bounded)
    requires NoMatchFrom(s, ms[|ms| - 1].end, alts, bounded)
    ensures FindIter(s, alts, bounded, from) == [ms[0]] + FindIter(s, alts, bounded, ms[0].end)
    ensures var rest := ms[1..];
            && Ordered(rest, ms[0].end) && Complete(s, rest, ms[0].end, alts, bounded)
            && NoMatchFrom(s, if rest == [] then ms[0].end else rest[|rest| - 1].end, alts, bounded)
  {
    FirstOfComplete(s, alts, bounded, from, ms);
    FindIterFirst(s, alts, bounded, from, ms[0]);
    CompleteTail(s, alts, bounded, from, ms);
    LastOfTail(s, alts, bounded, ms);
  }

  /** The first match of a complete, ordered sequence is the leftmost one
      from `from` and ends after its first alternative. */
  lemma FirstOfComplete(s: string, alts: seq<string>, bounded: bool, from: nat, ms: seq<Match>)
    requires ms != [] && Ordered(ms, from) && Complete(s, ms, from, alts, bounded)
    ensures from <= ms[0].start && EndsAfterFirstAlt(s, ms[0], alts, bounded)
    ensures forall j :: from <= j < ms[0].start ==> !MatchesAt(s, j, alts, bounded)
  {
    assert ResumeAt(ms, from, 0) == from;
    assert EndsAfterFirstAlt(s, ms[0], alts, bounded) && LeftmostFrom(s, ms, from, 0, alts, bounded);
  }

  /** Nothing matches after the last match of the tail either. */
  lemma LastOfTail(s: string, alts: seq<string>, bounded: bool, ms: seq<Match>)
    requires ms != [] && NoMatchFrom(s, ms[|ms| - 1].end, alts, bounded)
    ensures var rest := ms[1..];
            NoMatchFrom(s, if rest == [] then ms[0].end else rest[|rest| - 1].end, alts, bounded)
  {
    var rest := ms[1..];
    if rest != [] {
      assert rest[|rest| - 1] == ms[|ms| - 1];
    }
  }

  /** A leftmost match ending after its first alternative is what `finditer`
      reports first. */
  lemma FindIterFirst(s: string, alts: seq<string>, bounded: bool, from: nat, m: Match)
    requires NonEmptyAlts(alts) && from <= m.start && EndsAfterFirstAlt(s, m, alts, bounded)
    requires forall j :: from <= j < m.start ==> !MatchesAt(s, j, alts, bounded)
    ensures FindIter(s, alts, bounded, from) == [m] + FindIter(s, alts, bounded, m.end)
  {
    var a := FirstAlt(s, m.start, alts, bounded, 0).value;
    SearchFromAt(s, alts, bounded, from, m.start, a);
  }

  /** The matches after the first, searched from the first one's end, keep
      the properties. */
  lemma CompleteTail(s: string, alts: seq<string>, bounded: bool, from: nat, ms: seq<Match>)
    requires ms != [] && Complete(s, ms, from, alts, bounded) && Ordered(ms, from)
    ensures Ordered(ms[1..], ms[0].end) && Complete(s, ms[1..], ms[0].end, alts, bounded)
  {
    var rest := ms[1..];
    forall k | 0 <= k < |rest|
      ensures ResumeAt(rest, ms[0].end, k) <= rest[k].start
      ensures EndsAfterFirstAlt(s, rest[k], alts, bounded) && LeftmostFrom(s, rest, ms[0].end, k, alts, bounded)
    {
      assert rest[k] == ms[k + 1];
      assert ResumeAt(rest, ms[0].end, k) == ResumeAt(ms, from, k + 1);
      assert EndsAfterFirstAlt(s, ms[k + 1], alts, bounded) && LeftmostFrom(s, ms, from, k + 1, alts, bounded);
    }
  }

  /** Every match of `ms` is the leftmost one from where its search began and
      ends after the first alternative that matches at its start. */
  predicate Complete(s: string, ms: seq<Match>, from: nat, alts: seq<string>, bounded: bool) {
    forall k :: 0 <= k < |ms| ==> EndsAfterFirstAlt(s, ms[k], alts, bounded) && LeftmostFrom(s, ms, from, k, alts, bounded)
  }

  /** Where the search that found match `k` began: `from` for the first
      match, the end of the previous match for the others. */
  function ResumeAt(ms: seq<Match>, from: nat, k: nat): nat
    requires k < |ms|
  {
    if k == 0 then from else ms[k - 1].end
  }

  /** No alternative matches between where the search for match `k` began
      and that match's start. */
  predicate LeftmostFrom(s: string, ms: seq<Match>, from: nat, k: nat, alts: seq<string>, bounded: bool)
    requires k < |ms|
  {
    forall j :: ResumeAt(ms, from, k) <= j < ms[k].start ==> !MatchesAt(s, j, alts, bounded)
  }

  /** A match ends after the first alternative, in pattern order, that
      matches at its start. */
  predicate EndsAfterFirstAlt(s: string, m: Match, alts: seq<string>, bounded: bool) {
    var a := FirstAlt(s, m.start, alts, bounded, 0);
    a.Some? && a.value < |alts| && m.end == m.start + |alts[a.value]|
  }

  /** `finditer` finds nothing exactly when no alternative matches at or after `from`. */
  lemma FindIterEmptyIff(s: string, alts: seq<string>, bounded: bool, from: nat)
    requires NonEmptyAlts(alts)
    ensures FindIter(s, alts, bounded, from) == [] <==> forall j :: from <= j ==> !MatchesAt(s, j, alts, bounded)
  {
    var r := SearchFrom(s, alts, bounded, from);
    if r.Some? {
      assert MatchesAt(s, r.value.start, alts, bounded);
    }
  }

  /** After the last match `finditer` returns, no alternative matches at any
      position from that match's end on. */
  lemma {:induction false} FindIterLast(s: string, alts: seq<string>, bounded: bool, from: nat)
    requires NonEmptyAlts(alts)
    requires FindIter(s, alts, bounded, from) != []
    ensures var ms := FindIter(s, alts, bounded, from);
            forall j :: ms[|ms| - 1].end <= j ==> !MatchesAt(s, j, alts, bounded)
    decreases |s| + 1 - from
  {
    var m := SearchFrom(s, alts, bounded, from).value;
    var rest := FindIter(s, alts, bounded, m.end);
    var ms := FindIter(s, alts, bounded, from);
    assert ms == [m] + rest;
    if rest == [] {
      FindIterEmptyIff(s, alts, bounded, m.end);
    } else {
      FindIterLast(s, alts, bounded, m.end);
      assert ms[|ms| - 1] == rest[|rest| - 1];
    }
  }

  /** `finditer` leaves nothing to match: from `from` when it finds nothing,
      otherwise from its last match's end. */
  lemma FindIterExhausts(s: string, alts: seq<string>, bounded: bool, from: nat)
    requires NonEmptyAlts(alts)
    ensures var ms := FindIter(s, alts, bounded, from);
            NoMatchFrom(s, if ms == [] then from else ms[|ms| - 1].end, alts, bounded)
  {
    FindIterEmptyIff(s, alts, bounded, from);
    if FindIter(s, alts, bounded, from) != [] {
      FindIterLast(s, alts, bounded, from);
    }
  }
}
