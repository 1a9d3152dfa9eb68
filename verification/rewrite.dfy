/**
 * The scanning loop behind Python's `re.sub(pattern, repl, s)` and `s.replace(old, new)`.
 *
 * A pattern is modelled by a matcher: given the rest of the text, it says whether the
 * pattern matches at its very start, how many characters the match consumes, and what
 * the replacement writes in their place. `re.sub` then tries every position from left
 * to right; after a match it resumes behind it, elsewhere it keeps one character. None
 * of the patterns of the scripts can match the empty string, so every match advances.
 */
module Rewrite {
  import opened Wrappers
  import opened Text

  /** A match at the start of a text: the characters it consumes and the text written instead. */
  datatype Hit = Hit(len: nat, out: string)

  type Matcher = string -> Option<Hit>

  /** Every match consumes at least one character and no more than there are. */
  ghost predicate Advancing(m: Matcher) {
    forall t {:trigger m(t)} :: m(t).Some? ==> 0 < m(t).value.len <= |t|
  }

  /** `re.sub` with no count: replace every non-overlapping match, scanning left to right. */
  function Sub(s: string, m: Matcher): string
    requires Advancing(m)
    decreases |s|
  {
    if |s| == 0 then ""
    else match m(s)
      case Some(h) => h.out + Sub(s[h.len..], m)
      case None => [s[0]] + Sub(s[1..], m)
  }

  /** The pattern matches at no position of `s`. */
  ghost predicate HitsNowhere(s: string, m: Matcher) {
    forall i {:trigger m(s[i..])} :: 0 <= i < |s| ==> m(s[i..]).None?
  }

  /** A pattern that matches nowhere in a text matches nowhere in any suffix of it. */
  lemma HitsNowhereSuffix(s: string, q: nat, m: Matcher)
    requires q <= |s| && HitsNowhere(s, m)
    ensures HitsNowhere(s[q..], m)
  {
    forall i | 0 <= i < |s| - q ensures m(s[q..][i..]).None? {
      assert s[q..][i..] == s[q + i..];
    }
  }

  /** The first position at which the pattern matches (what `re.search` finds). */
  function FirstHit(s: string, m: Matcher): (r: Option<nat>)
    ensures r.Some? ==> r.value < |s| && m(s[r.value..]).Some?
    ensures r.Some? ==> forall i {:trigger m(s[i..])} :: 0 <= i < r.value ==> m(s[i..]).None?
    ensures r.None? <==> HitsNowhere(s, m)
  {
    FirstHitFrom(s, m, 0)
  }

  /** The first position at or after `q` at which the pattern matches. */
  function FirstHitFrom(s: string, m: Matcher, q: nat): (r: Option<nat>)
    ensures r.Some? ==> q <= r.value < |s| && m(s[r.value..]).Some?
    ensures r.Some? ==> forall i {:trigger m(s[i..])} :: q <= i < r.value ==> m(s[i..]).None?
    ensures r.None? <==> forall i {:trigger m(s[i..])} :: q <= i < |s| ==> m(s[i..]).None?
    decreases |s| - q
  {
    if q >= |s| then None
    else if m(s[q..]).Some? then Some(q)
    else FirstHitFrom(s, m, q + 1)
  }

  /** Two patterns found at the same places are first found at the same place. */
  lemma {:induction false} FirstHitSame(s: string, m1: Matcher, m2: Matcher, q: nat)
    requires forall t {:trigger m1(t)} {:trigger m2(t)} :: m1(t).Some? == m2(t).Some?
    ensures FirstHitFrom(s, m1, q) == FirstHitFrom(s, m2, q)
    decreases |s| - q
  {
    if q < |s| && m1(s[q..]).None? {
      FirstHitSame(s, m1, m2, q + 1);
    }
  }

  /** Text in front of the first match is copied unchanged. */
  lemma SubKeepsPrefix(s: string, m: Matcher, q: nat)
    requires Advancing(m)
    requires q <= |s| && forall i {:trigger m(s[i..])} :: 0 <= i < q ==> m(s[i..]).None?
    ensures Sub(s, m) == s[..q] + Sub(s[q..], m)
  {
    SubKeepsStretch(s, m, 0, q);
    assert s[0..] == s && s[0..q] == s[..q];
  }

  /** Between `p` and `q`, where the pattern matches nowhere, the scan copies every character. */
  lemma {:induction false} SubKeepsStretch(s: string, m: Matcher, p: nat, q: nat)
    requires Advancing(m)
    requires p <= q <= |s| && forall i {:trigger m(s[i..])} :: p <= i < q ==> m(s[i..]).None?
    ensures Sub(s[p..], m) == s[p..q] + Sub(s[q..], m)
    decreases q - p
  {
    if p < q {
      SubKeepsStretch(s, m, p + 1, q);
      SubKeepsOne(s, m, p);
      assert s[p..q] == [s[p]] + s[p + 1..q];
      AppendAssoc([s[p]], s[p + 1..q], Sub(s[q..], m));
    }
  }

  lemma AppendAssoc(a: string, b: string, c: string)
    ensures a + (b + c) == a + b + c
  {
  }

  /** Where the pattern does not match, the scan copies one character and moves on. */
  lemma SubKeepsOne(s: string, m: Matcher, p: nat)
    requires Advancing(m)
    requires p < |s| && m(s[p..]).None?
    ensures Sub(s[p..], m) == [s[p]] + Sub(s[p + 1..], m)
  {
    assert s[p..][1..] == s[p + 1..];
  }

  /** Where the pattern never matches, the rewrite is the identity. */
  lemma SubUnchanged(s: string, m: Matcher)
    requires Advancing(m) && HitsNowhere(s, m)
    ensures Sub(s, m) == s
  {
    SubKeepsPrefix(s, m, |s|);
    assert s[..|s|] == s;
  }

  /** If the pattern matches somewhere, the replacement of its first match appears in the result. */
  lemma SubShowsFirstHit(s: string, m: Matcher)
    requires Advancing(m) && FirstHit(s, m).Some?
    ensures Contains(Sub(s, m), m(s[FirstHit(s, m).value..]).value.out)
  {
    var q := FirstHit(s, m).value;
    var h := m(s[q..]).value;
    SubKeepsPrefix(s, m, q);
    assert Sub(s[q..], m) == h.out + Sub(s[q..][h.len..], m);
    ContainsSelf(h.out);
    ContainsLeft(h.out, Sub(s[q..][h.len..], m), h.out);
    ContainsRight(s[..q], Sub(s[q..], m), h.out);
  }

  /** `re.sub(pattern, repl, s, count=1)`: only the first match is replaced. */
  function SubFirst(s: string, m: Matcher): (r: string)
    requires Advancing(m)
    ensures FirstHit(s, m).None? ==> r == s
    ensures FirstHit(s, m).Some? ==>
      var q := FirstHit(s, m).value;
      var h := m(s[q..]).value;
      q + h.len <= |s| && r == s[..q] + h.out + s[q + h.len..]
  {
    match FirstHit(s, m)
    case None => s
    case Some(q) =>
      var h := m(s[q..]).value;
      s[..q] + h.out + s[q + h.len..]
  }

  /** If the pattern matches somewhere, the replacement of its first match appears in the result. */
  lemma SubFirstShowsHit(s: string, m: Matcher)
    requires Advancing(m) && FirstHit(s, m).Some?
    ensures Contains(SubFirst(s, m), m(s[FirstHit(s, m).value..]).value.out)
  {
    var q := FirstHit(s, m).value;
    var h := m(s[q..]).value;
    ContainsMiddle(s[..q], h.out, s[q + h.len..]);
  }

  /** Replacing only the first match is replacing them all when no other match follows it. */
  lemma SubFirstIsSub(s: string, m: Matcher)
    requires Advancing(m) && FirstHit(s, m).Some?
    requires HitsNowhere(s[FirstHit(s, m).value + m(s[FirstHit(s, m).value..]).value.len..], m)
    ensures SubFirst(s, m) == Sub(s, m)
  {
    var q := FirstHit(s, m).value;
    var h := m(s[q..]).value;
    SubKeepsPrefix(s, m, q);
    assert s[q..][h.len..] == s[q + h.len..];
    assert Sub(s[q..], m) == h.out + Sub(s[q + h.len..], m);
    SubUnchanged(s[q + h.len..], m);
    AppendAssoc(s[..q], h.out, s[q + h.len..]);
  }

  /** With no match at all, the single replacement changes nothing, just like the full one. */
  lemma SubFirstNone(s: string, m: Matcher)
    requires Advancing(m) && HitsNowhere(s, m)
    ensures SubFirst(s, m) == s == Sub(s, m)
  {
    SubUnchanged(s, m);
  }

  /** One step of the scan: a character kept, or a match and what replaced it. */
  datatype Step = Keep(c: char) | Swap(matched: string, out: string)

  /** The steps `Sub` takes on `s`. */
  function Steps(s: string, m: Matcher): seq<Step>
    requires Advancing(m)
    decreases |s|
  {
    if |s| == 0 then []
    else match m(s)
      case Some(h) => [Swap(s[..h.len], h.out)] + Steps(s[h.len..], m)
      case None => [Keep(s[0])] + Steps(s[1..], m)
  }

  /** The text a run of steps read. */
  function Before(steps: seq<Step>): string {
    if |steps| == 0 then ""
    else (match steps[0] case Keep(c) => [c] case Swap(matched, _) => matched) + Before(steps[1..])
  }

  /** The text a run of steps wrote. */
  function After(steps: seq<Step>): string {
    if |steps| == 0 then ""
    else (match steps[0] case Keep(c) => [c] case Swap(_, out) => out) + After(steps[1..])
  }

  /** A replaced piece is a genuine match of `m`, replaced by what `m` writes for it. */
  ghost predicate Genuine(w: Step, m: Matcher) {
    w.Swap? ==> exists t :: IsPrefix(w.matched, t) && m(t) == Some(Hit(|w.matched|, w.out))
  }

  lemma {:induction false} StepsRead(s: string, m: Matcher)
    requires Advancing(m)
    ensures Before(Steps(s, m)) == s
    decreases |s|
  {
    if |s| > 0 {
      match m(s)
      case Some(h) =>
        StepsRead(s[h.len..], m);
        assert s == s[..h.len] + s[h.len..];
      case None =>
        StepsRead(s[1..], m);
        assert s == [s[0]] + s[1..];
    }
  }

  lemma {:induction false} StepsWrite(s: string, m: Matcher)
    requires Advancing(m)
    ensures After(Steps(s, m)) == Sub(s, m)
    decreases |s|
  {
    if |s| > 0 {
      match m(s)
      case Some(h) =>
        StepsWrite(s[h.len..], m);
      case None =>
        StepsWrite(s[1..], m);
    }
  }

  lemma {:induction false} StepsGenuine(s: string, m: Matcher)
    requires Advancing(m)
    ensures forall k :: 0 <= k < |Steps(s, m)| ==> Genuine(Steps(s, m)[k], m)
    decreases |s|
  {
    if |s| > 0 {
      var st := Steps(s, m);
      match m(s)
      case Some(h) =>
        StepsGenuine(s[h.len..], m);
        assert st[1..] == Steps(s[h.len..], m);
        assert IsPrefix(st[0].matched, s);
        assert Genuine(st[0], m);
      case None =>
        StepsGenuine(s[1..], m);
        assert st[1..] == Steps(s[1..], m);
    }
  }

  /**
   * The scan reads the whole input once, writes exactly `Sub`'s output, and every
   * replaced piece is a genuine match of the pattern, replaced by what the pattern
   * writes for it: outside the matches nothing changes.
   */
  lemma StepsAccount(s: string, m: Matcher)
    requires Advancing(m)
    ensures Before(Steps(s, m)) == s
    ensures After(Steps(s, m)) == Sub(s, m)
    ensures forall k :: 0 <= k < |Steps(s, m)| ==> Genuine(Steps(s, m)[k], m)
  {
    StepsRead(s, m);
    StepsWrite(s, m);
    StepsGenuine(s, m);
  }

  /** A literal pattern, as `str.replace` uses it. */
  function Literal(pat: string, rep: string): Matcher {
    t => if IsPrefix(pat, t) then Some(Hit(|pat|, rep)) else None
  }

  lemma LiteralAdvancing(pat: string, rep: string)
    requires |pat| > 0
    ensures Advancing(Literal(pat, rep))
  {
  }

  /** Python's `s.replace(pat, rep)`: every non-overlapping occurrence, left to right. */
  function ReplaceAll(s: string, pat: string, rep: string): string
    requires |pat| > 0
  {
    LiteralAdvancing(pat, rep);
    Sub(s, Literal(pat, rep))
  }

  /** `s.replace(pat, rep)` is `rep.join(s.split(pat))`. */
  lemma {:induction false} ReplaceAllIsJoin(s: string, pat: string, rep: string)
    requires |pat| > 0
    ensures ReplaceAll(s, pat, rep) == Join(Split(s, pat), rep)
    decreases |s|
  {
    LiteralAdvancing(pat, rep);
    if |s| == 0 {
    } else if IsPrefix(pat, s) {
      ReplaceAllIsJoin(s[|pat|..], pat, rep);
      var rest := Split(s[|pat|..], pat);
      assert ([""] + rest)[1..] == rest;
    } else {
      ReplaceAllIsJoin(s[1..], pat, rep);
      JoinConsChar(s[0], Split(s[1..], pat), rep);
    }
  }

  /** Replacing a pattern that does not occur changes nothing. */
  lemma ReplaceAllAbsent(s: string, pat: string, rep: string)
    requires |pat| > 0 && !Contains(s, pat)
    ensures ReplaceAll(s, pat, rep) == s
  {
    ReplaceAllIsJoin(s, pat, rep);
    SplitCount(s, pat);
    JoinSplit(s, pat);
  }

  /** Replacing a pattern that occurs leaves the replacement in the text. */
  lemma ReplaceAllPresent(s: string, pat: string, rep: string)
    requires |pat| > 0 && Contains(s, pat)
    ensures Contains(ReplaceAll(s, pat, rep), rep)
  {
    ReplaceAllIsJoin(s, pat, rep);
    SplitCount(s, pat);
    JoinContainsSep(Split(s, pat), rep);
  }
}
