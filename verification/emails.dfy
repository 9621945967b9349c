/** The e-mail regular expression of `extract_info` (resume_reader.py,
    lines 55 and 70-71), `[a-zA-Z0-9._%+-]+@[a-zA-Z0-9.-]+\.[a-zA-Z]{2,}`,
    searched case-sensitively in the match view. */
module Emails {
  import opened Wrappers
  import opened Chars
  import opened Text

  /** `s[i..e]` as a whole matches the pattern: a local part, `@`, a domain
      part, a dot at `d` and at least two letters. */
  ghost predicate EmailMatch(s: string, i: nat, e: nat) {
    exists a, d :: EmailSplit(s, i, a, d, e)
  }

  /** The pieces of a match: `@` at `a` and the last dot at `d`. */
  predicate EmailSplit(s: string, i: nat, a: nat, d: nat, e: nat) {
    && i < a && a + 1 < d && d + 3 <= e <= |s|
    && AllIn(s, i, a, EmailLocal) && s[a] == '@'
    && AllIn(s, a + 1, d, EmailDomain) && s[d] == '.'
    && AllIn(s, d + 1, e, Letters)
  }

  /** A dot followed by two letters: where `\.[a-zA-Z]{2,}` can start. */
  predicate GoodDot(s: string, d: nat) {
    d + 2 < |s| && s[d] == '.' && IsLetter(s[d + 1]) && IsLetter(s[d + 2])
  }

  /** The engine backing the greedy domain run off from `hi` one character
      at a time until a dot followed by two letters comes up. */
  function LastDot(s: string, lo: nat, hi: nat): (r: Option<nat>)
    requires hi <= |s|
    ensures r.Some? ==> lo <= r.value < hi && GoodDot(s, r.value)
    ensures r.Some? ==> forall d :: r.value < d < hi ==> !GoodDot(s, d)
    ensures r.None? ==> forall d :: lo <= d < hi ==> !GoodDot(s, d)
    decreases hi
  {
    if hi <= lo then None
    else if GoodDot(s, hi - 1) then Some(hi - 1)
    else LastDot(s, lo, hi - 1)
  }

  /** The end of the match the engine finds when it starts at `i`: the
      greedy local run must stop at `@` (the class has no `@`, so backing
      off never helps), then the domain run is backed off to its last good
      dot and the letters after it are taken greedily. */
  function MatchEndAt(s: string, i: nat): (r: Option<nat>)
    requires i <= |s|
    ensures r.Some? ==> i < r.value <= |s|
  {
    var a := RunEnd(s, i, EmailLocal);
    if a == i || a == |s| || s[a] != '@' then None
    else
      var r := RunEnd(s, a + 1, EmailDomain);
      match LastDot(s, a + 2, r)
      case None => None
      case Some(d) => Some(RunEnd(s, d + 1, Letters))
  }

  /** `re.search` from position `p` on: the first start with a match. */
  function FindFrom(s: string, p: nat): (r: Option<(nat, nat)>)
    requires p <= |s|
    ensures r.Some? ==> p <= r.value.0 < r.value.1 <= |s|
    decreases |s| - p
  {
    if p == |s| then None
    else
      match MatchEndAt(s, p)
      case Some(e) => Some((p, e))
      case None => FindFrom(s, p + 1)
  }

  /** The e-mail address stored for a match view (lines 70-71). */
  function EmailOf(view: string): string {
    match FindFrom(view, 0)
    case Some(m) => view[m.0..m.1]
    case None => "unknown"
  }

  // ---------------------------------------------------------------------
  // The search finds the leftmost, longest match
  // ---------------------------------------------------------------------

  /** Any match from `i` has its `@` where the local run from `i` ends, and
      its last dot at a good dot inside the domain run after it. */
  lemma SplitIsForced(s: string, i: nat, a: nat, d: nat, e: nat)
    requires EmailSplit(s, i, a, d, e)
    ensures a == RunEnd(s, i, EmailLocal)
    ensures d < RunEnd(s, a + 1, EmailDomain) && GoodDot(s, d)
    ensures e <= RunEnd(s, d + 1, Letters)
  {
    RunEndAt(s, i, a, EmailLocal);
    RunCovers(s, a + 1, d, EmailDomain);
    RunCovers(s, d + 1, e, Letters);
    assert In(s[d + 1], Letters) && In(s[d + 2], Letters);
  }

  /** Every match from `i` ends no later than the engine's. */
  lemma MatchEndAtCovers(s: string, i: nat, a': nat, d': nat, e': nat)
    requires EmailSplit(s, i, a', d', e')
    ensures MatchEndAt(s, i).Some? && e' <= MatchEndAt(s, i).value
  {
    SplitIsForced(s, i, a', d', e');
    var r := RunEnd(s, a' + 1, EmailDomain);
    var d := LastDot(s, a' + 2, r).value;
    if d' < d {
      RunStopsAt(s, d' + 1, d, Letters);
    }
  }

  /** Started at `i`, the engine returns the longest match from `i`, and
      fails exactly when no match starts at `i`. */
  lemma MatchEndAtLongest(s: string, i: nat)
    requires i <= |s|
    ensures match MatchEndAt(s, i)
      case Some(e) => EmailMatch(s, i, e) && forall e': nat :: EmailMatch(s, i, e') ==> e' <= e
      case None => forall e': nat :: !EmailMatch(s, i, e')
  {
    forall e': nat | EmailMatch(s, i, e')
      ensures MatchEndAt(s, i).Some? && e' <= MatchEndAt(s, i).value
    {
      var a', d' :| EmailSplit(s, i, a', d', e');
      MatchEndAtCovers(s, i, a', d', e');
    }
    match MatchEndAt(s, i)
    case Some(e) =>
      var a := RunEnd(s, i, EmailLocal);
      var r := RunEnd(s, a + 1, EmailDomain);
      var d := LastDot(s, a + 2, r).value;
      RunCovers(s, d + 1, d + 3, Letters);
      assert EmailSplit(s, i, a, d, e);
    case None =>
  }

  /** `re.search` finds the leftmost start at which the pattern matches and,
      from there, the longest match; it finds nothing exactly when no match
      starts at or after `p`. */
  lemma {:induction false} FindFromLeftmostLongest(s: string, p: nat)
    requires p <= |s|
    ensures match FindFrom(s, p)
      case Some(m) =>
        && EmailMatch(s, m.0, m.1)
        && (forall e: nat :: EmailMatch(s, m.0, e) ==> e <= m.1)
        && (forall i: nat, e: nat :: p <= i < m.0 ==> !EmailMatch(s, i, e))
      case None => forall i: nat, e: nat :: p <= i ==> !EmailMatch(s, i, e)
    decreases |s| - p
  {
    if p == |s| {
      assert forall i: nat, e: nat :: p <= i ==> !EmailMatch(s, i, e);
    } else {
      MatchEndAtLongest(s, p);
      if MatchEndAt(s, p).None? {
        FindFromLeftmostLongest(s, p + 1);
      }
    }
  }

  /** The stored address is the leftmost, longest match in the match view,
      and "unknown" exactly when there is none. */
  lemma EmailOfIsLeftmostLongest(view: string)
    ensures match FindFrom(view, 0)
      case Some(m) =>
        && EmailOf(view) == view[m.0..m.1] && EmailMatch(view, m.0, m.1)
        && (forall e: nat :: EmailMatch(view, m.0, e) ==> e <= m.1)
        && (forall i: nat, e: nat :: i < m.0 ==> !EmailMatch(view, i, e))
      case None =>
        && EmailOf(view) == "unknown"
        && forall i: nat, e: nat :: !EmailMatch(view, i, e)
  {
    FindFromLeftmostLongest(view, 0);
  }

  /** A found address has exactly one `@`, so it is never "unknown"; all its
      characters come from the two address classes, and it ends with a dot
      and at least two letters. */
  lemma EmailShape(s: string, i: nat, e: nat)
    requires EmailMatch(s, i, e)
    ensures var addr := s[i..e];
      && (exists a :: 0 < a < |addr| && addr[a] == '@' && forall k :: 0 <= k < |addr| && k != a ==> addr[k] != '@')
      && (forall k :: 0 <= k < |addr| ==> addr[k] == '@' || In(addr[k], EmailLocal))
      && (exists d :: 0 < d && d + 3 <= |addr| && addr[d] == '.' && forall k :: d < k < |addr| ==> IsLetter(addr[k]))
      && addr != "unknown"
  {
    var a: nat, d: nat :| EmailSplit(s, i, a, d, e);
    var addr := s[i..e];
    forall k | 0 <= k < |addr| && k != a - i
      ensures addr[k] != '@' && In(addr[k], EmailLocal)
    {
      assert addr[k] == s[i + k];
      if i + k < a {
        assert In(s[i + k], EmailLocal);
      } else if i + k < d {
        assert In(s[i + k], EmailDomain);
      } else if i + k > d {
        assert In(s[i + k], Letters);
      }
    }
    assert addr[a - i] == '@';
    assert addr[d - i] == '.' && forall k :: d - i < k < |addr| ==> IsLetter(addr[k]);
    assert "unknown"[0] != '@';
  }

  /** The address is a piece of the view, so a view without upper-case
      letters gives an address without them. */
  lemma EmailOfKeepsCase(view: string)
    requires forall k :: 0 <= k < |view| ==> !IsUpper(view[k])
    ensures forall k :: 0 <= k < |EmailOf(view)| ==> !IsUpper(EmailOf(view)[k])
  {
    match FindFrom(view, 0)
    case Some(m) =>
      assert forall k :: 0 <= k < m.1 - m.0 ==> view[m.0..m.1][k] == view[m.0 + k];
    case None =>
  }
}
