/** The name regular expression of `extract_info` (resume_reader.py, line 54),
    searched with `re.IGNORECASE` (line 58):

      (?:^|\n)\s*(T(?:\s+T)*)\s*(?=\s*[a-zA-Z0-9._%+-]+@|\b(?:skills|contact|email)\b|$)

    where T is the token `[A-Za-z]+(?:[-'][A-Za-z]+)?`.

    The module gives the pattern twice: declaratively (`RunSpan`, `Follows`,
    `Candidate`) and as the backtracking search the regular-expression engine
    performs (`TokenEnds`, `Explore`, `Search`), and proves that the search
    returns the LONGEST candidate group. */
module NamePattern {
  import opened Wrappers
  import opened Chars
  import opened Text

  // ---------------------------------------------------------------------
  // The pattern, declaratively
  // ---------------------------------------------------------------------

  /** `s[i..j]` matches `[A-Za-z]+`. */
  predicate LetterSpan(s: string, i: nat, j: nat) {
    i < j <= |s| && AllIn(s, i, j, Letters)
  }

  /** The class `[-']` that may join two letter groups inside a token. */
  predicate IsJoiner(c: char) {
    c == '-' || c == '\''
  }

  /** `s[i..j]` matches one token `[A-Za-z]+(?:[-'][A-Za-z]+)?`. */
  ghost predicate TokenSpan(s: string, i: nat, j: nat) {
    || LetterSpan(s, i, j)
    || exists m :: i < m && m + 1 < j <= |s| && LetterSpan(s, i, m) && IsJoiner(s[m]) && LetterSpan(s, m + 1, j)
  }

  /** `s[i..j]` matches the name group `T(?:\s+T)*`. */
  ghost predicate RunSpan(s: string, i: nat, j: nat)
    decreases j - i
  {
    || TokenSpan(s, i, j)
    || exists m, n :: i < m < n < j <= |s| && TokenSpan(s, i, m) && AllIn(s, m, n, Spaces) && RunSpan(s, n, j)
  }

  /** `[a-zA-Z0-9._%+-]+@` at position `j`. The class excludes `@`, so the
      greedy run is the only one that can be followed by `@`. */
  predicate EmailAhead(s: string, j: nat)
    requires j <= |s|
  {
    var m := RunEnd(s, j, EmailLocal);
    j < m < |s| && s[m] == '@'
  }

  /** `\bw\b` at position `j`, ignoring case. */
  predicate KeywordIs(s: string, j: nat, w: string)
    requires j <= |s|
  {
    j + |w| <= |s| && Boundary(s, j) && Lower(s[j..j + |w|]) == w && Boundary(s, j + |w|)
  }

  /** `\b(?:skills|contact|email)\b` at position `j`, ignoring case. */
  predicate KeywordAt(s: string, j: nat)
    requires j <= |s|
  {
    KeywordIs(s, j, "skills") || KeywordIs(s, j, "contact") || KeywordIs(s, j, "email")
  }

  /** What may follow a group that ends at `e`:
      `\s*(?=\s*[a-zA-Z0-9._%+-]+@|\b(?:skills|contact|email)\b|$)`.
      Both `\s*` reach the end `w` of the whitespace run after `e`: at any
      earlier position the next character is whitespace, which neither the
      email class nor a keyword can start with, and `$` can only hold at the
      end of the text (or before a final line feed, which the run swallows).
      So the lookahead holds somewhere in `[e, w]` exactly when it holds at `w`. */
  predicate Follows(s: string, e: nat)
    requires e <= |s|
  {
    var w := RunEnd(s, e, Spaces);
    EmailAhead(s, w) || KeywordAt(s, w) || w == |s|
  }

  /** A group `s[i..e]` the pattern accepts once anchored at `i`. */
  ghost predicate Candidate(s: string, i: nat, e: nat) {
    i < e <= |s| && RunSpan(s, i, e) && Follows(s, e)
  }

  // ---------------------------------------------------------------------
  // The engine's backtracking search
  // ---------------------------------------------------------------------

  /** `[hi, hi - 1, ..., lo]`. */
  function DownFrom(hi: int, lo: nat): (r: seq<nat>)
    ensures |r| == if hi < lo then 0 else hi - lo + 1
    ensures forall n :: 0 <= n < |r| ==> lo <= r[n] <= hi
    decreases hi - lo
  {
    if hi < lo then [] else [hi as nat] + DownFrom(hi - 1, lo)
  }

  lemma {:induction false} DownFromAt(hi: int, lo: nat)
    ensures forall n :: 0 <= n < |DownFrom(hi, lo)| ==> DownFrom(hi, lo)[n] == hi - n
    decreases hi - lo
  {
    if lo <= hi {
      DownFromAt(hi - 1, lo);
    }
  }

  /** The ends of a token starting at `i`, in the order a backtracking engine
      tries them: the greedy letter run with its joined second group (longest
      first), then the letter run alone, shortened one letter at a time. */
  function TokenEnds(s: string, i: nat): (ends: seq<nat>)
    requires i <= |s|
    ensures forall n :: 0 <= n < |ends| ==> i < ends[n] <= |s|
  {
    var l := RunEnd(s, i, Letters);
    if l == i then []
    else if l + 1 < |s| && IsJoiner(s[l]) && IsLetter(s[l + 1]) then
      DownFrom(RunEnd(s, l + 1, Letters), l + 2) + DownFrom(l, i + 1)
    else
      DownFrom(l, i + 1)
  }

  /** The group end the engine settles on, trying the token ends `ends` of the
      token that starts the rest of the group at `i`: for each end, first one
      more `\s+T` repetition (`*` is greedy), then the lookahead. Shorter
      `\s+` matches are not tried: they leave whitespace where a token letter
      must start. */
  function Explore(s: string, i: nat, ends: seq<nat>): (r: Option<nat>)
    requires i <= |s|
    requires forall n :: 0 <= n < |ends| ==> i < ends[n] <= |s|
    ensures r.Some? ==> i < r.value <= |s|
    decreases |s| - i, |ends|
  {
    if ends == [] then None
    else
      var o := ends[0];
      var longer :=
        if o < |s| && IsSpace(s[o]) then
          var w := RunEnd(s, o, Spaces);
          Explore(s, w, TokenEnds(s, w))
        else None;
      if longer.Some? then longer
      else if Follows(s, o) then Some(o)
      else Explore(s, i, ends[1..])
  }

  /** The group `(start, end)` when the group starts at `g`. */
  function GroupAt(s: string, g: nat): (r: Option<(nat, nat)>)
    requires g <= |s|
    ensures r.Some? ==> r.value.0 == g < r.value.1 <= |s|
  {
    match Explore(s, g, TokenEnds(s, g))
    case Some(e) => Some((g, e))
    case None => None
  }

  /** The pattern tried at position `p`: `^` (only at 0), else a line feed at
      `p`; then `\s*` (greedy; a shorter match leaves whitespace where a
      letter must start). */
  function MatchAt(s: string, p: nat): (r: Option<(nat, nat)>)
    requires p <= |s|
    ensures r.Some? ==> r.value.0 < r.value.1 <= |s|
  {
    var viaStart := if p == 0 then GroupAt(s, RunEnd(s, 0, Spaces)) else None;
    if viaStart.Some? then viaStart
    else if p < |s| && s[p] == '\n' then GroupAt(s, RunEnd(s, p + 1, Spaces))
    else None
  }

  /** `re.search`: the first position where the pattern matches. */
  function SearchFrom(s: string, p: nat): (r: Option<(nat, nat)>)
    requires p <= |s|
    ensures r.Some? ==> r.value.0 < r.value.1 <= |s|
    decreases |s| - p
  {
    var m := MatchAt(s, p);
    if m.Some? || p == |s| then m else SearchFrom(s, p + 1)
  }

  function Search(s: string): (r: Option<(nat, nat)>)
    ensures r.Some? ==> r.value.0 < r.value.1 <= |s|
  {
    SearchFrom(s, 0)
  }

  // ---------------------------------------------------------------------
  // The search returns the longest candidate
  // ---------------------------------------------------------------------

  lemma DownFromMembers(hi: int, lo: nat)
    ensures forall j :: j in DownFrom(hi, lo) <==> lo <= j <= hi
  {
    DownFromAt(hi, lo);
    forall j | lo <= j <= hi
      ensures j in DownFrom(hi, lo)
    {
      assert DownFrom(hi, lo)[hi - j] == j;
    }
  }

  lemma TokenSpanEnds(s: string, i: nat, j: nat)
    requires TokenSpan(s, i, j)
    ensures i < j <= |s| && IsLetter(s[i]) && IsLetter(s[j - 1])
  {
  }

  /** A name group begins and ends with a letter. */
  lemma {:induction false} RunSpanEnds(s: string, i: nat, j: nat)
    requires RunSpan(s, i, j)
    ensures i < j <= |s| && IsLetter(s[i]) && IsLetter(s[j - 1])
    decreases j - i
  {
    if TokenSpan(s, i, j) {
      TokenSpanEnds(s, i, j);
    } else {
      var m, n :| i < m < n < j <= |s| && TokenSpan(s, i, m) && AllIn(s, m, n, Spaces) && RunSpan(s, n, j);
      TokenSpanEnds(s, i, m);
      RunSpanEnds(s, n, j);
    }
  }

  /** `TokenEnds` lists exactly the token ends. */
  lemma TokenEndsExact(s: string, i: nat)
    requires i <= |s|
    ensures forall j: nat :: j in TokenEnds(s, i) <==> TokenSpan(s, i, j)
  {
    var l := RunEnd(s, i, Letters);
    var ends := TokenEnds(s, i);
    DownFromMembers(l, i + 1);
    if l == i {
      assert ends == [];
      forall j: nat ensures !TokenSpan(s, i, j) {
        assert !LetterSpan(s, i, j) by {
          if LetterSpan(s, i, j) { RunCovers(s, i, j, Letters); }
        }
      }
    } else if l + 1 < |s| && IsJoiner(s[l]) && IsLetter(s[l + 1]) {
      var r := RunEnd(s, l + 1, Letters);
      assert ends == DownFrom(r, l + 2) + DownFrom(l, i + 1);
      DownFromMembers(r, l + 2);
      forall j: nat | TokenSpan(s, i, j)
        ensures j in ends
      {
        if LetterSpan(s, i, j) {
          RunCovers(s, i, j, Letters);
        } else {
          var m :| i < m && m + 1 < j <= |s| && LetterSpan(s, i, m) && IsJoiner(s[m]) && LetterSpan(s, m + 1, j);
          RunCovers(s, i, m, Letters);
          assert m == l;
          RunCovers(s, l + 1, j, Letters);
        }
      }
      forall j: nat | j in DownFrom(r, l + 2)
        ensures TokenSpan(s, i, j)
      {
        assert LetterSpan(s, i, l) && IsJoiner(s[l]) && LetterSpan(s, l + 1, j);
      }
    } else {
      assert ends == DownFrom(l, i + 1);
      forall j: nat | TokenSpan(s, i, j)
        ensures j in ends
      {
        if LetterSpan(s, i, j) {
          RunCovers(s, i, j, Letters);
        } else {
          JoinedAtRunEnd(s, i, j);
          assert false;
        }
      }
    }
  }

  /** A token with a joined second group joins at the end of the letter run. */
  lemma JoinedAtRunEnd(s: string, i: nat, j: nat)
    requires i <= |s| && TokenSpan(s, i, j) && !LetterSpan(s, i, j)
    ensures var l := RunEnd(s, i, Letters);
      i < l && l + 1 < |s| && IsJoiner(s[l]) && IsLetter(s[l + 1])
  {
    var m :| i < m && m + 1 < j <= |s| && LetterSpan(s, i, m) && IsJoiner(s[m]) && LetterSpan(s, m + 1, j);
    RunCovers(s, i, m, Letters);
    assert m == RunEnd(s, i, Letters);
  }

  /** Only the longest token may be followed by whitespace, so only it can
      be followed by another `\s+T` repetition. */
  lemma LongestTokenFirst(s: string, i: nat, m: nat)
    requires i <= |s| && TokenSpan(s, i, m) && m < |s| && IsSpace(s[m])
    ensures |TokenEnds(s, i)| > 0 && TokenEnds(s, i)[0] == m
  {
    var l := RunEnd(s, i, Letters);
    if LetterSpan(s, i, m) {
      RunCovers(s, i, m, Letters);
      assert m == l;
    } else {
      var n :| i < n && n + 1 < m <= |s| && LetterSpan(s, i, n) && IsJoiner(s[n]) && LetterSpan(s, n + 1, m);
      RunCovers(s, i, n, Letters);
      assert n == l;
      var r := RunEnd(s, l + 1, Letters);
      RunCovers(s, l + 1, m, Letters);
      assert m == r;
    }
  }

  /** The shape of a list of token ends the engine works through: in bounds,
      strictly decreasing, and none but the first followed by whitespace. */
  ghost predicate WellOrdered(s: string, i: nat, ends: seq<nat>) {
    && (forall n :: 0 <= n < |ends| ==> i < ends[n] <= |s|)
    && (forall n :: 0 < n < |ends| ==> ends[n] < ends[n - 1])
    && (forall n :: 1 <= n < |ends| && ends[n] < |s| ==> !IsSpace(s[ends[n]]))
  }

  /** A countdown through a letter run is well ordered: every end but the
      first is followed by a letter. */
  lemma DownFromWellOrdered(s: string, i: nat, hi: nat, lo: nat)
    requires i < lo && hi <= |s| && lo <= hi && AllIn(s, lo, hi, Letters)
    ensures WellOrdered(s, i, DownFrom(hi, lo))
  {
    var ends := DownFrom(hi, lo);
    DownFromAt(hi, lo);
    forall n | 1 <= n < |ends| && ends[n] < |s|
      ensures !IsSpace(s[ends[n]])
    {
      assert lo <= ends[n] < hi;
      assert In(s[ends[n]], Letters);
    }
  }

  /** The ends of a token with a joined second group are well ordered. */
  lemma JoinedWellOrdered(s: string, i: nat, l: nat, r: nat)
    requires i < l && l + 1 < |s| && IsJoiner(s[l]) && IsLetter(s[l + 1])
    requires AllIn(s, i, l, Letters) && r == RunEnd(s, l + 1, Letters)
    ensures WellOrdered(s, i, DownFrom(r, l + 2) + DownFrom(l, i + 1))
  {
    var a := DownFrom(r, l + 2);
    var b := DownFrom(l, i + 1);
    var ends := a + b;
    JoinedAt(r, l, i);
    forall n | 1 <= n < |ends| && ends[n] < |s|
      ensures !IsSpace(s[ends[n]])
    {
      var x := ends[n];
      if x == l {
        assert IsJoiner(s[x]);
      } else if x < l {
        assert In(s[x], Letters);
      } else {
        assert l + 1 < x < r;
        assert In(s[x], Letters);
      }
    }
  }

  /** The positions of the joined list: first `r` down to `l + 2`, then `l`
      down to `i + 1`. */
  lemma JoinedAt(r: nat, l: nat, i: nat)
    requires i < l && l + 2 <= r
    ensures var ends := DownFrom(r, l + 2) + DownFrom(l, i + 1);
      && |ends| == r - i - 1
      && (forall n :: 0 <= n < |ends| ==> ends[n] == if n < r - l - 1 then r - n else r - n - 1)
  {
    var a := DownFrom(r, l + 2);
    var b := DownFrom(l, i + 1);
    DownFromAt(r, l + 2);
    DownFromAt(l, i + 1);
    forall n | 0 <= n < |a + b|
      ensures (a + b)[n] == if n < r - l - 1 then r - n else r - n - 1
    {
      if n < |a| {
        assert (a + b)[n] == a[n];
      } else {
        assert (a + b)[n] == b[n - |a|];
      }
    }
  }

  lemma TokenEndsWellOrdered(s: string, i: nat)
    requires i <= |s|
    ensures WellOrdered(s, i, TokenEnds(s, i))
  {
    var l := RunEnd(s, i, Letters);
    var ends := TokenEnds(s, i);
    if l == i {
      assert ends == [];
    } else if l + 1 < |s| && IsJoiner(s[l]) && IsLetter(s[l + 1]) {
      var r := RunEnd(s, l + 1, Letters);
      assert ends == DownFrom(r, l + 2) + DownFrom(l, i + 1);
      JoinedWellOrdered(s, i, l, r);
    } else {
      assert ends == DownFrom(l, i + 1);
      DownFromWellOrdered(s, i, l, i + 1);
    }
  }

  /** The group continues past the first token end with `\s+` and a further
      group ending at `j`. */
  ghost predicate Continues(s: string, ends: seq<nat>, j: nat) {
    && |ends| > 0 && ends[0] < |s| && IsSpace(s[ends[0]])
    && RunSpan(s, RunEnd(s, ends[0], Spaces), j)
  }

  /** Ends reachable from the token ends `ends`. */
  ghost predicate Reach(s: string, ends: seq<nat>, j: nat) {
    j in ends || Continues(s, ends, j)
  }

  /** A group from `i` is one token, or the longest token, whitespace and a
      further group. */
  lemma RunSpanStep(s: string, i: nat, j: nat)
    requires i <= |s|
    ensures RunSpan(s, i, j) <==> Reach(s, TokenEnds(s, i), j)
  {
    var ends := TokenEnds(s, i);
    TokenEndsExact(s, i);
    if RunSpan(s, i, j) && !TokenSpan(s, i, j) {
      var m, n :| i < m < n < j <= |s| && TokenSpan(s, i, m) && AllIn(s, m, n, Spaces) && RunSpan(s, n, j);
      assert In(s[m], Spaces);
      LongestTokenFirst(s, i, m);
      RunSpanEnds(s, n, j);
      RunEndAt(s, m, n, Spaces);
      assert Continues(s, ends, j);
    }
    if Continues(s, ends, j) {
      var m := ends[0];
      var n := RunEnd(s, m, Spaces);
      RunSpanEnds(s, n, j);
      assert i < m < n < j <= |s| && TokenSpan(s, i, m) && AllIn(s, m, n, Spaces) && RunSpan(s, n, j);
    }
  }

  /** The ends reachable through a further `\s+T` repetition after the first
      token end, which resumes at `w`: the engine's choice among them is the
      longest that the lookahead accepts. */
  lemma ContinuationLongest(s: string, ends: seq<nat>, w: nat)
    requires |ends| > 0 && ends[0] < |s| && IsSpace(s[ends[0]])
    requires w == RunEnd(s, ends[0], Spaces)
    requires ExploreSpec(s, w, TokenEnds(s, w))
    ensures match Explore(s, w, TokenEnds(s, w))
      case Some(d) =>
        && w < d <= |s| && Continues(s, ends, d) && Follows(s, d)
        && forall j: nat :: j <= |s| && Continues(s, ends, j) && Follows(s, j) ==> j <= d
      case None => forall j: nat :: j <= |s| && Continues(s, ends, j) ==> !Follows(s, j)
  {
    TokenEndsWellOrdered(s, w);
    forall j: nat | j <= |s|
      ensures Reach(s, TokenEnds(s, w), j) <==> Continues(s, ends, j)
    {
      RunSpanStep(s, w, j);
    }
    match Explore(s, w, TokenEnds(s, w))
    case Some(d) =>
      RunSpanEnds(s, w, d);
    case None =>
  }

  /** `r` is the longest end reachable from `ends` that the lookahead
      accepts, or nothing when it accepts none. */
  ghost predicate Longest(s: string, ends: seq<nat>, r: Option<nat>) {
    match r
    case Some(e) =>
      && e <= |s| && Reach(s, ends, e) && Follows(s, e)
      && forall j: nat :: j <= |s| && Reach(s, ends, j) && Follows(s, j) ==> j <= e
    case None => forall j: nat :: j <= |s| && Reach(s, ends, j) ==> !Follows(s, j)
  }

  /** What `Explore` returns, for well-ordered token ends. */
  ghost predicate ExploreSpec(s: string, i: nat, ends: seq<nat>)
    requires i <= |s|
  {
    WellOrdered(s, i, ends) ==> Longest(s, ends, Explore(s, i, ends))
  }

  /** The first of well-ordered ends is the largest. */
  lemma {:induction false} FirstIsLargest(s: string, i: nat, ends: seq<nat>)
    requires WellOrdered(s, i, ends) && |ends| > 0
    ensures forall j: nat :: j in ends ==> j <= ends[0]
    decreases |ends|
  {
    if |ends| > 1 {
      DropFirst(s, i, ends);
      FirstIsLargest(s, i, ends[1..]);
    }
  }

  /** Dropping the first end keeps the list well ordered, and nothing is
      reachable from the rest but the rest itself. */
  lemma DropFirst(s: string, i: nat, ends: seq<nat>)
    requires WellOrdered(s, i, ends) && |ends| > 0
    ensures WellOrdered(s, i, ends[1..])
    ensures forall j: nat :: Reach(s, ends[1..], j) <==> j in ends[1..]
    ensures forall j: nat :: j in ends <==> j == ends[0] || j in ends[1..]
  {
    assert ends == [ends[0]] + ends[1..];
  }

  /** `Explore` is correct for every position from `i` on, by induction from
      the end of the text towards `i`. */
  lemma {:induction false} ExploreLongest(s: string, i: nat, ends: seq<nat>)
    requires i <= |s|
    ensures ExploreSpec(s, i, ends)
    decreases |s| - i, |ends|
  {
    if !WellOrdered(s, i, ends) || ends == [] {
      return;
    }
    var o := ends[0];
    if o < |s| && IsSpace(s[o]) {
      var w := RunEnd(s, o, Spaces);
      ExploreLongest(s, w, TokenEnds(s, w));
      if Explore(s, w, TokenEnds(s, w)).Some? {
        LongestViaContinuation(s, i, ends);
        return;
      }
    }
    StuckContinuations(s, i, ends);
    if Follows(s, o) {
      LongestAtFirst(s, i, ends);
    } else {
      ExploreLongest(s, i, ends[1..]);
      LongestAfterFirst(s, i, ends);
    }
  }

  /** After the first end, `\s+` and a further token lead to the text
      position `w` from which `Explore` continues. */
  ghost predicate SpaceAfterFirst(s: string, ends: seq<nat>) {
    |ends| > 0 && ends[0] < |s| && IsSpace(s[ends[0]])
  }

  /** The continuation after the first end fails, or there is none. */
  ghost predicate Stuck(s: string, ends: seq<nat>) {
    SpaceAfterFirst(s, ends) ==>
      var w := RunEnd(s, ends[0], Spaces);
      Explore(s, w, TokenEnds(s, w)).None?
  }

  /** The continuation is correct, whenever there is one. */
  ghost predicate ContinuationCorrect(s: string, ends: seq<nat>) {
    SpaceAfterFirst(s, ends) ==>
      var w := RunEnd(s, ends[0], Spaces);
      ExploreSpec(s, w, TokenEnds(s, w))
  }

  /** A successful continuation is the longest accepted end. */
  lemma LongestViaContinuation(s: string, i: nat, ends: seq<nat>)
    requires i <= |s| && WellOrdered(s, i, ends) && SpaceAfterFirst(s, ends)
    requires ContinuationCorrect(s, ends) && !Stuck(s, ends)
    ensures Longest(s, ends, Explore(s, i, ends))
  {
    var w := RunEnd(s, ends[0], Spaces);
    ContinuationLongest(s, ends, w);
    FirstIsLargest(s, i, ends);
    assert Explore(s, i, ends) == Explore(s, w, TokenEnds(s, w));
  }

  /** When the continuation fails, no end it reaches is accepted. */
  lemma StuckContinuations(s: string, i: nat, ends: seq<nat>)
    requires i <= |s| && WellOrdered(s, i, ends) && |ends| > 0
    requires ContinuationCorrect(s, ends) && Stuck(s, ends)
    ensures forall j: nat :: j <= |s| && Continues(s, ends, j) ==> !Follows(s, j)
  {
    if SpaceAfterFirst(s, ends) {
      ContinuationLongest(s, ends, RunEnd(s, ends[0], Spaces));
    }
  }

  /** Otherwise the first end is the answer when the lookahead accepts it. */
  lemma LongestAtFirst(s: string, i: nat, ends: seq<nat>)
    requires i <= |s| && WellOrdered(s, i, ends) && |ends| > 0 && Stuck(s, ends)
    requires forall j: nat :: j <= |s| && Continues(s, ends, j) ==> !Follows(s, j)
    requires Follows(s, ends[0])
    ensures Longest(s, ends, Explore(s, i, ends))
  {
    FirstIsLargest(s, i, ends);
    assert Explore(s, i, ends) == Some(ends[0]);
  }

  /** ... and when it does not, the engine moves on to the next end. */
  lemma LongestAfterFirst(s: string, i: nat, ends: seq<nat>)
    requires i <= |s| && WellOrdered(s, i, ends) && |ends| > 0 && Stuck(s, ends)
    requires forall j: nat :: j <= |s| && Continues(s, ends, j) ==> !Follows(s, j)
    requires !Follows(s, ends[0])
    requires ExploreSpec(s, i, ends[1..])
    ensures Longest(s, ends, Explore(s, i, ends))
  {
    DropFirst(s, i, ends);
    assert Explore(s, i, ends) == Explore(s, i, ends[1..]);
  }

  /** Anchored at a group start `g`, the engine returns the longest group the
      pattern accepts, and fails only when it accepts none. */
  lemma GroupAtLongest(s: string, g: nat)
    requires g <= |s|
    ensures match GroupAt(s, g)
      case Some(m) =>
        && m.0 == g && Candidate(s, g, m.1)
        && forall j: nat :: Candidate(s, g, j) ==> j <= m.1
      case None => forall j: nat :: !Candidate(s, g, j)
  {
    var ends := TokenEnds(s, g);
    TokenEndsWellOrdered(s, g);
    ExploreLongest(s, g, ends);
    forall j: nat | j <= |s|
      ensures RunSpan(s, g, j) <==> Reach(s, ends, j)
    {
      RunSpanStep(s, g, j);
    }
    match Explore(s, g, ends)
    case Some(e) =>
      RunSpanEnds(s, g, e);
    case None =>
  }

  /** Past position 0, only a line feed can start a match. */
  lemma {:induction false} NoMatchPastStart(s: string, p: nat)
    requires 0 < p <= |s|
    requires forall k :: 0 <= k < |s| ==> s[k] != '\n'
    ensures SearchFrom(s, p) == None
    decreases |s| - p
  {
    if p < |s| {
      NoMatchPastStart(s, p + 1);
    }
  }

  /** In a text without line feeds that does not start with whitespace (the
      name view of a résumé), the only place a match can start is position 0,
      so the search is the anchored engine at 0. */
  lemma SearchIsAnchored(s: string)
    requires forall k :: 0 <= k < |s| ==> s[k] != '\n'
    requires s == [] || !IsSpace(s[0])
    ensures Search(s) == GroupAt(s, 0)
  {
    assert RunEnd(s, 0, Spaces) == 0;
    if |s| > 0 {
      NoMatchPastStart(s, 1);
    }
  }
}
