/** Turning the matched name group into the stored name
    (resume_reader.py, lines 58-68): strip, split on whitespace, drop words
    that repeat an earlier word ignoring case, join with single spaces and
    title-case; "unknown" when the pattern finds nothing. */
module Names {
  import opened Chars
  import opened Text
  import opened NamePattern
  import opened Views

  const Unknown: string := "unknown"

  /** `[p.lower() for p in parts]`. */
  function LowerEach(parts: seq<string>): (r: seq<string>)
    ensures |r| == |parts|
  {
    seq(|parts|, n requires 0 <= n < |parts| => Lower(parts[n]))
  }

  /** `[w.title() for w in parts]`. */
  function TitleEach(parts: seq<string>): (r: seq<string>)
    ensures |r| == |parts|
  {
    seq(|parts|, n requires 0 <= n < |parts| => Title(parts[n]))
  }

  /** The loop of lines 62-65, part by part: a part is appended unless its
      lower-case form equals that of a part kept before it. */
  function KeepUnique(parts: seq<string>): seq<string>
    decreases |parts|
  {
    if parts == [] then []
    else
      var kept := KeepUnique(parts[..|parts| - 1]);
      var part := parts[|parts| - 1];
      if Lower(part) in LowerEach(kept) then kept else kept + [part]
  }

  /** No part before position `i` equals `parts[i]` ignoring case. */
  predicate FirstOfItsKind(parts: seq<string>, i: nat)
    requires i < |parts|
  {
    forall j :: 0 <= j < i ==> Lower(parts[j]) != Lower(parts[i])
  }

  /** Reference definition: the first `n` parts, keeping exactly those that
      are the first of their kind. */
  function FirstOccurrences(parts: seq<string>, n: nat): seq<string>
    requires n <= |parts|
  {
    if n == 0 then []
    else FirstOccurrences(parts, n - 1) + (if FirstOfItsKind(parts, n - 1) then [parts[n - 1]] else [])
  }

  /** The name built from a matched group (lines 60-66). */
  function FormatName(group: string): string {
    Title(Join(KeepUnique(Words(Strip(group)))))
  }

  /** The name found in the name view (lines 58-68). */
  function NameOf(view: string): string {
    match Search(view)
    case Some(m) => FormatName(view[m.0..m.1])
    case None => Unknown
  }

  // ---------------------------------------------------------------------
  // Duplicate removal
  // ---------------------------------------------------------------------

  lemma LowerEachAppend(a: seq<string>, b: seq<string>)
    ensures LowerEach(a + b) == LowerEach(a) + LowerEach(b)
  {
  }

  /** Dropping repeats keeps every word's lower-case form. */
  lemma {:induction false} KeepUniqueKeepsKinds(parts: seq<string>)
    ensures forall x :: x in LowerEach(KeepUnique(parts)) <==> x in LowerEach(parts)
    decreases |parts|
  {
    if parts != [] {
      var init := parts[..|parts| - 1];
      var part := parts[|parts| - 1];
      KeepUniqueKeepsKinds(init);
      assert parts == init + [part];
      LowerEachAppend(init, [part]);
      var kept := KeepUnique(init);
      if Lower(part) !in LowerEach(kept) {
        LowerEachAppend(kept, [part]);
      }
    }
  }

  /** No two words are equal ignoring case. */
  predicate Distinct(words: seq<string>) {
    forall p, q :: 0 <= p < q < |words| ==> Lower(words[p]) != Lower(words[q])
  }

  /** No two kept words are equal ignoring case. */
  lemma {:induction false} KeepUniqueDistinct(parts: seq<string>)
    ensures Distinct(KeepUnique(parts))
    decreases |parts|
  {
    if parts != [] {
      var init := parts[..|parts| - 1];
      var part := parts[|parts| - 1];
      KeepUniqueDistinct(init);
      var kept := KeepUnique(init);
      if Lower(part) !in LowerEach(kept) {
        var all := kept + [part];
        assert KeepUnique(parts) == all;
        forall p, q | 0 <= p < q < |all|
          ensures Lower(all[p]) != Lower(all[q])
        {
          if q == |kept| {
            assert all[q] == part && all[p] == kept[p];
            assert LowerEach(kept)[p] == Lower(kept[p]);
            assert LowerEach(kept)[p] in LowerEach(kept);
            assert Lower(kept[p]) != Lower(part);
          } else {
            assert all[p] == kept[p] && all[q] == kept[q];
            assert Lower(kept[p]) != Lower(kept[q]);
          }
        }
      }
    }
  }

  /** The reference depends only on the first `n` parts. */
  lemma {:induction false} FirstOccurrencesPrefix(a: seq<string>, b: seq<string>, n: nat)
    requires n <= |a| && n <= |b| && a[..n] == b[..n]
    ensures FirstOccurrences(a, n) == FirstOccurrences(b, n)
    decreases n
  {
    if n > 0 {
      assert a[..n - 1] == b[..n - 1];
      FirstOccurrencesPrefix(a, b, n - 1);
      assert forall j :: 0 <= j < n ==> a[j] == b[j] by {
        forall j | 0 <= j < n ensures a[j] == b[j] {
          assert a[..n][j] == b[..n][j];
        }
      }
    }
  }

  /** The loop keeps exactly the first occurrence of every word, ignoring
      case, in their original order. */
  lemma {:induction false} KeepUniqueIsFirstOccurrences(parts: seq<string>)
    ensures KeepUnique(parts) == FirstOccurrences(parts, |parts|)
    decreases |parts|
  {
    if parts != [] {
      var n := |parts|;
      var init := parts[..n - 1];
      var part := parts[n - 1];
      KeepUniqueIsFirstOccurrences(init);
      KeepUniqueKeepsKinds(init);
      assert init[..n - 1] == parts[..n - 1];
      FirstOccurrencesPrefix(init, parts, n - 1);
      assert Lower(part) in LowerEach(init) <==> !FirstOfItsKind(parts, n - 1) by {
        if Lower(part) in LowerEach(init) {
          var j :| 0 <= j < n - 1 && LowerEach(init)[j] == Lower(part);
          assert Lower(parts[j]) == Lower(parts[n - 1]);
        }
        if !FirstOfItsKind(parts, n - 1) {
          var j :| 0 <= j < n - 1 && Lower(parts[j]) == Lower(parts[n - 1]);
          assert LowerEach(init)[j] == Lower(part);
        }
      }
    }
  }

  /** Keeping a part keeps it unchanged. */
  lemma {:induction false} KeepUniqueKeepsParts(parts: seq<string>)
    ensures forall w <- KeepUnique(parts) :: w in parts
    ensures parts != [] ==> KeepUnique(parts) != [] && KeepUnique(parts)[0] == parts[0]
    decreases |parts|
  {
    if parts != [] {
      var init := parts[..|parts| - 1];
      KeepUniqueKeepsParts(init);
      if init == [] {
        assert KeepUnique(parts) == [parts[0]];
      }
    }
  }

  // ---------------------------------------------------------------------
  // Title-casing and joining
  // ---------------------------------------------------------------------

  /** Title-casing works word by word across a single space. */
  lemma TitleSplit(a: string, b: string)
    ensures Title(a + " " + b) == Title(a) + " " + Title(b)
  {
    var s := a + " " + b;
    var r := Title(a) + " " + Title(b);
    forall i | 0 <= i < |s|
      ensures Title(s)[i] == r[i]
    {
      TitleAt(s, i);
      if i < |a| {
        TitleAt(a, i);
        assert s[i] == a[i] && r[i] == Title(a)[i];
        assert Before(s, i) == Before(a, i);
      } else if i == |a| {
        assert s[i] == ' ' && r[i] == ' ';
      } else {
        var k := i - |a| - 1;
        TitleAt(b, k);
        assert s[i] == b[k] && r[i] == Title(b)[k];
        assert Before(s, i) == Before(b, k);
      }
    }
    assert |Title(s)| == |r|;
  }

  /** One character of `title()`, cased by the character before it. */
  lemma TitleAt(s: string, i: nat)
    requires i < |s|
    ensures Title(s)[i] == TitleChar(Before(s, i), s[i])
  {
  }

  lemma {:induction false} TitleJoin(ws: seq<string>)
    ensures Title(Join(ws)) == Join(TitleEach(ws))
    decreases |ws|
  {
    if |ws| >= 2 {
      TitleSplit(ws[0], Join(ws[1..]));
      TitleJoin(ws[1..]);
      assert TitleEach(ws[1..]) == TitleEach(ws)[1..];
    }
  }

  lemma LowerEachTitle(ws: seq<string>)
    ensures LowerEach(TitleEach(ws)) == LowerEach(ws)
  {
  }

  lemma TitleEachSolid(ws: seq<string>)
    requires forall w <- ws :: Solid(w)
    ensures forall w <- TitleEach(ws) :: Solid(w)
  {
    forall n | 0 <= n < |ws|
      ensures Solid(TitleEach(ws)[n])
    {
      assert Solid(ws[n]);
    }
  }

  // ---------------------------------------------------------------------
  // What the stored name is
  // ---------------------------------------------------------------------

  /** The name built from a group: its words are the title-cased first
      occurrences of the group's words (ignoring case), joined by single
      spaces; no two are equal ignoring case and together they have exactly
      the group's words' lower-case forms. */
  lemma FormatNameWords(group: string)
    ensures var parts := Words(Strip(group));
      var name := FormatName(group);
      && Words(name) == TitleEach(FirstOccurrences(parts, |parts|))
      && name == Join(Words(name))
      && IsTitleCased(name)
      && Distinct(Words(name))
      && forall x :: x in LowerEach(Words(name)) <==> x in LowerEach(parts)
  {
    var parts := Words(Strip(group));
    var kept := KeepUnique(parts);
    var tokens := TitleEach(kept);
    WordsFromAreSolid(Strip(group), 0);
    KeepUniqueKeepsParts(parts);
    TitleEachSolid(kept);
    TitleJoin(kept);
    WordsOfJoin(tokens);
    KeepUniqueIsFirstOccurrences(parts);
    KeepUniqueDistinct(parts);
    KeepUniqueKeepsKinds(parts);
    LowerEachTitle(kept);
  }

  /** A group that starts with a letter never gives "unknown": the name
      starts with an upper-case letter. */
  lemma FormatNameKnown(group: string)
    requires group != [] && IsLetter(group[0])
    ensures FormatName(group) != [] && IsUpper(FormatName(group)[0])
    ensures FormatName(group) != Unknown
  {
    var stripped := Strip(group);
    RunEndAt(group, 0, 0, Spaces);
    assert stripped != [] && stripped[0] == group[0];
    WordsStart(stripped);
    var parts := Words(stripped);
    KeepUniqueKeepsParts(parts);
    var kept := KeepUnique(parts);
    var joined := Join(kept);
    assert joined[0] == group[0];
    assert IsLetter(FormatName(group)[0]);
  }

  /** On the name view of a résumé the pattern can only match at its start,
      and the stored name comes from the longest group the pattern accepts
      there; with no such group the name is "unknown". */
  lemma NameOfView(content: string)
    ensures var v := NameView(content);
      match Search(v)
      case Some(m) =>
        && m.0 == 0 && Candidate(v, 0, m.1)
        && (forall j: nat :: Candidate(v, 0, j) ==> j <= m.1)
        && NameOf(v) == FormatName(v[..m.1]) && NameOf(v) != Unknown
      case None =>
        && (forall j: nat :: !Candidate(v, 0, j))
        && NameOf(v) == Unknown
  {
    var v := NameView(content);
    SearchIsAnchored(v);
    GroupAtLongest(v, 0);
    match Search(v)
    case Some(m) =>
      RunSpanEnds(v, 0, m.1);
      FormatNameKnown(v[..m.1]);
    case None =>
  }
}
