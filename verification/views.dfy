/** The two normalised views of the extracted content that `extract_info`
    builds before matching (resume_reader.py, lines 49-52). */
module Views {
  import opened Chars
  import opened Text

  /** The view emails and skills are searched in: the stripped content with
      every run of spaces and tabs replaced by one space, then lower-cased. */
  function MatchView(content: string): (v: string)
    ensures forall i :: 0 <= i < |v| ==> v[i] != '\t' && !IsUpper(v[i])
    ensures forall i :: 0 <= i < |v| - 1 ==> !(v[i] == ' ' && v[i + 1] == ' ')
    ensures v == [] || (!IsSpace(v[0]) && !IsSpace(v[|v| - 1]))
    ensures v == [] <==> AllSpace(content)
  {
    var s := Strip(content);
    var c := Collapse(s, HSpaces);
    CollapseShape(s, 0, HSpaces);
    var v := Lower(c);
    forall i | 0 <= i < |v|
      ensures In(v[i], HSpaces) <==> In(c[i], HSpaces)
      ensures IsSpace(v[i]) <==> IsSpace(c[i])
    {
    }
    v
  }

  /** The view the name is searched in: the stripped content with every run of
      whitespace, line breaks included, replaced by one space; case is kept. */
  function NameView(content: string): (v: string)
    ensures forall i :: 0 <= i < |v| && IsSpace(v[i]) ==> v[i] == ' '
    ensures forall i :: 0 <= i < |v| - 1 && IsSpace(v[i]) ==> !IsSpace(v[i + 1])
    ensures v == [] || (!IsSpace(v[0]) && !IsSpace(v[|v| - 1]))
    ensures v == [] <==> AllSpace(content)
  {
    CollapseShape(Strip(content), 0, Spaces);
    Collapse(Strip(content), Spaces)
  }

  /** Stripping removes whitespace only. */
  lemma StripKeepsOutside(s: string)
    ensures Outside(Strip(s), Spaces) == Outside(s, Spaces)
  {
    var a, e := StripStart(s), StripEnd(s);
    var head, mid, tail := s[..a], s[a..e], s[e..];
    assert s == head + mid + tail;
    assert forall m :: 0 <= m < |head| ==> In(head[m], Spaces) by {
      assert AllIn(s, 0, a, Spaces);
    }
    assert forall m :: 0 <= m < |tail| ==> In(tail[m], Spaces) by {
      assert AllIn(s, e, |s|, Spaces);
    }
    OutsideOfPadded(head, mid, tail);
  }

  /** Padding on either side that lies in the class drops out. */
  lemma OutsideOfPadded(head: string, mid: string, tail: string)
    requires forall m :: 0 <= m < |head| ==> In(head[m], Spaces)
    requires forall m :: 0 <= m < |tail| ==> In(tail[m], Spaces)
    ensures Outside(head + mid + tail, Spaces) == Outside(mid, Spaces)
  {
    OutsideAppend(head + mid, tail, Spaces);
    OutsideOfRun(tail, Spaces);
    OutsideAppend(head, mid, Spaces);
    OutsideOfRun(head, Spaces);
  }

  lemma LowerAppend(a: string, b: string)
    ensures Lower(a + b) == Lower(a) + Lower(b)
  {
  }

  lemma {:induction false} OutsideOfLower(s: string, k: Class)
    requires k == HSpaces || k == Spaces
    ensures Outside(Lower(s), k) == Lower(Outside(s, k))
    decreases |s|
  {
    if s != [] {
      var head := if In(s[0], k) then [] else [s[0]];
      var rest := Outside(s[1..], k);
      assert Lower(s) == [ToLower(s[0])] + Lower(s[1..]);
      assert Lower(s)[1..] == Lower(s[1..]);
      OutsideOfLower(s[1..], k);
      calc {
        Outside(Lower(s), k);
        (if In(ToLower(s[0]), k) then [] else [ToLower(s[0])]) + Outside(Lower(s[1..]), k);
        Lower(head) + Lower(rest);
        { LowerAppend(head, rest); }
        Lower(head + rest);
      }
    }
  }

  /** Outside the run of spaces and tabs, the match view is the stripped
      content lower-cased, character for character: in particular every line
      break between the first and the last visible character survives. */
  lemma MatchViewKeepsText(content: string)
    ensures Outside(MatchView(content), HSpaces) == Lower(Outside(Strip(content), HSpaces))
  {
    var c := Collapse(Strip(content), HSpaces);
    CollapseKeepsOutside(Strip(content), 0, HSpaces);
    assert Strip(content)[0..] == Strip(content);
    OutsideOfLower(c, HSpaces);
  }

  /** The name view keeps every non-whitespace character of the content, in order. */
  lemma NameViewKeepsText(content: string)
    ensures Outside(NameView(content), Spaces) == Outside(content, Spaces)
  {
    CollapseKeepsOutside(Strip(content), 0, Spaces);
    assert Strip(content)[0..] == Strip(content);
    StripKeepsOutside(content);
  }

  /** The name view is `' '.join(content.strip().split())`. */
  lemma NameViewIsJoinedWords(content: string)
    ensures NameView(content) == Join(Words(Strip(content)))
  {
    CollapseIsJoinOfWords(Strip(content));
  }

  /** The match view is the stripped content cut at every run of spaces and
      tabs, joined again with one space between the pieces, and lower-cased:
      each such run inside the text becomes exactly one space. */
  lemma MatchViewIsJoinedFields(content: string)
    ensures var fields := Fields(Strip(content), HSpaces);
      && MatchView(content) == Lower(Join(fields))
      && forall w <- fields :: w != [] && forall m :: 0 <= m < |w| ==> w[m] != ' ' && w[m] != '\t'
  {
    var t := Strip(content);
    assert t == [] || !In(t[|t| - 1], HSpaces);
    assert t == [] || !In(t[0], HSpaces);
    CollapseFromIsJoin(t, 0, HSpaces);
    FieldsFromAreSolid(t, 0, HSpaces);
  }

  /** Collapsing leaves a string alone once no run is longer than one space. */
  lemma {:induction false} CollapseSettled(v: string, i: nat)
    requires i <= |v|
    requires forall m :: 0 <= m < |v| ==> v[m] != '\t'
    requires forall m :: 0 <= m < |v| - 1 ==> !(v[m] == ' ' && v[m + 1] == ' ')
    ensures CollapseFrom(v, i, HSpaces) == v[i..]
    decreases |v| - i
  {
    if i < |v| {
      CollapseSettled(v, i + 1);
      if In(v[i], HSpaces) {
        assert RunEnd(v, i, HSpaces) == i + 1 by {
          if i + 1 < |v| { assert !In(v[i + 1], HSpaces); }
        }
      }
      assert v[i..] == [v[i]] + v[i + 1..];
    }
  }

  lemma LowerTwice(s: string)
    ensures Lower(Lower(s)) == Lower(s)
  {
  }

  /** Normalising a second time changes nothing. */
  lemma MatchViewIdempotent(content: string)
    ensures MatchView(MatchView(content)) == MatchView(content)
  {
    var v := MatchView(content);
    assert Strip(v) == v;
    CollapseShape(v, 0, HSpaces);
    CollapseSettled(v, 0);
    assert v[0..] == v;
    LowerTwice(Collapse(Strip(content), HSpaces));
  }

  // ---------------------------------------------------------------------
  // Lower-casing first changes nothing
  // ---------------------------------------------------------------------

  lemma {:induction false} RunEndOfLower(s: string, i: nat, k: Class)
    requires i <= |s| && (k == HSpaces || k == Spaces)
    ensures RunEnd(Lower(s), i, k) == RunEnd(s, i, k)
    decreases |s| - i
  {
    if i < |s| && In(s[i], k) {
      RunEndOfLower(s, i + 1, k);
    }
  }

  lemma {:induction false} TrimEndOfLower(s: string, j: nat)
    requires j <= |s|
    ensures TrimEnd(Lower(s), j) == TrimEnd(s, j)
    decreases j
  {
    if j > 0 && IsSpace(s[j - 1]) {
      TrimEndOfLower(s, j - 1);
    }
  }

  lemma StripOfLower(s: string)
    ensures Strip(Lower(s)) == Lower(Strip(s))
  {
    StripBoundsOfLower(s);
    var a, e := StripStart(s), StripEnd(s);
    LowerSlice(s, a, e);
  }

  lemma StripBoundsOfLower(s: string)
    ensures StripStart(Lower(s)) == StripStart(s) && StripEnd(Lower(s)) == StripEnd(s)
  {
    RunEndOfLower(s, 0, Spaces);
    TrimEndOfLower(s, |s|);
  }

  lemma LowerSlice(s: string, a: nat, e: nat)
    requires a <= e <= |s|
    ensures Lower(s)[a..e] == Lower(s[a..e])
  {
  }

  lemma {:induction false} CollapseOfLower(s: string, i: nat)
    requires i <= |s|
    ensures CollapseFrom(Lower(s), i, HSpaces) == Lower(CollapseFrom(s, i, HSpaces))
    decreases |s| - i
  {
    if i < |s| {
      if In(s[i], HSpaces) {
        var j := RunEnd(s, i, HSpaces);
        RunEndOfLower(s, i, HSpaces);
        CollapseOfLower(s, j);
        LowerAppend(" ", CollapseFrom(s, j, HSpaces));
      } else {
        CollapseOfLower(s, i + 1);
        LowerAppend([s[i]], CollapseFrom(s, i + 1, HSpaces));
      }
    }
  }

  /** The match view does not depend on the case of the content. */
  lemma MatchViewOfLower(content: string)
    ensures MatchView(Lower(content)) == MatchView(content)
  {
    var s := Strip(content);
    StripOfLower(content);
    CollapseOfLower(s, 0);
    LowerTwice(Collapse(s, HSpaces));
  }
}
