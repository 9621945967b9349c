/** The string operations of Python's `str` and `re` that the reader applies:
    lower-casing, stripping, collapsing whitespace runs (`re.sub`), splitting on
    whitespace, joining with a space, and title-casing. */
module Text {
  import opened Chars

  /** Python's `str.lower()`, restricted to ASCII case mapping. */
  function Lower(s: string): string {
    seq(|s|, i requires 0 <= i < |s| => ToLower(s[i]))
  }

  /** Every character of `s[i..j]` belongs to class `k`. */
  predicate AllIn(s: string, i: nat, j: nat, k: Class)
    requires i <= j <= |s|
  {
    forall m :: i <= m < j ==> In(s[m], k)
  }

  /** The end of the longest run of class-`k` characters starting at `i`:
      what a greedy `[...]*` reaches. */
  function RunEnd(s: string, i: nat, k: Class): (j: nat)
    requires i <= |s|
    ensures i <= j <= |s|
    ensures AllIn(s, i, j, k)
    ensures j < |s| ==> !In(s[j], k)
    ensures i < |s| && In(s[i], k) ==> i < j
    decreases |s| - i
  {
    if i < |s| && In(s[i], k) then RunEnd(s, i + 1, k) else i
  }

  /** The regular-expression assertion `\b` at position `j`. */
  predicate Boundary(s: string, j: nat)
    requires j <= |s|
  {
    (0 < j && IsWord(s[j - 1])) != (j < |s| && IsWord(s[j]))
  }

  predicate AllSpace(s: string) {
    forall m :: 0 <= m < |s| ==> IsSpace(s[m])
  }

  /** `s[..e]` is `s[..j]` without its trailing whitespace. */
  function TrimEnd(s: string, j: nat): (e: nat)
    requires j <= |s|
    ensures e <= j
    ensures forall m :: e <= m < j ==> IsSpace(s[m])
    ensures e > 0 ==> !IsSpace(s[e - 1])
    decreases j
  {
    if j > 0 && IsSpace(s[j - 1]) then TrimEnd(s, j - 1) else j
  }

  /** Where `Strip(s)` starts and ends in `s`. */
  function StripStart(s: string): nat
    ensures StripStart(s) <= |s|
  {
    RunEnd(s, 0, Spaces)
  }

  function StripEnd(s: string): (e: nat)
    ensures StripStart(s) <= e <= |s|
  {
    var a := StripStart(s);
    if a == |s| then a else TrimEnd(s, |s|)
  }

  /** Python's `str.strip()`: `s` without leading and trailing whitespace. */
  function Strip(s: string): (r: string)
    ensures r == s[StripStart(s)..StripEnd(s)]
    ensures r == [] || (!IsSpace(r[0]) && !IsSpace(r[|r| - 1]))
    ensures r == [] <==> AllSpace(s)
    ensures AllIn(s, 0, StripStart(s), Spaces) && AllIn(s, StripEnd(s), |s|, Spaces)
    ensures (s == [] || (!IsSpace(s[0]) && !IsSpace(s[|s| - 1]))) ==> r == s
  {
    var a := StripStart(s);
    var e := StripEnd(s);
    if a == |s| then
      []
    else
      assert !IsSpace(s[a]);
      assert !AllSpace(s);
      s[a..e]
  }

  /** The characters of `s` outside class `k`, in order. */
  function Outside(s: string, k: Class): string
  {
    if s == [] then []
    else (if In(s[0], k) then [] else [s[0]]) + Outside(s[1..], k)
  }

  lemma {:induction false} OutsideAppend(a: string, b: string, k: Class)
    ensures Outside(a + b, k) == Outside(a, k) + Outside(b, k)
    decreases |a|
  {
    if a == [] {
      assert a + b == b;
    } else {
      var head := if In(a[0], k) then [] else [a[0]];
      assert (a + b)[0] == a[0];
      assert (a + b)[1..] == a[1..] + b;
      var x, y := Outside(a[1..], k), Outside(b, k);
      calc {
        Outside(a + b, k);
        head + Outside(a[1..] + b, k);
        { OutsideAppend(a[1..], b, k); }
        head + (x + y);
        (head + x) + y;
        Outside(a, k) + y;
      }
    }
  }

  lemma {:induction false} OutsideOfRun(s: string, k: Class)
    requires forall m :: 0 <= m < |s| ==> In(s[m], k)
    ensures Outside(s, k) == []
    decreases |s|
  {
    if s != [] {
      OutsideOfRun(s[1..], k);
    }
  }

  /** `re.sub(C + '+', ' ', s[i..])` for a class `C`: every maximal run of
      class characters becomes one space. */
  function CollapseFrom(s: string, i: nat, k: Class): (r: string)
    requires i <= |s|
    decreases |s| - i
  {
    if i == |s| then []
    else if In(s[i], k) then " " + CollapseFrom(s, RunEnd(s, i, k), k)
    else [s[i]] + CollapseFrom(s, i + 1, k)
  }

  /** For a class that contains the space, the collapsed text starts and ends
      like the original (up to the replaced run), its only class characters are
      single spaces, and no two of them are adjacent. */
  lemma {:induction false} CollapseShape(s: string, i: nat, k: Class)
    requires i <= |s| && In(' ', k)
    ensures var r := CollapseFrom(s, i, k);
      && (r == [] <==> i == |s|)
      && (r != [] ==> r[0] == (if In(s[i], k) then ' ' else s[i]))
      && (r != [] ==> r[|r| - 1] == (if In(s[|s| - 1], k) then ' ' else s[|s| - 1]))
      && (forall m :: 0 <= m < |r| && In(r[m], k) ==> r[m] == ' ')
      && (forall m :: 0 <= m < |r| - 1 && In(r[m], k) ==> !In(r[m + 1], k))
    decreases |s| - i
  {
    if i < |s| {
      if In(s[i], k) {
        var j := RunEnd(s, i, k);
        CollapseShape(s, j, k);
      } else {
        CollapseShape(s, i + 1, k);
      }
    }
  }

  function Collapse(s: string, k: Class): string
  {
    CollapseFrom(s, 0, k)
  }

  /** Collapsing never loses or reorders a character outside the class. */
  lemma {:induction false} CollapseKeepsOutside(s: string, i: nat, k: Class)
    requires i <= |s|
    requires In(' ', k)
    ensures Outside(CollapseFrom(s, i, k), k) == Outside(s[i..], k)
    decreases |s| - i
  {
    if i < |s| {
      if In(s[i], k) {
        var j := RunEnd(s, i, k);
        CollapseKeepsOutside(s, j, k);
        assert s[i..] == s[i..j] + s[j..];
        OutsideAppend(s[i..j], s[j..], k);
        OutsideOfRun(s[i..j], k);
        assert Outside(" ", k) == [];
        OutsideAppend(" ", CollapseFrom(s, j, k), k);
      } else {
        CollapseKeepsOutside(s, i + 1, k);
        assert s[i..][1..] == s[i + 1..];
        assert ([s[i]] + CollapseFrom(s, i + 1, k))[1..] == CollapseFrom(s, i + 1, k);
      }
    }
  }

  /** A string that has no whitespace at all and is not empty: one token of `str.split()`. */
  predicate Solid(w: string) {
    w != [] && forall m :: 0 <= m < |w| ==> !IsSpace(w[m])
  }

  /** The fields of `s[i..]` separated by runs of class `k`: the maximal
      runs of characters outside `k`, in order. */
  function FieldsFrom(s: string, i: nat, k: Class): seq<string>
    requires i <= |s|
    decreases |s| - i
  {
    var a := RunEnd(s, i, k);
    if a == |s| then []
    else
      var b := RunEnd(s, a, Except(k));
      [s[a..b]] + FieldsFrom(s, b, k)
  }

  function Fields(s: string, k: Class): seq<string> {
    FieldsFrom(s, 0, k)
  }

  /** Python's `s[i..].split()` with no separator: the fields between
      whitespace runs. */
  function WordsFrom(s: string, i: nat): seq<string>
    requires i <= |s|
  {
    FieldsFrom(s, i, Spaces)
  }

  function Words(s: string): seq<string> {
    WordsFrom(s, 0)
  }

  /** Every field is non-empty and holds no character of the separating class. */
  lemma {:induction false} FieldsFromAreSolid(s: string, i: nat, k: Class)
    requires i <= |s|
    ensures forall w <- FieldsFrom(s, i, k) :: w != [] && forall m :: 0 <= m < |w| ==> !In(w[m], k)
    decreases |s| - i
  {
    var a := RunEnd(s, i, k);
    if a < |s| {
      var b := RunEnd(s, a, Except(k));
      FieldsFromAreSolid(s, b, k);
      assert forall m :: 0 <= m < b - a ==> !In(s[a..b][m], k);
    }
  }

  /** Every token `split()` returns is non-empty and free of whitespace. */
  lemma WordsFromAreSolid(s: string, i: nat)
    requires i <= |s|
    ensures forall w <- WordsFrom(s, i) :: Solid(w)
  {
    FieldsFromAreSolid(s, i, Spaces);
  }

  /** Python's `' '.join(ws)`. */
  function Join(ws: seq<string>): string {
    if |ws| == 0 then ""
    else if |ws| == 1 then ws[0]
    else ws[0] + " " + Join(ws[1..])
  }

  /** The character before position `i`, or a space at the start. */
  function Before(s: string, i: nat): char
    requires i < |s|
  {
    if i == 0 then ' ' else s[i - 1]
  }

  /** `str.title()` on one character, given the character before it. */
  function TitleChar(prev: char, c: char): char {
    if !IsLetter(c) then c
    else if IsLetter(prev) then ToLower(c)
    else ToUpper(c)
  }

  lemma TitleCharFacts(prev: char, c: char)
    ensures IsLetter(TitleChar(prev, c)) <==> IsLetter(c)
    ensures IsSpace(TitleChar(prev, c)) <==> IsSpace(c)
    ensures ToLower(TitleChar(prev, c)) == ToLower(c)
    ensures IsLetter(c) ==> (IsUpper(TitleChar(prev, c)) <==> !IsLetter(prev))
  {
  }

  /** A letter is upper-case exactly when it starts a run of letters. */
  predicate IsTitleCased(s: string) {
    forall i :: 0 <= i < |s| && IsLetter(s[i]) ==> (IsUpper(s[i]) <==> (i == 0 || !IsLetter(s[i - 1])))
  }

  /** Python's `str.title()`: the first letter of every run of letters is
      upper-cased and the others lower-cased; nothing else changes. */
  function Title(s: string): (r: string)
    ensures |r| == |s|
    ensures IsTitleCased(r)
    ensures Lower(r) == Lower(s)
    ensures forall i :: 0 <= i < |s| ==> (IsLetter(r[i]) <==> IsLetter(s[i])) && (IsSpace(r[i]) <==> IsSpace(s[i]))
  {
    var r := seq(|s|, i requires 0 <= i < |s| => TitleChar(Before(s, i), s[i]));
    TitleFacts(s, r);
    r
  }

  lemma TitleFacts(s: string, r: string)
    requires |r| == |s|
    requires forall i :: 0 <= i < |s| ==> r[i] == TitleChar(Before(s, i), s[i])
    ensures IsTitleCased(r)
    ensures Lower(r) == Lower(s)
    ensures forall i :: 0 <= i < |s| ==> (IsLetter(r[i]) <==> IsLetter(s[i])) && (IsSpace(r[i]) <==> IsSpace(s[i]))
  {
    forall i | 0 <= i < |s|
      ensures IsLetter(r[i]) <==> IsLetter(s[i])
      ensures IsSpace(r[i]) <==> IsSpace(s[i])
      ensures ToLower(r[i]) == ToLower(s[i])
      ensures IsLetter(s[i]) ==> (IsUpper(r[i]) <==> (i == 0 || !IsLetter(s[i - 1])))
    {
      var prev := Before(s, i);
      assert r[i] == TitleChar(prev, s[i]);
      TitleCharFacts(prev, s[i]);
    }
    forall i | 0 <= i < |r| && IsLetter(r[i])
      ensures IsUpper(r[i]) <==> (i == 0 || !IsLetter(r[i - 1]))
    {
      if i > 0 {
        assert IsLetter(r[i - 1]) <==> IsLetter(s[i - 1]);
      }
    }
    assert Lower(r) == Lower(s);
  }

  /** A whitespace character before a position changes nothing for `split()`. */
  lemma WordsFromSkip(s: string, j: nat)
    requires j < |s| && IsSpace(s[j])
    ensures WordsFrom(s, j) == WordsFrom(s, j + 1)
  {
  }

  /** `RunEnd` stops exactly where a class run ends. */
  lemma RunEndAt(s: string, i: nat, e: nat, k: Class)
    requires i <= e <= |s| && AllIn(s, i, e, k)
    requires e == |s| || !In(s[e], k)
    ensures RunEnd(s, i, k) == e
  {
  }

  /** A class run starting at `i` reaches at least as far as any run of
      class characters from `i`. */
  lemma RunCovers(s: string, i: nat, j: nat, k: Class)
    requires i <= j <= |s| && AllIn(s, i, j, k)
    ensures j <= RunEnd(s, i, k)
  {
  }

  /** A class run stops at the first character outside the class. */
  lemma {:induction false} RunStopsAt(s: string, i: nat, x: nat, k: Class)
    requires i <= x < |s| && !In(s[x], k)
    ensures RunEnd(s, i, k) <= x
    decreases x - i
  {
    if i < x && In(s[i], k) {
      RunStopsAt(s, i + 1, x, k);
    }
  }

  /** A text that starts with a non-space character starts its first word. */
  lemma WordsStart(s: string)
    requires s != [] && !IsSpace(s[0])
    ensures |Words(s)| > 0 && Words(s)[0] != [] && Words(s)[0][0] == s[0]
  {
    RunEndAt(s, 0, 0, Spaces);
    var b := RunEnd(s, 0, Except(Spaces));
    assert Words(s)[0] == s[0..b];
  }

  lemma SliceSplit(s: string, i: nat, x: string, y: string)
    requires i <= |s| && s[i..] == x + y
    ensures i + |x| <= |s| && s[i..i + |x|] == x && s[i + |x|..] == y
  {
    assert s[i..][..|x|] == x;
    assert s[i..][|x|..] == y;
  }

  /** One step of `split()`: a whitespace-free word at `i`, then the rest. */
  lemma WordsFromStep(s: string, i: nat, w: string)
    requires i + |w| <= |s| && s[i..i + |w|] == w && Solid(w)
    requires i + |w| == |s| || IsSpace(s[i + |w|])
    ensures WordsFrom(s, i) == [w] + WordsFrom(s, i + |w|)
  {
    var e := i + |w|;
    assert forall m :: i <= m < e ==> s[m] == w[m - i];
    RunEndAt(s, i, i, Spaces);
    RunEndAt(s, i, e, Except(Spaces));
  }

  lemma JoinConsAt(s: string, i: nat, ws: seq<string>)
    requires |ws| >= 2 && i <= |s| && s[i..] == Join(ws)
    ensures i + |ws[0]| < |s|
    ensures s[i..i + |ws[0]|] == ws[0] && s[i + |ws[0]|] == ' '
    ensures s[i + |ws[0]| + 1..] == Join(ws[1..])
  {
    var w := ws[0];
    assert s[i..] == w + (" " + Join(ws[1..]));
    SliceSplit(s, i, w, " " + Join(ws[1..]));
    SliceSplit(s, i + |w|, " ", Join(ws[1..]));
  }

  lemma WordsFromEnd(s: string)
    ensures WordsFrom(s, |s|) == []
  {
  }

  lemma WordsFromSingle(s: string, i: nat, w: string)
    requires i <= |s| && s[i..] == w && Solid(w)
    ensures WordsFrom(s, i) == [w]
  {
    assert s[i..] == w + "";
    SliceSplit(s, i, w, "");
    WordsFromStep(s, i, w);
    WordsFromEnd(s);
  }

  lemma WordsFromCons(s: string, i: nat, w: string, j: nat)
    requires Solid(w) && j == i + |w| + 1 && j <= |s| && s[i..i + |w|] == w && s[i + |w|] == ' '
    ensures WordsFrom(s, i) == [w] + WordsFrom(s, j)
  {
    var e := i + |w|;
    WordsFromStep(s, i, w);
    assert WordsFrom(s, i) == [w] + WordsFrom(s, e);
    WordsFromSkip(s, e);
    assert WordsFrom(s, e) == WordsFrom(s, j);
  }

  lemma {:induction false} WordsFromJoin(s: string, i: nat, ws: seq<string>)
    requires i <= |s| && s[i..] == Join(ws)
    requires forall w <- ws :: Solid(w)
    ensures WordsFrom(s, i) == ws
    decreases |ws|
  {
    if |ws| == 0 {
      assert i == |s| by { assert |s[i..]| == 0; }
      WordsFromEnd(s);
    } else if |ws| == 1 {
      assert ws[0] in ws;
      WordsFromSingle(s, i, ws[0]);
    } else {
      var rest := ws[1..];
      var j := i + |ws[0]| + 1;
      assert forall x <- rest :: Solid(x) by {
        forall x <- rest ensures x in ws { }
      }
      JoinRestAt(s, i, ws, j);
      WordsFromJoin(s, j, rest);
      assert Solid(ws[0]) by { assert ws[0] in ws; }
      WordsFromJoinCons(s, i, ws, j);
    }
  }

  /** Where the words after the first one start in a joined text. */
  lemma JoinRestAt(s: string, i: nat, ws: seq<string>, j: nat)
    requires |ws| >= 2 && i <= |s| && s[i..] == Join(ws) && j == i + |ws[0]| + 1
    ensures j <= |s| && s[j..] == Join(ws[1..])
  {
    JoinConsAt(s, i, ws);
  }

  /** The first word of a joined text, followed by the words of the rest. */
  lemma WordsFromJoinCons(s: string, i: nat, ws: seq<string>, j: nat)
    requires |ws| >= 2 && i <= |s| && s[i..] == Join(ws) && Solid(ws[0])
    requires j == i + |ws[0]| + 1 && j <= |s| && WordsFrom(s, j) == ws[1..]
    ensures WordsFrom(s, i) == ws
  {
    JoinConsAt(s, i, ws);
    WordsFromCons(s, i, ws[0], j);
    assert ws == [ws[0]] + ws[1..];
  }

  /** `split()` undoes `' '.join` of whitespace-free, non-empty words. */
  lemma WordsOfJoin(ws: seq<string>)
    requires forall w <- ws :: Solid(w)
    ensures Words(Join(ws)) == ws
  {
    var s := Join(ws);
    assert s[0..] == s;
    WordsFromJoin(s, 0, ws);
  }

  /** Collapsing copies a whitespace-free stretch unchanged. */
  lemma {:induction false} CollapseCopies(s: string, i: nat, j: nat, k: Class)
    requires i <= j <= |s| && In(' ', k)
    requires forall m :: i <= m < j ==> !In(s[m], k)
    ensures CollapseFrom(s, i, k) == s[i..j] + CollapseFrom(s, j, k)
    decreases j - i
  {
    if i < j {
      CollapseCopies(s, i + 1, j, k);
      assert !In(s[i], k);
      calc {
        CollapseFrom(s, i, k);
        [s[i]] + CollapseFrom(s, i + 1, k);
        [s[i]] + (s[i + 1..j] + CollapseFrom(s, j, k));
        ([s[i]] + s[i + 1..j]) + CollapseFrom(s, j, k);
        { assert [s[i]] + s[i + 1..j] == s[i..j]; }
        s[i..j] + CollapseFrom(s, j, k);
      }
    }
  }

  /** Collapsing every run of class `k` to one space, in a string that
      neither starts nor ends inside such a run, joins its fields with
      single spaces. */
  lemma {:induction false} CollapseFromIsJoin(t: string, i: nat, k: Class)
    requires i <= |t| && In(' ', k)
    requires t == [] || !In(t[|t| - 1], k)
    requires i == |t| || !In(t[i], k)
    ensures CollapseFrom(t, i, k) == Join(FieldsFrom(t, i, k))
    decreases |t| - i
  {
    if i < |t| {
      var b := RunEnd(t, i, Except(k));
      FieldsFromStep(t, i, b, k);
      CollapseCopies(t, i, b, k);
      if b < |t| {
        var c := RunEnd(t, b, k);
        FieldsFromGap(t, b, c, k);
        CollapseFromIsJoin(t, c, k);
        JoinAfterGap(t, i, b, c, k);
      }
    }
  }

  /** A field starting at `i` runs to the end `b` of the run outside `k`. */
  lemma FieldsFromStep(t: string, i: nat, b: nat, k: Class)
    requires i < |t| && !In(t[i], k) && b == RunEnd(t, i, Except(k))
    ensures i < b && FieldsFrom(t, i, k) == [t[i..b]] + FieldsFrom(t, b, k)
  {
    RunEndAt(t, i, i, k);
  }

  /** After a field, the separating run from `b` to `c` is skipped: the next
      field starts at `c`, and collapsing turns the run into one space. */
  lemma FieldsFromGap(t: string, b: nat, c: nat, k: Class)
    requires b < |t| && In(' ', k) && In(t[b], k) && !In(t[|t| - 1], k)
    requires c == RunEnd(t, b, k)
    ensures b < c < |t| && !In(t[c], k)
    ensures FieldsFrom(t, b, k) == FieldsFrom(t, c, k) && FieldsFrom(t, c, k) != []
    ensures CollapseFrom(t, b, k) == " " + CollapseFrom(t, c, k)
  {
    RunStopsAt(t, b, |t| - 1, k);
    RunEndAt(t, c, c, k);
  }

  /** The collapsed text from `i` is the field `t[i..b]`, a space, and the
      join of the remaining fields. */
  lemma JoinAfterGap(t: string, i: nat, b: nat, c: nat, k: Class)
    requires i < b < c < |t|
    requires FieldsFrom(t, i, k) == [t[i..b]] + FieldsFrom(t, b, k)
    requires FieldsFrom(t, b, k) == FieldsFrom(t, c, k) && FieldsFrom(t, c, k) != []
    requires CollapseFrom(t, i, k) == t[i..b] + CollapseFrom(t, b, k)
    requires CollapseFrom(t, b, k) == " " + CollapseFrom(t, c, k)
    requires CollapseFrom(t, c, k) == Join(FieldsFrom(t, c, k))
    ensures CollapseFrom(t, i, k) == Join(FieldsFrom(t, i, k))
  {
    var rest := FieldsFrom(t, c, k);
    var fs := [t[i..b]] + rest;
    assert fs[0] == t[i..b] && fs[1..] == rest;
    calc {
      Join(fs);
      t[i..b] + " " + Join(rest);
      t[i..b] + (" " + CollapseFrom(t, c, k));
    }
  }

  /** Stripping and then collapsing every whitespace run is `' '.join(s.split())`
      for a string that is already stripped. */
  lemma CollapseIsJoinOfWords(t: string)
    requires t == [] || (!IsSpace(t[0]) && !IsSpace(t[|t| - 1]))
    ensures Collapse(t, Spaces) == Join(Words(t))
  {
    CollapseFromIsJoin(t, 0, Spaces);
  }
}
