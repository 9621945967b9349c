/** The skills regular expression of `extract_info` (resume_reader.py,
    lines 56 and 73-74): `re.findall` of twelve literals between `\b`
    anchors over the match view, then a set. */
module Skills {
  import opened Wrappers
  import opened Chars
  import opened Text

  /** The alternatives, in the order the pattern lists them. */
  const Vocabulary: seq<string> := [
    "python", "java", "c++", "sql", "javascript", "html", "css",
    "machine learning", "data analysis", "project management",
    "teamwork", "communication"]

  /** `k` occurs literally at `p`. */
  predicate LiteralAt(s: string, p: nat, k: string) {
    p + |k| <= |s| && s[p..p + |k|] == k
  }

  /** `\bk\b` matches at `p`. */
  predicate SkillAt(s: string, p: nat, k: string) {
    p <= |s| && LiteralAt(s, p, k) && Boundary(s, p) && Boundary(s, p + |k|)
  }

  /** The first alternative, from index `n` of the vocabulary on, that
      matches at `p`. */
  function FirstSkill(s: string, p: nat, n: nat): (r: Option<string>)
    requires p <= |s| && n <= |Vocabulary|
    ensures r.Some? ==> r.value in Vocabulary && SkillAt(s, p, r.value)
    ensures r.None? ==> forall m :: n <= m < |Vocabulary| ==> !SkillAt(s, p, Vocabulary[m])
    decreases |Vocabulary| - n
  {
    if n == |Vocabulary| then None
    else if SkillAt(s, p, Vocabulary[n]) then Some(Vocabulary[n])
    else FirstSkill(s, p, n + 1)
  }

  /** `re.findall` from position `p`: after a match the scan resumes at its
      end, otherwise one character further on. */
  function FindAllFrom(s: string, p: nat): seq<string>
    requires p <= |s|
    decreases |s| - p
  {
    if p == |s| then []
    else
      match FirstSkill(s, p, 0)
      case Some(k) =>
        VocabularyStarts(k);
        [k] + FindAllFrom(s, p + |k|)
      case None => FindAllFrom(s, p + 1)
  }

  /** `list(set(re.findall(...)))` (lines 73-74); the list's order is
      unspecified, so the model keeps the set. */
  function SkillsOf(view: string): set<string> {
    set k <- FindAllFrom(view, 0)
  }

  // ---------------------------------------------------------------------
  // Facts about the vocabulary
  // ---------------------------------------------------------------------

  /** The vocabulary, one literal at a time. */
  lemma VocabularyCases(k: string)
    requires k in Vocabulary
    ensures || k == "python" || k == "java" || k == "c++" || k == "sql"
            || k == "javascript" || k == "html" || k == "css"
            || k == "machine learning" || k == "data analysis"
            || k == "project management" || k == "teamwork" || k == "communication"
  {
  }

  /** Every skill starts with a letter and is at least three long; none
      starts with the letters that follow a space inside a phrase. */
  lemma VocabularyStarts(k: string)
    requires k in Vocabulary
    ensures |k| >= 3 && IsLetter(k[0])
    ensures k[0] != 'l' && k[0] != 'a' && (k[0] == 'm' ==> k[2] != 'n')
  {
    VocabularyCases(k);
  }

  predicate AllLetters(k: string) {
    forall j :: 0 <= j < |k| ==> IsLetter(k[j])
  }

  /** `k` is two words of letters joined by the space at `m`, the second
      at least three letters long. */
  predicate PhraseWithSpaceAt(k: string, m: nat) {
    0 < m && m + 3 < |k| && k[m] == ' ' && forall j :: 0 <= j < |k| && j != m ==> IsLetter(k[j])
  }

  /** The characters of the skills: letters only, except in "c++" and in
      the three two-word phrases. */
  lemma VocabularyLetters(k: string)
    requires k in Vocabulary
    ensures || AllLetters(k) || k == "c++"
            || (k == "machine learning" && PhraseWithSpaceAt(k, 7))
            || (k == "data analysis" && PhraseWithSpaceAt(k, 4))
            || (k == "project management" && PhraseWithSpaceAt(k, 7))
  {
    VocabularyCases(k);
    if k == "machine learning" {
      PhraseShape(k, 7);
    } else if k == "data analysis" {
      PhraseShape(k, 4);
    } else if k == "project management" {
      PhraseShape(k, 7);
    } else if k != "c++" {
      SingleWordShape(k);
    }
  }

  lemma PhraseShape(k: string, m: nat)
    requires || (k == "machine learning" && m == 7)
             || (k == "data analysis" && m == 4)
             || (k == "project management" && m == 7)
    ensures PhraseWithSpaceAt(k, m)
  {
    if k == "machine learning" {
      MachineLearningShape();
    } else if k == "data analysis" {
      DataAnalysisShape();
    } else {
      ProjectManagementShape();
    }
  }

  lemma MachineLearningShape()
    ensures PhraseWithSpaceAt("machine learning", 7)
  {
    PhraseWords("machine");
    PhraseWords("learning");
    TwoWords("machine", "learning");
    assert "machine learning" == "machine" + " " + "learning";
  }

  lemma DataAnalysisShape()
    ensures PhraseWithSpaceAt("data analysis", 4)
  {
    PhraseWords("data");
    PhraseWords("analysis");
    TwoWords("data", "analysis");
    assert "data analysis" == "data" + " " + "analysis";
  }

  lemma ProjectManagementShape()
    ensures PhraseWithSpaceAt("project management", 7)
  {
    PhraseWords("project");
    PhraseWords("management");
    TwoWords("project", "management");
    assert "project management" == "project" + " " + "management";
  }

  lemma PhraseWords(w: string)
    requires w in ["machine", "learning", "data", "analysis", "project", "management"]
    ensures AllLetters(w)
  {
  }

  lemma TwoWords(a: string, b: string)
    requires AllLetters(a) && AllLetters(b) && |a| > 0 && |b| >= 3
    ensures PhraseWithSpaceAt(a + " " + b, |a|)
  {
    var k := a + " " + b;
    forall j | 0 <= j < |k| && j != |a|
      ensures IsLetter(k[j])
    {
      if j > |a| {
        assert k[j] == b[j - |a| - 1];
      }
    }
  }

  lemma SingleWordShape(k: string)
    requires || k == "python" || k == "java" || k == "sql" || k == "javascript"
             || k == "html" || k == "css" || k == "teamwork" || k == "communication"
    ensures AllLetters(k)
  {
  }

  // ---------------------------------------------------------------------
  // Occurrences never overlap
  // ---------------------------------------------------------------------

  lemma LiteralChars(s: string, p: nat, k: string, j: nat)
    requires LiteralAt(s, p, k) && j < |k|
    ensures s[p + j] == k[j]
  {
    assert s[p..p + |k|][j] == s[p + j];
  }

  /** No skill occurrence starts strictly inside another one: inside a
      skill a word character follows a non-word character only after the
      space of a phrase, and no skill begins with the letters found there. */
  lemma NoSkillInside(s: string, p: nat, k1: string, q: nat, k2: string)
    requires k1 in Vocabulary && k2 in Vocabulary
    requires LiteralAt(s, p, k1) && p < q < p + |k1|
    ensures !SkillAt(s, q, k2)
  {
    VocabularyLetters(k1);
    VocabularyStarts(k2);
    var t := q - p;
    LiteralChars(s, p, k1, t - 1);
    LiteralChars(s, p, k1, t);
    if AllLetters(k1) {
      assert IsLetter(s[q - 1]) && IsLetter(s[q]);
    } else if k1 == "c++" {
      assert s[q] == '+' && s[q] != k2[0];
    } else {
      var m := if k1 == "data analysis" then 4 else 7;
      assert PhraseWithSpaceAt(k1, m);
      if t == m {
        assert s[q] == ' ' && s[q] != k2[0];
      } else if t == m + 1 {
        LiteralChars(s, p, k1, t + 2);
        assert s[q] != k2[0] || s[q + 2] != k2[2];
      } else {
        assert IsLetter(s[q - 1]) && IsLetter(s[q]);
      }
    }
  }

  /** Only "java" and "javascript" share their first two characters. */
  lemma SameStart(k1: string, k2: string)
    requires k1 in Vocabulary && k2 in Vocabulary
    requires |k1| >= 2 && |k2| >= 2 && k1[0] == k2[0] && k1[1] == k2[1]
    ensures || k1 == k2
            || (k1 == "java" && k2 == "javascript")
            || (k1 == "javascript" && k2 == "java")
  {
    VocabularyCases(k1);
    VocabularyCases(k2);
  }

  /** "java" is not followed by a boundary where "javascript" occurs. */
  lemma JavaInsideJavascript(s: string, p: nat)
    requires LiteralAt(s, p, "javascript")
    ensures !Boundary(s, p + 4)
  {
    LiteralChars(s, p, "javascript", 3);
    LiteralChars(s, p, "javascript", 4);
  }

  /** At most one skill matches at any position. */
  lemma SkillAtUnique(s: string, p: nat, k1: string, k2: string)
    requires k1 in Vocabulary && k2 in Vocabulary
    requires SkillAt(s, p, k1) && SkillAt(s, p, k2)
    ensures k1 == k2
  {
    VocabularyStarts(k1);
    VocabularyStarts(k2);
    LiteralChars(s, p, k1, 0);
    LiteralChars(s, p, k1, 1);
    LiteralChars(s, p, k2, 0);
    LiteralChars(s, p, k2, 1);
    SameStart(k1, k2);
    if k1 == "java" && k2 == "javascript" {
      JavaInsideJavascript(s, p);
      assert false;
    } else if k1 == "javascript" && k2 == "java" {
      JavaInsideJavascript(s, p);
      assert false;
    }
  }

  // ---------------------------------------------------------------------
  // What the scan finds
  // ---------------------------------------------------------------------

  /** Everything the scan reports is a skill occurring at or after `p`. */
  lemma {:induction false} FindAllSound(s: string, p: nat, k: string)
    requires p <= |s| && k in FindAllFrom(s, p)
    ensures k in Vocabulary && exists q: nat :: p <= q <= |s| && SkillAt(s, q, k)
    decreases |s| - p
  {
    var next := Resume(s, p);
    if FirstSkill(s, p, 0) == Some(k) {
      assert SkillAt(s, p, k);
    } else {
      ResumeOnly(s, p, k);
      FindAllSound(s, next, k);
    }
  }

  /** A skill reported from `p` on that is not the match at `p` is reported
      after the scan resumes. */
  lemma ResumeOnly(s: string, p: nat, k: string)
    requires p <= |s| && k in FindAllFrom(s, p) && FirstSkill(s, p, 0) != Some(k)
    ensures p < |s| && k in FindAllFrom(s, Resume(s, p))
  {
  }

  /** Every skill occurring at or after `p` is reported: the scan never
      steps over its start, and at its start no other skill matches. */
  lemma {:induction false} FindAllComplete(s: string, p: nat, q: nat, k: string)
    requires k in Vocabulary && p <= q <= |s| && SkillAt(s, q, k)
    ensures k in FindAllFrom(s, p)
    decreases |s| - p
  {
    if p == q {
      FoundHere(s, p, k);
    } else {
      var next := Resume(s, p);
      ResumeNotPast(s, p, q, k);
      FindAllComplete(s, next, q, k);
      ResumeStep(s, p);
    }
  }

  /** Where the scan goes on after trying position `p`. */
  function Resume(s: string, p: nat): (next: nat)
    requires p < |s|
    ensures p < next <= |s|
  {
    match FirstSkill(s, p, 0)
    case Some(k) => p + |k|
    case None => p + 1
  }

  lemma ResumeStep(s: string, p: nat)
    requires p < |s|
    ensures forall x :: x in FindAllFrom(s, Resume(s, p)) ==> x in FindAllFrom(s, p)
  {
  }

  /** A skill at `q` is found when the scan reaches `q`. */
  lemma FoundHere(s: string, p: nat, k: string)
    requires k in Vocabulary && p <= |s| && SkillAt(s, p, k)
    ensures k in FindAllFrom(s, p)
  {
    VocabularyStarts(k);
    match FirstSkill(s, p, 0)
    case Some(k') =>
      SkillAtUnique(s, p, k', k);
    case None =>
      assert false;
  }

  /** The scan never jumps over the start of a skill. */
  lemma ResumeNotPast(s: string, p: nat, q: nat, k: string)
    requires k in Vocabulary && p < q <= |s| && SkillAt(s, q, k)
    ensures Resume(s, p) <= q
  {
    match FirstSkill(s, p, 0)
    case Some(k') =>
      if q < p + |k'| {
        NoSkillInside(s, p, k', q, k);
        assert false;
      }
    case None =>
  }

  /** The skills of a view are exactly the vocabulary entries that occur
      in it between word boundaries. */
  lemma SkillsOfExactly(view: string, k: string)
    ensures k in SkillsOf(view) <==> k in Vocabulary && exists q: nat :: q <= |view| && SkillAt(view, q, k)
  {
    if k in SkillsOf(view) {
      FindAllSound(view, 0, k);
    }
    if k in Vocabulary && exists q: nat :: q <= |view| && SkillAt(view, q, k) {
      var q: nat :| q <= |view| && SkillAt(view, q, k);
      FindAllComplete(view, 0, q, k);
    }
  }

  /** Because the pattern puts `\b` after "c++", whose last character is not
      a word character, "c++" is only found when a word character follows
      it directly: "c++ and java" does not list it, "c++x" does. */
  lemma CppNeedsWordAfter(s: string, q: nat)
    requires SkillAt(s, q, "c++")
    ensures q + 3 < |s| && IsWord(s[q + 3])
  {
    LiteralChars(s, q, "c++", 2);
  }

  /** A skill found at `q` is preceded by a non-word character or the
      start of the view. */
  lemma SkillStartsWord(s: string, q: nat, k: string)
    requires k in Vocabulary && SkillAt(s, q, k)
    ensures q == 0 || !IsWord(s[q - 1])
  {
    VocabularyStarts(k);
    LiteralChars(s, q, k, 0);
  }
}
