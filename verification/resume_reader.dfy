/** `ResumeReader` (resume_reader.py, lines 6-80): a reader holds the path of
    a résumé and, once `extract_info` has succeeded, the name, e-mail address
    and skills found in its text.  The methods mutate the object; here each
    call maps a reader to the reader it leaves behind. */
module ResumeReader {
  import opened Wrappers
  import opened Chars
  import opened Text
  import opened Views
  import opened NamePattern
  import opened Names
  import opened Emails
  import opened Skills
  import opened Documents

  /** The state of a reader; `None` stands for Python's `None` before the
      first successful extraction.  The skill list is kept as a set, since
      line 74 builds it from one and its order is unspecified. */
  datatype Reader = Reader(
    filePath: string,
    name: Option<string>,
    email: Option<string>,
    skills: set<string>)

  /** A fresh reader (lines 7-11). */
  function NewReader(filePath: string): Reader {
    Reader(filePath, None, None, {})
  }

  /** What lines 49-74 find in non-empty content. */
  datatype Info = Info(name: string, email: string, skills: set<string>)

  /** The name is looked for in the name view, the address and the skills
      in the match view (lines 49-74). */
  function InfoOf(content: string): Info {
    Info(NameOf(NameView(content)), EmailOf(MatchView(content)), SkillsOf(MatchView(content)))
  }

  /** `extract_info` (lines 43-80): the boolean it returns and the reader it
      leaves.  A read error or empty content ends in the `except` branch,
      which leaves every field as it was. */
  function ExtractInfo(reader: Reader, files: Files): (r: (bool, Reader))
    ensures r.1.filePath == reader.filePath
    ensures r.0 <==> ExtractText(reader.filePath, files).Success? && ExtractText(reader.filePath, files).value != ""
    ensures !r.0 ==> r.1 == reader
    ensures r.0 ==> r.1.name.Some? && r.1.email.Some?
  {
    match ExtractText(reader.filePath, files)
    case Failure(_) => (false, reader)
    case Success(content) =>
      if content == "" then (false, reader)
      else
        var info := InfoOf(content);
        (true, Reader(reader.filePath, Some(info.name), Some(info.email), info.skills))
  }

  // ---------------------------------------------------------------------
  // What a successful extraction stores
  // ---------------------------------------------------------------------

  /** A successful extraction stores, as name, address and skills, what
      the text that `extract_text` returned yields: the lemmas below about
      `InfoOf` are about the reader's fields. */
  lemma SuccessStoresInfo(reader: Reader, files: Files)
    requires ExtractInfo(reader, files).0
    ensures ExtractText(reader.filePath, files).Success?
    ensures var info := InfoOf(ExtractText(reader.filePath, files).value);
      var r := ExtractInfo(reader, files).1;
      && r.name == Some(info.name) && r.email == Some(info.email) && r.skills == info.skills
  {
  }

  /** A reader whose extraction failed still holds the initial `None`,
      `None` and no skills. */
  lemma FailureKeepsInitialState(filePath: string, files: Files)
    requires !ExtractInfo(NewReader(filePath), files).0
    ensures var r := ExtractInfo(NewReader(filePath), files).1;
      r.name == None && r.email == None && r.skills == {}
  {
  }

  /** An unsupported extension always fails, whatever the file holds. */
  lemma UnsupportedFails(reader: Reader, files: Files)
    requires FormatOf(Extension(reader.filePath)).None?
    ensures ExtractInfo(reader, files) == (false, reader)
  {
  }

  /** Extracting twice from the same files gives what extracting once did:
      every field a success writes depends only on the text. */
  lemma ExtractInfoIdempotent(reader: Reader, files: Files)
    ensures var once := ExtractInfo(reader, files).1;
      ExtractInfo(once, files) == ExtractInfo(reader, files)
  {
  }

  /** Content that is only whitespace is not rejected: it gives "unknown",
      "unknown" and no skills. */
  lemma WhitespaceOnlyContent(content: string)
    requires content != [] && AllSpace(content)
    ensures InfoOf(content) == Info(Unknown, Unknown, {})
  {
    var v := MatchView(content);
    assert v == [];
    assert NameView(content) == [];
    assert FindFrom(v, 0) == None;
    assert Search(NameView(content)) == None;
    assert FindAllFrom(v, 0) == [];
  }

  /** The stored name is "unknown" exactly when the pattern finds no name
      in the name view; otherwise it is the longest name the pattern
      accepts at the start of that view, reduced to its first occurrences
      and title-cased. */
  lemma NameFound(content: string)
    ensures var v := NameView(content);
      var name := InfoOf(content).name;
      && (name == Unknown <==> forall j: nat :: !Candidate(v, 0, j))
      && (name != Unknown ==>
            exists e: nat :: && Candidate(v, 0, e)
                             && (forall j: nat :: Candidate(v, 0, j) ==> j <= e)
                             && name == FormatName(v[..e]))
  {
    var v := NameView(content);
    NameOfView(content);
    match Search(v)
    case Some(m) =>
      assert Candidate(v, 0, m.1);
    case None =>
  }

  /** A stored name other than "unknown" is title-cased, its words are
      separated by single spaces, and no word repeats another up to case. */
  lemma NameShape(content: string)
    requires InfoOf(content).name != Unknown
    ensures var name := InfoOf(content).name;
      && IsTitleCased(name)
      && name == Join(Words(name))
      && Distinct(Words(name))
  {
    var v := NameView(content);
    NameOfView(content);
    match Search(v)
    case Some(m) =>
      FormatNameWords(v[..m.1]);
    case None =>
  }

  /** The stored address is the leftmost, longest match of the address
      pattern in the match view, and "unknown" exactly when there is none. */
  lemma EmailFound(content: string)
    ensures var v := MatchView(content);
      var email := InfoOf(content).email;
      && (email == Unknown <==> forall i: nat, e: nat :: !EmailMatch(v, i, e))
      && (email != Unknown ==>
            exists i: nat, e: nat :: && EmailMatch(v, i, e) && email == v[i..e]
                                     && (forall i': nat, e': nat :: i' < i ==> !EmailMatch(v, i', e'))
                                     && (forall e': nat :: EmailMatch(v, i, e') ==> e' <= e))
  {
    var v := MatchView(content);
    EmailOfIsLeftmostLongest(v);
    match FindFrom(v, 0)
    case Some(m) =>
      EmailShape(v, m.0, m.1);
    case None =>
  }

  /** The stored address holds no upper-case letter. */
  lemma EmailIsLowerCase(content: string)
    ensures var email := InfoOf(content).email;
      forall k :: 0 <= k < |email| ==> !IsUpper(email[k])
  {
    var v := MatchView(content);
    assert InfoOf(content).email == EmailOf(v);
    EmailOfKeepsCase(v);
  }

  /** The stored skills are exactly the entries of the vocabulary that occur
      in the match view with a word boundary on either side. */
  lemma SkillsFound(content: string, k: string)
    ensures var v := MatchView(content);
      k in InfoOf(content).skills <==> k in Vocabulary && exists q: nat :: q <= |v| && SkillAt(v, q, k)
  {
    SkillsOfExactly(MatchView(content), k);
  }

  /** Upper-case text finds the same skills as its lower-case form: the
      match view is lower-cased first (line 50). */
  lemma SkillsIgnoreCase(content: string)
    ensures InfoOf(Lower(content)).skills == InfoOf(content).skills
    ensures InfoOf(Lower(content)).email == InfoOf(content).email
  {
    MatchViewOfLower(content);
  }
}
