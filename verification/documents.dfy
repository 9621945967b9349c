/** `ResumeReader.extract_text` (resume_reader.py, lines 13-41): the
    lower-cased extension of the path picks one of three readers, and the
    text of the file is what that reader yields.  The readers themselves
    (the file system, UTF-8 decoding, PyPDF2 and python-docx) are not part
    of this model: `Files` says, for the one path, how each of them ends. */
module Documents {
  import opened Wrappers
  import opened Chars
  import opened Text
  import opened Views

  // ---------------------------------------------------------------------
  // The extension
  // ---------------------------------------------------------------------

  /** `s.split('.')[-1]`: what follows the last dot of `s`, or all of `s`
      when it has no dot. */
  function AfterLastDot(s: string): (r: string)
    ensures |r| <= |s| && r == s[|s| - |r|..]
    ensures forall i :: 0 <= i < |r| ==> r[i] != '.'
    ensures |r| < |s| ==> s[|s| - |r| - 1] == '.'
    decreases |s|
  {
    if s == [] || s[|s| - 1] == '.' then []
    else AfterLastDot(s[..|s| - 1]) + [s[|s| - 1]]
  }

  /** The extension of a path as line 15 computes it. */
  function Extension(path: string): string {
    AfterLastDot(Lower(path))
  }

  /** The three facts about `AfterLastDot` pin its result down. */
  lemma AfterLastDotUnique(s: string, r: string)
    requires |r| <= |s| && r == s[|s| - |r|..]
    requires forall i :: 0 <= i < |r| ==> r[i] != '.'
    requires |r| < |s| ==> s[|s| - |r| - 1] == '.'
    ensures AfterLastDot(s) == r
  {
  }

  /** A dot-free name after the last dot is the extension, lower-cased:
      "CV.Final.PDF" has the extension "pdf". */
  lemma ExtensionAfterDot(stem: string, ext: string)
    requires forall i :: 0 <= i < |ext| ==> ext[i] != '.'
    ensures Extension(stem + "." + ext) == Lower(ext)
  {
    var s := Lower(stem + "." + ext);
    LowerAppend(stem + ".", ext);
    LowerAppend(stem, ".");
    assert s == Lower(stem) + "." + Lower(ext);
    AfterLastDotUnique(s, Lower(ext));
  }

  /** A path without a dot is its own extension, lower-cased. */
  lemma ExtensionWithoutDot(path: string)
    requires forall i :: 0 <= i < |path| ==> path[i] != '.'
    ensures Extension(path) == Lower(path)
  {
    AfterLastDotUnique(Lower(path), Lower(path));
  }

  // ---------------------------------------------------------------------
  // The readers
  // ---------------------------------------------------------------------

  /** How a reader's call on the path ended when it raised. */
  datatype Raised =
    | NotFound   // FileNotFoundError
    | Failed     // any other exception (decoding error, damaged file, ...)

  datatype Outcome<T> = Returned(value: T) | Raised(raised: Raised)

  /** What each reader yields for the file at the path: the text of
      `open(path, encoding='utf-8').read()`, the result of `extract_text()`
      on each page of `PdfReader(path)` (None when a page has no text), and
      the `text` of each paragraph of `Document(path)`. */
  datatype Files = Files(
    text: Outcome<string>,
    pages: Outcome<seq<Option<string>>>,
    paragraphs: Outcome<seq<string>>)

  /** The exception `extract_text` raises: a `FileNotFoundError` naming the
      path, or a generic "error reading file" wrapping the cause. */
  datatype ReadError =
    | FileNotFound(path: string)
    | ReadFailed(cause: Cause)

  datatype Cause =
    | Unsupported(ext: string)   // the ValueError of line 36
    | ReaderFailed               // any other failure of a reader

  /** The formats line 15 onwards accepts. */
  datatype Format = Txt | Pdf | Docx

  function FormatOf(ext: string): Option<Format> {
    if ext == "txt" then Some(Txt)
    else if ext == "pdf" then Some(Pdf)
    else if ext == "docx" then Some(Docx)
    else None
  }

  /** `page.extract_text() or ''` (line 25): a page without text gives the
      empty string. */
  function PageText(page: Option<string>): string {
    if page.Some? then page.value else ""
  }

  /** The text of a PDF (lines 23-26): the pages in order, a page without
      text contributing nothing. */
  function PdfText(pages: seq<Option<string>>): string {
    if pages == [] then ""
    else PdfText(pages[..|pages| - 1]) + PageText(pages[|pages| - 1])
  }

  /** The text of a Word document (lines 30-33): each paragraph followed by
      a line feed. */
  function DocxText(paragraphs: seq<string>): string {
    if paragraphs == [] then ""
    else DocxText(paragraphs[..|paragraphs| - 1]) + paragraphs[|paragraphs| - 1] + "\n"
  }

  /** How a reader's outcome becomes the result of `extract_text`
      (lines 38-41). */
  function Deliver(path: string, o: Outcome<string>): Result<string, ReadError> {
    match o
    case Returned(text) => Success(text)
    case Raised(NotFound) => Failure(FileNotFound(path))
    case Raised(Failed) => Failure(ReadFailed(ReaderFailed))
  }

  /** What the reader for `format` yields for the file (lines 17-33). */
  function Read(format: Format, files: Files): Outcome<string> {
    match format
    case Txt => files.text
    case Pdf =>
      (match files.pages
       case Returned(pages) => Returned(PdfText(pages))
       case Raised(e) => Raised(e))
    case Docx =>
      (match files.paragraphs
       case Returned(paragraphs) => Returned(DocxText(paragraphs))
       case Raised(e) => Raised(e))
  }

  /** `extract_text` (lines 13-41). */
  function ExtractText(path: string, files: Files): (r: Result<string, ReadError>)
    ensures r.Success? ==> FormatOf(Extension(path)).Some?
    ensures FormatOf(Extension(path)).None? ==> r == Failure(ReadFailed(Unsupported(Extension(path))))
    ensures r.Failure? && r.error.FileNotFound? ==> r.error.path == path
  {
    match FormatOf(Extension(path))
    case Some(format) => Deliver(path, Read(format, files))
    case None => Failure(ReadFailed(Unsupported(Extension(path))))
  }

  // ---------------------------------------------------------------------
  // What the readers deliver
  // ---------------------------------------------------------------------

  /** The reader that the extension selects, and only that one, decides the
      result; an unsupported extension never looks at the file. */
  lemma ExtractTextUsesOneReader(path: string, f1: Files, f2: Files)
    ensures FormatOf(Extension(path)) == Some(Txt) && f1.text == f2.text ==> ExtractText(path, f1) == ExtractText(path, f2)
    ensures FormatOf(Extension(path)) == Some(Pdf) && f1.pages == f2.pages ==> ExtractText(path, f1) == ExtractText(path, f2)
    ensures FormatOf(Extension(path)) == Some(Docx) && f1.paragraphs == f2.paragraphs ==> ExtractText(path, f1) == ExtractText(path, f2)
    ensures FormatOf(Extension(path)).None? ==> ExtractText(path, f1) == ExtractText(path, f2)
  {
  }

  /** For a supported format, the text is what its reader returned; a
      missing file is reported as missing, with the path, and every other
      failure of the reader becomes a read failure. */
  lemma ExtractTextErrors(path: string, files: Files, format: Format)
    requires FormatOf(Extension(path)) == Some(format)
    ensures forall text :: Read(format, files) == Returned(text) <==> ExtractText(path, files) == Success(text)
    ensures Read(format, files) == Raised(NotFound) <==> ExtractText(path, files) == Failure(FileNotFound(path))
    ensures Read(format, files) == Raised(Failed) <==> ExtractText(path, files) == Failure(ReadFailed(ReaderFailed))
  {
    var o := Read(format, files);
    assert ExtractText(path, files) == Deliver(path, o);
    match o
    case Returned(text) =>
    case Raised(NotFound) =>
    case Raised(Failed) =>
  }

  /** A plain-text file is delivered whole. */
  lemma TextFileVerbatim(path: string, files: Files, text: string)
    requires FormatOf(Extension(path)) == Some(Txt) && files.text == Returned(text)
    ensures ExtractText(path, files) == Success(text)
  {
  }

  lemma {:induction false} PdfTextAppend(a: seq<Option<string>>, b: seq<Option<string>>)
    ensures PdfText(a + b) == PdfText(a) + PdfText(b)
    decreases |b|
  {
    if b == [] {
      assert a + b == a;
    } else {
      var last := b[|b| - 1];
      assert (a + b)[..|a + b| - 1] == a + b[..|b| - 1];
      PdfTextAppend(a, b[..|b| - 1]);
    }
  }

  /** A PDF yields no text exactly when no page yields any, which makes
      `extract_info` give up on it. */
  lemma {:induction false} PdfTextEmpty(pages: seq<Option<string>>)
    ensures PdfText(pages) == "" <==> forall n :: 0 <= n < |pages| ==> PageText(pages[n]) == ""
    decreases |pages|
  {
    if pages != [] {
      var init := pages[..|pages| - 1];
      PdfTextEmpty(init);
      assert forall n :: 0 <= n < |init| ==> init[n] == pages[n];
    }
  }

  lemma {:induction false} DocxTextAppend(a: seq<string>, b: seq<string>)
    ensures DocxText(a + b) == DocxText(a) + DocxText(b)
    decreases |b|
  {
    if b == [] {
      assert a + b == a;
    } else {
      assert (a + b)[..|a + b| - 1] == a + b[..|b| - 1];
      DocxTextAppend(a, b[..|b| - 1]);
    }
  }

  /** The number of characters in all the paragraphs together. */
  function TotalLength(paragraphs: seq<string>): nat {
    if paragraphs == [] then 0
    else TotalLength(paragraphs[..|paragraphs| - 1]) + |paragraphs[|paragraphs| - 1]|
  }

  /** A Word document's text has one character per paragraph character and
      one line feed per paragraph. */
  lemma {:induction false} DocxTextLength(paragraphs: seq<string>)
    ensures |DocxText(paragraphs)| == TotalLength(paragraphs) + |paragraphs|
    decreases |paragraphs|
  {
    if paragraphs != [] {
      DocxTextLength(paragraphs[..|paragraphs| - 1]);
    }
  }

  /** The lines of a text, each ended by a line feed; a last line without
      one is kept as well. */
  function Lines(s: string): seq<string>
    decreases |s|
  {
    var n := LineEnd(s, 0);
    if s == [] then []
    else if n == |s| then [s]
    else [s[..n]] + Lines(s[n + 1..])
  }

  /** The position of the first line feed at or after `i`, or `|s|`. */
  function LineEnd(s: string, i: nat): (n: nat)
    requires i <= |s|
    ensures i <= n <= |s|
    ensures forall m :: i <= m < n ==> s[m] != '\n'
    ensures n < |s| ==> s[n] == '\n'
    decreases |s| - i
  {
    if i == |s| || s[i] == '\n' then i else LineEnd(s, i + 1)
  }

  /** Splitting a Word document's text at its line feeds gives back its
      paragraphs, as long as none of them holds a line feed itself. */
  lemma {:induction false} DocxTextLines(paragraphs: seq<string>)
    requires forall p <- paragraphs :: '\n' !in p
    ensures Lines(DocxText(paragraphs)) == paragraphs
    decreases |paragraphs|
  {
    if paragraphs != [] {
      var p := paragraphs[0];
      var rest := paragraphs[1..];
      assert paragraphs == [p] + rest;
      DocxTextAppend([p], rest);
      assert [p][..0] == [];
      assert DocxText([p]) == p + "\n";
      var s := DocxText(paragraphs);
      assert s == p + "\n" + DocxText(rest);
      LineEndOfParagraph(s, p);
      assert s[..|p|] == p;
      assert s[|p| + 1..] == DocxText(rest);
      DocxTextLines(rest);
    }
  }

  lemma LineEndOfParagraph(s: string, p: string)
    requires '\n' !in p && |p| < |s| && s[..|p|] == p && s[|p|] == '\n'
    ensures LineEnd(s, 0) == |p|
  {
  }

  /** A Word document's text is empty exactly when it has no paragraphs: a
      document of blank paragraphs still yields line feeds. */
  lemma DocxTextEmpty(paragraphs: seq<string>)
    ensures DocxText(paragraphs) == "" <==> paragraphs == []
  {
  }
}
