# Résumé reader, modelled in Dafny

This project models the `ResumeReader` class of `resume_reader.py`. A reader
holds the path of a résumé. `extract_text` picks a reader by the file's
extension and returns the document's text: plain text, PDF pages or Word
paragraphs. `extract_info` reads that text and stores three things:

- a name, found by a regular expression over a whitespace-collapsed view;
- an e-mail address, found in a lower-cased view;
- the set of skills from a fixed vocabulary.

If the text cannot be read, or comes back empty, `extract_info` returns
`False` and leaves the reader unchanged.

The model has one module per concern:

| module | file | what it holds |
|---|---|---|
| `Wrappers` | `wrappers.dfy` | `Option` and `Result` |
| `Chars` | `chars.dfy` | character classes (`\s`, `\w`, letters) and case mapping, restricted to ASCII |
| `Text` | `text.dfy` | `str.lower`, `str.strip`, `str.split()`, `' '.join`, `str.title`, and `re.sub` collapsing of a character class to one space |
| `Views` | `views.dfy` | the two normalised views of the content (lines 49-52) |
| `NamePattern` | `name_pattern.dfy` | the name expression of line 54: its language stated declaratively, and the engine's backtracking search written out |
| `Names` | `names.dfy` | duplicate removal and title-casing of the found name (lines 59-68) |
| `Emails` | `emails.dfy` | the address expression of line 55 and `re.search` over it |
| `Skills` | `skills.dfy` | the skill alternation of line 56 and `re.findall` over it |
| `Documents` | `documents.dfy` | `extract_text` (lines 13-41) |
| `ResumeReader` | `resume_reader.dfy` | the reader's state and `extract_info` (lines 7-11, 43-80) |

The regular-expression engine is modelled for each expression the source
uses, not in general. For the name, the model writes out the search the
engine performs: tokens tried longest first, with backtracking into the
lookahead. It proves that this search returns the longest run of name tokens
the lookahead accepts. For the address and the skills, the model writes out
the scan that `re.search` and `re.findall` perform, then proves that the scan
finds the leftmost and longest match, or every whole-word occurrence.

The file system and the PDF and Word libraries are not modelled. They become
a parameter, `Documents.Files`. It says what each library yields for the path:
its text, its pages, its paragraphs, or the exception it raised. Only the
reader that the extension selects is consulted.

## Behaviour worth knowing

Three consequences of the code are easy to miss, and the model keeps them:

- **Whitespace-only content is accepted.** Line 46 rejects only the empty
  string. Text made only of whitespace therefore succeeds, with name
  "unknown", e-mail "unknown" and no skills
  (`ResumeReader.WhitespaceOnlyContent`).
- **The name can swallow part of the address.** Take the two lines
  `Mary-Jane O'Brien` and `mary.jane@example.com`. In the name view (line
  52), the line break becomes a space. The name group is greedy, so it also
  takes the letters `mary` before the first dot of the address. The
  lookahead `\s*[a-zA-Z0-9._%+-]+@` still holds at `.jane@…`. Duplicate
  removal compares whole words ignoring case. `mary` differs from
  `Mary-Jane`, so it stays. The stored name is "Mary-Jane O'Brien Mary". The
  model states the rule that produces this: the longest candidate wins
  (`ResumeReader.NameFound`).
- **"c++" is found only before a word character.** Line 56 writes the skill
  as `c\+\+` followed by `\b`. After a `+`, a word boundary needs a word
  character to follow. So "c++" at the end of the text, or before a space or
  a comma, is not found. "c++x" is found (`Skills.CppNeedsWordAfter`).

Characters are ASCII:

- `\s` and `str.isspace` are space, `\t` to `\r`, and `\x1c` to `\x1f`.
- `\w` is `[A-Za-z0-9_]`.
- `str.lower`, `str.upper` and `str.title` change only `A`-`Z` and `a`-`z`.

## Model

| member | source | states |
|---|---|---|
| Documents.AfterLastDot | resume_reader.py:15 | the extension is the suffix of the path after its last dot: it contains no dot, and a dot precedes it unless it is the whole path |
| Documents.ExtensionAfterDot | resume_reader.py:15 | for a path `stem.ext` whose `ext` has no dot, the extension is `ext` lower-cased, whatever dots the stem holds |
| Documents.ExtensionWithoutDot | resume_reader.py:15 | a path without a dot is its own extension, lower-cased |
| Documents.ExtractText | resume_reader.py:13-41 | text is returned only for the extensions txt, pdf and docx; any other extension fails with a read error naming that extension; a not-found error names the path |
| Documents.ExtractTextUsesOneReader | resume_reader.py:17-36 | only the reader the extension selects can change the result; for an unsupported extension the file is never looked at |
| Documents.ExtractTextErrors | resume_reader.py:17-41 | for a supported format, the text is returned exactly when that format's reader returns it; a not-found error naming the path exactly when the reader raises FileNotFoundError; a generic read error exactly when the reader fails otherwise |
| Documents.TextFileVerbatim | resume_reader.py:17-19 | for a `.txt` file, the text `read()` returns is returned unchanged |
| Documents.PdfTextAppend | resume_reader.py:23-26 | the text of a run of pages is the text of its first part followed by the text of the rest, in page order |
| Documents.PdfTextEmpty | resume_reader.py:23-26 | a PDF yields empty text exactly when every page yields no text or None, so an image-only PDF does not raise |
| Documents.DocxTextAppend | resume_reader.py:30-33 | the text of a run of paragraphs is the text of its first part followed by the text of the rest, in document order |
| Documents.DocxTextLines | resume_reader.py:30-33 | splitting a Word document's text at line feeds gives back its paragraphs, when no paragraph contains a line feed |
| Documents.DocxTextLength | resume_reader.py:30-33 | a Word document's text is as long as all its paragraphs together plus one line feed per paragraph |
| Documents.DocxTextEmpty | resume_reader.py:30-33 | a Word document yields empty text exactly when it has no paragraphs; blank paragraphs still yield line feeds |
| Text.Strip | resume_reader.py:49 | `strip()` removes leading and trailing whitespace and keeps the rest in order: the result has no whitespace at either end, it is empty exactly when the input is all whitespace, and it equals an input that has none |
| Text.CollapseShape | resume_reader.py:49 | after collapsing a character class, each class character that remains is a single space, no two class characters are adjacent, and the result is empty exactly when the input is |
| Text.CollapseKeepsOutside | resume_reader.py:49 | collapsing a character class keeps every character outside the class, in order |
| Text.Title | resume_reader.py:66 | `title()` keeps the length, keeps the lower-case form, and upper-cases exactly the letters that do not follow a letter |
| Text.WordsFromAreSolid | resume_reader.py:61 | every word `split()` returns is non-empty and holds no whitespace |
| Text.WordsOfJoin | resume_reader.py:61 | splitting words joined by single spaces gives the words back |
| Text.FieldsFromAreSolid | resume_reader.py:49 | cutting a string at the runs of a character class gives non-empty pieces that hold no character of the class |
| Text.CollapseFromIsJoin | resume_reader.py:49 | in a string that neither starts nor ends inside a run of the class, replacing every run by one space gives the same result as cutting at the runs and joining the pieces with single spaces |
| Text.CollapseIsJoinOfWords | resume_reader.py:52 | in stripped text, collapsing every whitespace run to one space gives the same result as splitting into words and joining them with single spaces |
| Views.MatchView | resume_reader.py:49-50 | the match view has no tab, no upper-case letter, no two adjacent spaces, and no whitespace at either end; it is empty exactly when the content is all whitespace; `MatchViewIsJoinedFields` pins down its value |
| Views.NameView | resume_reader.py:52 | every whitespace character in the name view is a space, no two are adjacent, none is at either end; the view is empty exactly when the content is all whitespace |
| Views.MatchViewKeepsText | resume_reader.py:49-50 | the match view keeps every character of the stripped content other than spaces and tabs, line feeds included, in order and lower-cased |
| Views.NameViewKeepsText | resume_reader.py:52 | the name view keeps every non-whitespace character of the content, in order and unchanged |
| Views.MatchViewIsJoinedFields | resume_reader.py:49-50 | the match view equals the stripped content cut at every run of spaces and tabs, rejoined with exactly one space between the pieces, and lower-cased; no piece is empty or holds a space or tab |
| Views.NameViewIsJoinedWords | resume_reader.py:52 | the name view equals the words of the stripped content joined with single spaces |
| Views.MatchViewIdempotent | resume_reader.py:49-50 | normalising the match view a second time changes nothing |
| Views.MatchViewOfLower | resume_reader.py:49-50 | lower-casing the content first does not change the match view |
| NamePattern.TokenEndsExact | resume_reader.py:54 | the ends the engine tries for one token are exactly the ends of spans that match `[A-Za-z]+(?:[-'][A-Za-z]+)?` |
| NamePattern.TokenEndsWellOrdered | resume_reader.py:54 | the engine tries token ends longest first, and whitespace can follow only the first one it tries |
| NamePattern.RunSpanStep | resume_reader.py:54 | the name group is either one token, or the longest token followed by whitespace and another name group |
| NamePattern.ExploreLongest | resume_reader.py:54 | the backtracking search returns the longest group end that the lookahead accepts, and fails exactly when the lookahead rejects every group end |
| NamePattern.GroupAtLongest | resume_reader.py:54 | the match at a position is the longest name candidate there, and there is none exactly when no candidate exists |
| NamePattern.NoMatchPastStart | resume_reader.py:54 | in text without a line feed, the name pattern cannot match at any position after the first |
| NamePattern.SearchIsAnchored | resume_reader.py:58 | in text without a line feed that does not start with whitespace, `re.search` returns what a match at the start gives |
| Names.KeepUniqueKeepsKinds | resume_reader.py:62-65 | duplicate removal keeps every word's lower-case form: the result and the input hold the same words up to case |
| Names.KeepUniqueDistinct | resume_reader.py:62-65 | after duplicate removal no two words are equal ignoring case |
| Names.KeepUniqueIsFirstOccurrences | resume_reader.py:62-65 | duplicate removal keeps exactly the words whose lower-case form has not occurred earlier, in their original order |
| Names.KeepUniqueKeepsParts | resume_reader.py:62-65 | every kept word is one of the input words, and the first word is always kept first |
| Names.TitleJoin | resume_reader.py:66 | title-casing words joined by spaces equals joining the title-cased words |
| Names.FormatNameWords | resume_reader.py:60-66 | the formatted name's words are the first occurrences of the group's words, title-cased and joined by single spaces; no two are equal ignoring case; up to case they are the group's words |
| Names.FormatNameKnown | resume_reader.py:60-68 | a group that starts with a letter is formatted to a name that starts with a capital letter, so it never reads as "unknown" |
| Names.NameOfView | resume_reader.py:58-68 | on the name view, a found match starts at the beginning and is the longest candidate, and the name is that candidate formatted; without a candidate the name is "unknown" |
| Emails.LastDot | resume_reader.py:55 | backtracking the greedy domain run stops at the last dot, before the bound, that is followed by two letters; without one it fails |
| Emails.SplitIsForced | resume_reader.py:55 | in any address match, the `@` ends the local-part run, the final dot lies inside the domain run and is followed by two letters, and the match ends inside the letter run after that dot |
| Emails.MatchEndAtLongest | resume_reader.py:55 | the engine's match at a position is the longest address match there, and it fails exactly when there is none |
| Emails.FindFromLeftmostLongest | resume_reader.py:70 | `re.search` returns the leftmost start of an address match and the longest end at that start; it fails exactly when no match starts after the given position |
| Emails.EmailOfIsLeftmostLongest | resume_reader.py:70-71 | the stored address is the leftmost, longest match, or "unknown" exactly when there is none |
| Emails.EmailShape | resume_reader.py:55 | a matched address holds exactly one `@`, not at its start; every other character is allowed in the local part; it ends with a dot followed by at least two letters; and it is never "unknown" |
| Emails.EmailOfKeepsCase | resume_reader.py:70-71 | an address found in text without upper-case letters has none either |
| Skills.FirstSkill | resume_reader.py:56 | the alternation at a position yields a vocabulary entry that matches there between word boundaries; it fails only when no remaining alternative matches |
| Skills.SkillAtUnique | resume_reader.py:56 | at most one vocabulary entry matches at any position; "java" cannot match where "javascript" starts |
| Skills.NoSkillInside | resume_reader.py:56 | no vocabulary entry matches starting strictly inside the text of another entry |
| Skills.FindAllSound | resume_reader.py:73 | every skill `re.findall` reports is a vocabulary entry occurring between word boundaries |
| Skills.FindAllComplete | resume_reader.py:73 | every vocabulary entry occurring between word boundaries at or after the scan position is reported |
| Skills.SkillsOfExactly | resume_reader.py:73-74 | a skill is in the stored set exactly when it is in the vocabulary and occurs in the match view between word boundaries |
| Skills.CppNeedsWordAfter | resume_reader.py:56 | "c++" is found only when a word character follows it |
| Skills.SkillStartsWord | resume_reader.py:56 | a found skill never starts right after a word character |
| ResumeReader.ExtractInfo | resume_reader.py:43-80 | extraction succeeds exactly when the text is read and is non-empty; on failure the reader is unchanged; on success the path is kept and name and e-mail are set |
| ResumeReader.SuccessStoresInfo | resume_reader.py:45-74 | after a successful extraction, the reader's name, address and skills are what the text returned by `extract_text` yields through the two views |
| ResumeReader.FailureKeepsInitialState | resume_reader.py:7-11 | after a failed first extraction, a new reader still has no name, no e-mail and no skills |
| ResumeReader.UnsupportedFails | resume_reader.py:35-36 | a path with an unsupported extension always fails and leaves the reader unchanged |
| ResumeReader.ExtractInfoIdempotent | resume_reader.py:43-76 | extracting a second time from the same files leaves the reader and the result as the first extraction did |
| ResumeReader.WhitespaceOnlyContent | resume_reader.py:46-74 | content made only of whitespace is accepted and gives "unknown", "unknown" and no skills |
| ResumeReader.NameFound | resume_reader.py:52-68 | the name extracted from the text (stored on success, by `SuccessStoresInfo`) is "unknown" exactly when the name view has no candidate; otherwise it is the longest candidate, formatted |
| ResumeReader.NameShape | resume_reader.py:60-66 | a stored name other than "unknown" is title-cased, has its words separated by single spaces, and repeats no word up to case |
| ResumeReader.EmailFound | resume_reader.py:70-71 | the address extracted from the text (stored on success) is the leftmost, longest address match in the match view, or "unknown" exactly when there is none |
| ResumeReader.EmailIsLowerCase | resume_reader.py:49-71 | the stored address holds no upper-case letter |
| ResumeReader.SkillsFound | resume_reader.py:73-74 | a skill is extracted from the text (and stored on success) exactly when it is in the vocabulary and occurs in the match view between word boundaries |
| ResumeReader.SkillsIgnoreCase | resume_reader.py:49-50 | lower-casing the content does not change the stored skills or address |

## Left out

- `skill_matcher.py` (TF-IDF and cosine scores): floating-point arithmetic and scikit-learn are outside this model.
- `api.py` and `main.py`: the HTTP endpoint and the command line only call the reader and print.
- File access, UTF-8 decoding, the newline translation of text-mode `open` (which turns `\r\n` and `\r` into `\n` before line 19 returns), PyPDF2 and python-docx are a parameter (`Documents.Files`), not a model. For a missing Word file, python-docx raises its own error rather than `FileNotFoundError`. Which outcome the parameter gives is therefore up to the caller.
- Exception messages: the model keeps the kind of each error (not found, unsupported extension, reader failure) and the path or extension it names, but not the message text.
- The `print` on line 79 is output only, and it is not modelled.
- Characters outside ASCII: Unicode whitespace, letters and case mappings are not modelled.
- ResumeReader.ExtractInfo: the stored skills are a set, not a list. Line 74 builds the list from a set, so its order is unspecified.
