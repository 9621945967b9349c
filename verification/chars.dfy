/** ASCII character classes and case mapping: the part of Python's `str` methods
    and of the `re` character classes that the reader relies on. */
module Chars {

  /** Python's `str.isspace` and the regular-expression class `\s`, on ASCII:
      space, tab, line feed, vertical tab, form feed, carriage return and the
      four separators U+001C..U+001F. */
  predicate IsSpace(c: char) {
    c == ' ' || ('\t' <= c <= '\r') || ('\U{1C}' <= c <= '\U{1F}')
  }

  predicate IsUpper(c: char) { 'A' <= c <= 'Z' }

  predicate IsLower(c: char) { 'a' <= c <= 'z' }

  predicate IsLetter(c: char) { IsUpper(c) || IsLower(c) }

  predicate IsDigit(c: char) { '0' <= c <= '9' }

  /** The regular-expression class `\w`. */
  predicate IsWord(c: char) { IsLetter(c) || IsDigit(c) || c == '_' }

  /** `str.lower` on one character. */
  function ToLower(c: char): (r: char)
    ensures !IsUpper(r)
    ensures IsLetter(r) <==> IsLetter(c)
    ensures IsSpace(r) <==> IsSpace(c)
    ensures IsWord(r) <==> IsWord(c)
    ensures IsUpper(c) ==> IsLower(r)
    ensures !IsUpper(c) ==> r == c
  {
    if IsUpper(c) then (c as int + 32) as char else c
  }

  /** `str.upper` on one character. */
  function ToUpper(c: char): (r: char)
    ensures !IsLower(r)
    ensures IsLetter(r) <==> IsLetter(c)
    ensures IsLower(c) ==> IsUpper(r)
    ensures !IsLower(c) ==> r == c
    ensures ToLower(r) == ToLower(c)
  {
    if IsLower(c) then (c as int - 32) as char else c
  }

  /** The character classes of the reader's regular expressions. */
  datatype Class =
    | Letters      // [A-Za-z]
    | Spaces       // \s
    | HSpaces      // [ \t]
    | EmailLocal   // [a-zA-Z0-9._%+-]
    | EmailDomain  // [a-zA-Z0-9.-]
    | Except(of: Class)  // the complement of a class, as `\S` is of `\s`

  predicate In(c: char, k: Class) {
    match k
    case Letters => IsLetter(c)
    case Spaces => IsSpace(c)
    case HSpaces => c == ' ' || c == '\t'
    case EmailLocal => IsLetter(c) || IsDigit(c) || c == '.' || c == '_' || c == '%' || c == '+' || c == '-'
    case EmailDomain => IsLetter(c) || IsDigit(c) || c == '.' || c == '-'
    case Except(k') => !In(c, k')
  }
}
