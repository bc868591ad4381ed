/**
 * Characters, string types and the tokens that the relaxed-text (Hjson) lexers
 * produce and the Hjson parser consumes.
 */
module HjsonText {

  datatype Option<T> = None | Some(value: T)

  /** How a string is (or is to be) written: quoted, multi-line, bare, or not yet chosen. */
  datatype StringType = SINGLE | DOUBLE | MULTI | IMPLICIT | NONE

  /** The kinds of token: one-character symbols, bare words, numbers, strings, line breaks and comments. */
  datatype Kind =
    | Symbol(c: char)
    | Word
    | Number
    | Str(stringType: StringType)
    | Break
    | Comment

  /**
   * A token: its kind, its span `[start, end)` in the text, and its parsed text
   * (the captured characters of a word, number or string).
   */
  datatype Token = Token(kind: Kind, start: nat, end: nat, parsed: string)

  /** Line breaks and comments carry formatting only: the context machines ignore them. */
  predicate IsMetadata(t: Token)
  {
    t.kind.Break? || t.kind.Comment?
  }

  predicate IsSymbol(t: Token, c: char)
  {
    t.kind == Symbol(c)
  }

  /** The lexers' `isWhitespace`: space, tab, carriage return and line feed. */
  predicate IsWhitespace(c: char)
  {
    c == ' ' || c == '\t' || c == '\r' || c == '\n'
  }

  /** Whitespace other than the line feed, which is a token of its own. */
  predicate IsLineWhitespace(c: char)
  {
    IsWhitespace(c) && c != '\n'
  }

  /** The lexers' `isPunctuation`: the container and separator characters, not ':'. */
  predicate IsPunctuation(c: char)
  {
    c == ',' || c == '{' || c == '}' || c == '[' || c == ']'
  }

  /** `isLegalKeyCharacter`: anything but whitespace, ':' and punctuation. */
  predicate IsLegalKeyCharacter(c: char)
  {
    !IsWhitespace(c) && c != ':' && !IsPunctuation(c)
  }

  /** The parser's `isPunctuationChar`: punctuation and ':'. */
  predicate IsPunctuationChar(c: char)
  {
    c == '{' || c == '}' || c == '[' || c == ']' || c == ',' || c == ':'
  }

  /** The writer's `isValidFirstChar`: a bare string may not start with punctuation or ':'. */
  predicate IsValidFirstChar(c: char)
  {
    c != '{' && c != '}' && c != '[' && c != ']' && c != ',' && c != ':'
  }

  /** The decimal digits `Character.isDigit` accepts from the ASCII range. */
  predicate IsDigit(c: char)
  {
    '0' <= c <= '9'
  }

  /** The letters and digits `Character.isLetterOrDigit` accepts from the ASCII range. */
  predicate IsLetterOrDigit(c: char)
  {
    IsDigit(c) || 'a' <= c <= 'z' || 'A' <= c <= 'Z'
  }

  /**
   * `Character.isWhitespace`: the ASCII controls tab to carriage return and the file,
   * group, record and unit separators, the space, and the Unicode space, line and
   * paragraph separators other than the non-breaking ones.
   */
  predicate IsJavaWhitespace(c: char)
  {
    '\t' <= c <= '\r' || '\U{1C}' <= c <= ' ' || c == '\U{1680}'
    || ('\U{2000}' <= c <= '\U{200A}' && c != '\U{2007}')
    || c == '\U{2028}' || c == '\U{2029}' || c == '\U{205F}' || c == '\U{3000}'
  }

  /** The regular-expression class `\s`: space, tab, line feed, vertical tab, form feed, carriage return. */
  predicate IsRegexSpace(c: char)
  {
    c == ' ' || '\t' <= c <= '\r'
  }

  /** The characters a key may hold are exactly those that neither end a key nor separate tokens. */
  lemma LegalKeyCharacters(c: char)
    ensures IsLegalKeyCharacter(c) <==> !IsWhitespace(c) && !IsPunctuationChar(c)
    ensures IsValidFirstChar(c) <==> !IsPunctuationChar(c)
    ensures IsPunctuation(c) ==> IsPunctuationChar(c) && !IsLegalKeyCharacter(c)
  {
  }
}
