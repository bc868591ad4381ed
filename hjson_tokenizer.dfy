/**
 * The compat Hjson lexer: the character rules that split bare text into keys,
 * keywords, numbers and implicit (unquoted) strings, the scanners `key`, `ambiguous`
 * and `unquoted` as functions of the text and a start position, and the stateful
 * lexer (class `HjsonTokenizer`) whose methods advance a position through the text
 * and keep its `StringContext` up to date.
 */
module CompatHjsonTokenizer {
  import opened HjsonText
  import opened LineReading
  import opened StringContexts

  predicate IsSign(c: char)
  {
    c == '+' || c == '-'
  }

  /** The type suffixes `Double.parseDouble` allows after a decimal. */
  predicate IsFloatSuffix(c: char)
  {
    c == 'f' || c == 'F' || c == 'd' || c == 'D'
  }

  /** The characters after which a keyword or number may end: a line feed, `,`, `}`, `]` and `#`. */
  predicate EndsKwOrNum(c: char)
  {
    c == '\n' || c == ',' || c == '}' || c == ']' || c == '#'
  }

  /** A `/` starting a line or block comment. */
  predicate OpensComment(text: string, p: nat)
    requires p < |text|
  {
    text[p] == '/' && p + 1 < |text| && (text[p + 1] == '/' || text[p + 1] == '*')
  }

  /** `isOctalFormat`: a leading zero followed by another digit. */
  predicate IsOctalFormat(s: string)
  {
    |s| > 1 && s[0] == '0' && IsDigit(s[1])
  }

  /** The end of the run of decimal digits starting at `i`. */
  function DigitsEnd(s: string, i: nat): (j: nat)
    requires i <= |s|
    ensures i <= j <= |s|
    ensures forall k :: i <= k < j ==> IsDigit(s[k])
    ensures j == |s| || !IsDigit(s[j])
    decreases |s| - i
  {
    if i < |s| && IsDigit(s[i]) then DigitsEnd(s, i + 1) else i
  }

  /** Nothing from `m` on, or an exponent `e`/`E`, an optional sign and at least one digit up to the end. */
  predicate IsExponentTail(s: string, m: nat)
    requires m <= |s|
  {
    m == |s|
    || ((s[m] == 'e' || s[m] == 'E')
        && var m1 := if m + 1 < |s| && IsSign(s[m + 1]) then m + 2 else m + 1;
           DigitsEnd(s, m1) > m1 && DigitsEnd(s, m1) == |s|)
  }

  /** Digits with an optional fraction, at least one digit in all, then an optional exponent. */
  predicate IsDecimal(s: string)
  {
    var j := DigitsEnd(s, 0);
    if j < |s| && s[j] == '.' then
      var k := DigitsEnd(s, j + 1);
      (j > 0 || k > j + 1) && IsExponentTail(s, k)
    else j > 0 && IsExponentTail(s, j)
  }

  /** `String.trim` on the front: the text after its leading characters at or below ' '. */
  function TrimStart(s: string): (r: string)
    ensures |r| <= |s| && r == s[|s| - |r|..]
    ensures |r| == 0 || r[0] > ' '
    ensures forall k :: 0 <= k < |s| - |r| ==> s[k] <= ' '
  {
    if |s| > 0 && s[0] <= ' ' then TrimStart(s[1..]) else s
  }

  /** `String.trim` on the back: the text before its trailing characters at or below ' '. */
  function TrimEnd(s: string): (r: string)
    ensures |r| <= |s| && r == s[..|r|]
    ensures |r| == 0 || r[|r| - 1] > ' '
    ensures forall k :: |r| <= k < |s| ==> s[k] <= ' '
  {
    if |s| > 0 && s[|s| - 1] <= ' ' then TrimEnd(s[..|s| - 1]) else s
  }

  /** `String.trim`: the text without its leading and trailing characters at or below ' '. */
  function Trimmed(s: string): string
  {
    TrimEnd(TrimStart(s))
  }

  /** A text with no character at or below ' ' at either end is its own trimmed form. */
  lemma Untrimmed(s: string)
    requires |s| > 0 && s[0] > ' ' && s[|s| - 1] > ' '
    ensures Trimmed(s) == s
  {
  }

  /**
   * The decimal forms `Double.parseDouble` accepts in a trimmed text: an optional
   * sign, then `NaN`, `Infinity`, or a decimal with an optional `f`/`F`/`d`/`D` suffix.
   */
  predicate IsPlainNumber(s: string)
  {
    var b := if |s| > 0 && IsSign(s[0]) then s[1..] else s;
    b == "NaN" || b == "Infinity"
    || IsDecimal(if |b| > 0 && IsFloatSuffix(b[|b| - 1]) then b[..|b| - 1] else b)
  }

  /** What `Double.parseDouble` accepts: a plain number once the text is trimmed. */
  predicate IsNumberLiteral(text: string)
  {
    IsPlainNumber(Trimmed(text))
  }

  predicate IsKeyword(s: string)
  {
    s == "true" || s == "false" || s == "null"
  }

  /** `asKwOrNum(text)`: a keyword or number token spanning `text` from `start`, or nothing. */
  function AsKwOrNum(s: string, start: nat): Option<Token>
  {
    if IsKeyword(s) then Some(Token(Word, start, start + |s|, s))
    else if IsOctalFormat(s) then None
    else if IsNumberLiteral(s) then Some(Token(Number, start, start + |s|, s))
    else None
  }

  /** `canBeEndOfKwOrNum`: a line feed, `,`, `}`, `]`, `#`, or the start of a line or block comment. */
  predicate CanBeEndOfKwOrNum(text: string, p: nat)
  {
    p < |text|
    && (EndsKwOrNum(text[p]) || OpensComment(text, p))
  }

  /** An implicit string token holding exactly the text it spans. */
  function Implicit(text: string, start: nat, e: nat): Token
    requires start <= e <= |text|
  {
    Token(Str(IMPLICIT), start, e, text[start..e])
  }

  /** The end of the run of key characters starting at `p`, where `key` stops. */
  function KeyEnd(text: string, p: nat): (e: nat)
    requires p <= |text|
    ensures p <= e <= |text|
    ensures forall k :: p <= k < e ==> IsLegalKeyCharacter(text[k])
    ensures e == |text| || !IsLegalKeyCharacter(text[e])
    decreases |text| - p
  {
    if p < |text| && IsLegalKeyCharacter(text[p]) then KeyEnd(text, p + 1) else p
  }

  /** `key()`: a word token over the run of key characters; the reader is left just after it. */
  function KeyScan(text: string, start: nat): (Token, nat)
    requires start <= |text|
  {
    var e := KeyEnd(text, start);
    (Token(Word, start, e, text[start..e]), e)
  }

  /** The text `text[start..]` at the end of the input: a keyword or number if it is one, else an implicit string. */
  function AtEndOfText(text: string, start: nat): (Token, nat)
    requires start <= |text|
  {
    match AsKwOrNum(text[start..], start)
    case Some(t) => (t, |text|)
    case None => (Implicit(text, start, |text|), |text|)
  }

  /**
   * A possible end of value after the prefix `text[start..p]`, the reader at `q`: the
   * prefix alone if the position is a boundary and the prefix is a keyword or number,
   * else the prefix and the rest of the line as one implicit string.
   */
  function KwOrRestOfLine(text: string, start: nat, p: nat, q: nat, boundary: bool): (Token, nat)
    requires start <= p <= q <= |text|
  {
    var kw := if boundary then AsKwOrNum(text[start..p], start) else None;
    if kw.Some? then (kw.value, q)
    else (Implicit(text, start, LineContentEnd(text, p)), NextLineBreak(text, p))
  }

  /** The loop of `ambiguous()`, the characters `text[start..p]` already read. */
  function AmbiguousFrom(text: string, start: nat, p: nat): (Token, nat)
    requires start <= p <= |text|
    decreases |text| - p
  {
    if p == |text| then AtEndOfText(text, start)
    else if text[p] == ':' then (Implicit(text, start, p), p)
    else if IsWhitespace(text[p]) then
      var q := SkipLineWhitespace(text, p);
      if q < |text| && (text[q] == ':' || text[q] == '\n') then (Implicit(text, start, p), q)
      else KwOrRestOfLine(text, start, p, q, CanBeEndOfKwOrNum(text, q))
    else if CanBeEndOfKwOrNum(text, p) then KwOrRestOfLine(text, start, p, p, true)
    else AmbiguousFrom(text, start, p + 1)
  }

  /** The loop of `unquoted()`, the characters `text[start..p]` already read. */
  function UnquotedFrom(text: string, start: nat, p: nat): (Token, nat)
    requires start <= p <= |text|
    decreases |text| - p
  {
    if p == |text| then AtEndOfText(text, start)
    else if IsWhitespace(text[p]) then
      var q := SkipLineWhitespace(text, p);
      KwOrRestOfLine(text, start, p, q, CanBeEndOfKwOrNum(text, q))
    else if CanBeEndOfKwOrNum(text, p) then KwOrRestOfLine(text, start, p, p, true)
    else UnquotedFrom(text, start, p + 1)
  }

  /** `word()`: a key when one is expected, else the ambiguous scanner at the top, else an unquoted value. */
  function WordScan(text: string, start: nat, st: ContextState): (Token, nat)
    requires start <= |text|
  {
    if st.expectingKey then KeyScan(text, start)
    else if st.top then AmbiguousFrom(text, start, start)
    else UnquotedFrom(text, start, start)
  }

  /**
   * The outcome of `single()`: the end of the text, a token, or a comment or quoted
   * string at `start`, which the lexer's base class reads.
   */
  datatype Lexed = EndOfText | Lexed(t: Token) | External(start: nat)

  /** Whether `single` hands the character at `p` to the comment or quote readers of the base class. */
  predicate StartsExternal(text: string, p: nat)
    requires p < |text|
  {
    text[p] == '#' || text[p] == '\'' || text[p] == '"'
    || OpensComment(text, p)
  }

  /** `single()`: the next token from `pos`, the position after it, and the updated context. */
  function SingleStep(text: string, pos: nat, st: ContextState): (Lexed, nat, ContextState)
    requires pos <= |text|
  {
    var p := SkipLineWhitespace(text, pos);
    if p == |text| then (EndOfText, p, st)
    else
      var c := text[p];
      var st1 := Prepared(st, c);
      if StartsExternal(text, p) then (External(p), p, st1)
      else if c == '\n' then
        var t := Token(Break, p, p + 1, "\n");
        (Lexed(t), p + 1, Updated(st1, Some(t)))
      else if IsPunctuation(c) || c == ':' then
        var t := Token(Symbol(c), p, p + 1, [c]);
        (Lexed(t), p + 1, Updated(st1, Some(t)))
      else
        var (t, q) := WordScan(text, p, st1);
        (Lexed(t), q, Updated(st1, Some(t)))
  }

  /** The token kinds a bare-text scanner returns, each with the text it holds. */
  predicate WellScanned(text: string, start: nat, r: (Token, nat))
  {
    var (t, q) := r;
    && t.start == start <= t.end <= q <= |text|
    && t.parsed == text[start..t.end]
    && (t.kind == Word || t.kind == Number || t.kind == Str(IMPLICIT))
    && (t.kind == Word ==> IsKeyword(t.parsed))
    && (t.kind == Number ==> IsNumberLiteral(t.parsed) && !IsOctalFormat(t.parsed))
  }

  /** An unsigned decimal with no suffix and nothing to trim is a number unless it has the octal form. */
  lemma DecimalIsNumber(s: string, start: nat)
    requires IsDecimal(s) && !IsOctalFormat(s)
    requires s[0] > ' ' && s[|s| - 1] > ' ' && !IsSign(s[0]) && !IsFloatSuffix(s[|s| - 1])
    ensures AsKwOrNum(s, start) == Some(Token(Number, start, start + |s|, s))
  {
    Untrimmed(s);
  }

  /** `asKwOrNum` returns a word exactly for the three keywords, and a number exactly for a non-octal literal. */
  lemma AsKwOrNumExact(s: string, start: nat)
    ensures AsKwOrNum(s, start).Some? ==>
              AsKwOrNum(s, start).value.start == start && AsKwOrNum(s, start).value.end == start + |s|
              && AsKwOrNum(s, start).value.parsed == s
    ensures (AsKwOrNum(s, start).Some? && AsKwOrNum(s, start).value.kind == Word) <==> IsKeyword(s)
    ensures (AsKwOrNum(s, start).Some? && AsKwOrNum(s, start).value.kind == Number)
        <==> !IsKeyword(s) && !IsOctalFormat(s) && IsNumberLiteral(s)
    ensures AsKwOrNum(s, start).None? <==> !IsKeyword(s) && (IsOctalFormat(s) || !IsNumberLiteral(s))
  {
  }

  /** A leading zero followed by a digit is not a number: "01234" stays a string (the lexer's tests). */
  lemma LeadingZeroIsString()
    ensures AsKwOrNum("01234", 0) == None
  {
  }

  /** A zero with a fraction, a lone zero and a zero with a bare point are numbers (the lexer's tests). */
  lemma ZeroesAreNumbers()
    ensures AsKwOrNum("0.1234", 0) == Some(Token(Number, 0, 6, "0.1234"))
    ensures AsKwOrNum("0", 0) == Some(Token(Number, 0, 1, "0"))
    ensures AsKwOrNum("0.", 0) == Some(Token(Number, 0, 2, "0."))
  {
    ZeroFraction();
    LoneZero();
    ZeroPoint();
  }

  lemma LoneZero()
    ensures AsKwOrNum("0", 0) == Some(Token(Number, 0, 1, "0"))
  {
    assert DigitsEnd("0", 0) == 1;
    assert IsDecimal("0");
    DecimalIsNumber("0", 0);
  }

  lemma ZeroPoint()
    ensures AsKwOrNum("0.", 0) == Some(Token(Number, 0, 2, "0."))
  {
    assert DigitsEnd("0.", 0) == 1 && DigitsEnd("0.", 2) == 2;
    assert IsDecimal("0.");
    DecimalIsNumber("0.", 0);
  }

  lemma ZeroFraction()
    ensures AsKwOrNum("0.1234", 0) == Some(Token(Number, 0, 6, "0.1234"))
  {
    assert DigitsEnd("0.1234", 0) == 1 && DigitsEnd("0.1234", 2) == 6;
    assert IsDecimal("0.1234");
    DecimalIsNumber("0.1234", 0);
  }

  /** An exponent marker and sign without digits make a string (the lexer's tests). */
  lemma DanglingExponentIsString()
    ensures AsKwOrNum("1234e+", 0) == None
  {
    Untrimmed("1234e+");
    assert DigitsEnd("1234e+", 0) == 4;
    assert DigitsEnd("1234e+", 6) == 6;
    assert !IsDecimal("1234e+");
  }

  /** A signed exponent is part of a number (the lexer's tests). */
  lemma ExponentIsNumber()
    ensures AsKwOrNum("1.5e+6", 0) == Some(Token(Number, 0, 6, "1.5e+6"))
  {
    assert DigitsEnd("1.5e+6", 0) == 1 && DigitsEnd("1.5e+6", 2) == 3;
    SignedExponent();
    assert IsDecimal("1.5e+6");
    DecimalIsNumber("1.5e+6", 0);
  }

  lemma SignedExponent()
    ensures IsExponentTail("1.5e+6", 3)
  {
    assert DigitsEnd("1.5e+6", 5) == 6;
  }

  /** Both scanners return a keyword, a non-octal number or an implicit string, spanning the text it holds. */
  lemma {:induction false} ScannedShape(text: string, start: nat, p: nat)
    requires start <= p <= |text|
    ensures WellScanned(text, start, AmbiguousFrom(text, start, p))
    ensures WellScanned(text, start, UnquotedFrom(text, start, p))
    decreases |text| - p
  {
    if p == |text| {
      AtEndOfTextShape(text, start);
    } else if IsWhitespace(text[p]) {
      var q := SkipLineWhitespace(text, p);
      KwOrRestOfLineShape(text, start, p, q, CanBeEndOfKwOrNum(text, q));
    } else if CanBeEndOfKwOrNum(text, p) {
      KwOrRestOfLineShape(text, start, p, p, true);
    } else {
      ScannedShape(text, start, p + 1);
    }
  }

  lemma AtEndOfTextShape(text: string, start: nat)
    requires start <= |text|
    ensures WellScanned(text, start, AtEndOfText(text, start))
  {
    AsKwOrNumExact(text[start..], start);
  }

  lemma KwOrRestOfLineShape(text: string, start: nat, p: nat, q: nat, boundary: bool)
    requires start <= p <= q <= |text|
    ensures WellScanned(text, start, KwOrRestOfLine(text, start, p, q, boundary))
  {
    AsKwOrNumExact(text[start..p], start);
  }

  /** No character of `text[start..p]` stops the scanner: no whitespace, no boundary, and for `ambiguous` no ':'. */
  predicate Plain(text: string, start: nat, p: nat, colonStops: bool)
    requires start <= p <= |text|
  {
    forall k :: start <= k < p ==> !IsWhitespace(text[k]) && !CanBeEndOfKwOrNum(text, k) && !(colonStops && text[k] == ':')
  }

  /** Over plain characters both scanners only read on. */
  lemma {:induction false} ScannersSkipPlain(text: string, start: nat, p: nat)
    requires start <= p <= |text|
    ensures Plain(text, start, p, true) ==> AmbiguousFrom(text, start, start) == AmbiguousFrom(text, start, p)
    ensures Plain(text, start, p, false) ==> UnquotedFrom(text, start, start) == UnquotedFrom(text, start, p)
    decreases p - start
  {
    if p > start {
      ScannersSkipPlain(text, start, p - 1);
    }
  }

  /**
   * In ambiguous mode a ':' straight after the word, or after line whitespace, or a
   * line feed after line whitespace, ends an implicit string holding just the word.
   */
  lemma AmbiguousKey(text: string, start: nat, p: nat)
    requires start <= p < |text| && Plain(text, start, p, true)
    requires text[p] == ':' || (IsWhitespace(text[p]) && SkipLineWhitespace(text, p) < |text|
                                && (text[SkipLineWhitespace(text, p)] == ':' || text[SkipLineWhitespace(text, p)] == '\n'))
    ensures AmbiguousFrom(text, start, start)
         == (Implicit(text, start, p), if text[p] == ':' then p else SkipLineWhitespace(text, p))
  {
    ScannersSkipPlain(text, start, p);
  }

  /**
   * At a boundary character right after the word, both scanners return a keyword or
   * number alone; any other word takes the rest of the line into one implicit string.
   */
  lemma AtBoundary(text: string, start: nat, p: nat)
    requires start <= p < |text| && Plain(text, start, p, true)
    requires CanBeEndOfKwOrNum(text, p) && !IsWhitespace(text[p])
    ensures var r := AmbiguousFrom(text, start, start);
      (match AsKwOrNum(text[start..p], start)
       case Some(t) => r == (t, p)
       case None => r == (Implicit(text, start, LineContentEnd(text, p)), NextLineBreak(text, p)))
    ensures UnquotedFrom(text, start, start) == AmbiguousFrom(text, start, start)
  {
    ScannersSkipPlain(text, start, p);
  }

  /**
   * Line whitespace after the word: unless a ':' or line feed follows it (in ambiguous
   * mode), a keyword or number before a boundary stands alone, and anything else takes
   * the rest of the line.
   */
  lemma AfterWhitespace(text: string, start: nat, p: nat)
    requires start <= p < |text| && Plain(text, start, p, true) && IsWhitespace(text[p])
    requires var q := SkipLineWhitespace(text, p); !(q < |text| && (text[q] == ':' || text[q] == '\n'))
    ensures var q := SkipLineWhitespace(text, p);
      && AmbiguousFrom(text, start, start) == KwOrRestOfLine(text, start, p, q, CanBeEndOfKwOrNum(text, q))
      && UnquotedFrom(text, start, start) == AmbiguousFrom(text, start, start)
  {
    ScannersSkipPlain(text, start, p);
  }

  /** A word that runs to the end of the text is a keyword or number if it is one, else an implicit string of all of it. */
  lemma AtEnd(text: string, start: nat)
    requires start <= |text| && Plain(text, start, |text|, true)
    ensures AmbiguousFrom(text, start, start) == AtEndOfText(text, start)
    ensures UnquotedFrom(text, start, start) == AtEndOfText(text, start)
  {
    ScannersSkipPlain(text, start, |text|);
  }

  /**
   * "1" and a control character at the end of the text: the scanners stop only at
   * ' ', '\t', '\r' and '\n', but `Double.parseDouble` trims every character at or
   * below ' ', so the word is a number holding both characters.
   */
  lemma ControlCharacterTrimmed()
    ensures UnquotedFrom("1\U{1}", 0, 0) == (Token(Number, 0, 2, "1\U{1}"), 2)
    ensures AmbiguousFrom("1\U{1}", 0, 0) == (Token(Number, 0, 2, "1\U{1}"), 2)
  {
    var text := "1\U{1}";
    assert Plain(text, 0, 2, true);
    AtEnd(text, 0);
    assert text[0..] == text;
    assert TrimStart(text) == text;
    assert TrimEnd(text) == "1" by {
      assert text[..1] == "1";
    }
    assert DigitsEnd("1", 0) == 1;
    assert IsDecimal("1");
  }

  /**
   * `single()` dispatches on the first character after line whitespace: nothing at the
   * end of the text, a one-character symbol for punctuation and ':', a line break, the
   * base class's readers for comments and quotes, and otherwise a word, read as a key,
   * then as ambiguous at the top, then as an unquoted value.
   */
  lemma SingleDispatch(text: string, pos: nat, st: ContextState)
    requires pos <= |text|
    ensures var (r, q, st2) := SingleStep(text, pos, st);
      var p := SkipLineWhitespace(text, pos);
      && (p == |text| <==> r == EndOfText)
      && (r == EndOfText ==> st2 == st)
      && (p < |text| && (IsPunctuation(text[p]) || text[p] == ':') ==>
            r == Lexed(Token(Symbol(text[p]), p, p + 1, [text[p]])) && q == p + 1)
      && (p < |text| && text[p] == '/' && !OpensComment(text, p) ==>
            r.Lexed? && q == WordScan(text, p, st).1)
      && (p < |text| && !StartsExternal(text, p) && text[p] != '\n' && !IsPunctuation(text[p]) && text[p] != ':' ==>
            r == Lexed(WordScan(text, p, st).0) && q == WordScan(text, p, st).1
            && (st.expectingKey ==> r.t.kind == Word && q == KeyEnd(text, p))
            && (!st.expectingKey && st.top ==> (r.t, q) == AmbiguousFrom(text, p, p))
            && (!st.expectingKey && !st.top ==> (r.t, q) == UnquotedFrom(text, p, p)))
  {
    var p := SkipLineWhitespace(text, pos);
    if p < |text| {
      PrepareEffects(st, text[p]);
    }
  }

  /** The position after a token of `single()` is past its start, so lexing a text always ends. */
  lemma {:induction false} SingleAdvances(text: string, pos: nat, st: ContextState)
    requires pos <= |text|
    ensures var (r, q, _) := SingleStep(text, pos, st);
      pos <= q <= |text| && (r.Lexed? ==> pos < q && q >= r.t.end > r.t.start - 1)
  {
    var p := SkipLineWhitespace(text, pos);
    if p < |text| && !StartsExternal(text, p) && text[p] != '\n' && !IsPunctuation(text[p]) && text[p] != ':' {
      var st1 := Prepared(st, text[p]);
      ScannedShape(text, p, p);
      WordAdvances(text, p, st1);
    }
  }

  /** A word scan at a word character reads at least that character. */
  lemma WordAdvances(text: string, p: nat, st: ContextState)
    requires p < |text| && !IsWhitespace(text[p]) && !IsPunctuation(text[p]) && text[p] != ':'
    requires !EndsKwOrNum(text[p]) && !OpensComment(text, p)
    ensures WordScan(text, p, st).1 > p
  {
    var r := AmbiguousFrom(text, p, p);
    var u := UnquotedFrom(text, p, p);
    assert !CanBeEndOfKwOrNum(text, p);
    if p + 1 <= |text| {
      ScannedShape(text, p, p + 1);
      KeepsAtLeastOne(text, p);
    }
  }

  /** From a plain first character both scanners end past it. */
  lemma KeepsAtLeastOne(text: string, p: nat)
    requires p < |text| && !IsWhitespace(text[p]) && !CanBeEndOfKwOrNum(text, p) && text[p] != ':'
    ensures AmbiguousFrom(text, p, p).1 > p && UnquotedFrom(text, p, p).1 > p
  {
    assert AmbiguousFrom(text, p, p) == AmbiguousFrom(text, p, p + 1);
    assert UnquotedFrom(text, p, p) == UnquotedFrom(text, p, p + 1);
    PastStart(text, p, p + 1);
  }

  /** Once a character is read, the scan ends at or after it. */
  lemma {:induction false} PastStart(text: string, start: nat, p: nat)
    requires start < p <= |text|
    ensures AmbiguousFrom(text, start, p).1 >= p && UnquotedFrom(text, start, p).1 >= p
    decreases |text| - p
  {
    if p < |text| && !IsWhitespace(text[p]) && !CanBeEndOfKwOrNum(text, p) {
      PastStart(text, start, p + 1);
    }
  }

  /** Every token up to the end of the text or the first comment or quoted string, from position `pos` and context `st`. */
  function LexAll(text: string, pos: nat, st: ContextState): seq<Token>
    requires pos <= |text|
    decreases |text| - pos
  {
    SingleAdvances(text, pos, st);
    var (r, q, st2) := SingleStep(text, pos, st);
    if r.Lexed? then [r.t] + LexAll(text, q, st2) else []
  }

  /** "true, hjson is sometimes bad": a keyword before a comma is a word of its own (the lexer's tests). */
  lemma KeywordBeforeComma()
    ensures AmbiguousFrom("true, hjson is sometimes bad", 0, 0) == (Token(Word, 0, 4, "true"), 4)
  {
    var text := "true, hjson is sometimes bad";
    assert text[0..4] == "true";
    assert Plain(text, 0, 4, true) && CanBeEndOfKwOrNum(text, 4) by {
      assert text[..5] == "true,";
    }
    AtBoundary(text, 0, 4);
  }

  /** "1: true": at the top, a number before ':' is read as an implicit-string key (the lexer's tests). */
  lemma NumberBeforeColon()
    ensures AmbiguousFrom("1: true", 0, 0) == (Token(Str(IMPLICIT), 0, 1, "1"), 1)
  {
    AmbiguousKey("1: true", 0, 1);
    assert "1: true"[0..1] == "1";
  }

  lemma DecimalNumber()
    ensures AsKwOrNum("12.34", 0) == Some(Token(Number, 0, 5, "12.34"))
  {
    assert DigitsEnd("12.34", 0) == 2 && DigitsEnd("12.34", 3) == 5;
    assert IsDecimal("12.34");
    DecimalIsNumber("12.34", 0);
  }

  /** "12.34 // comment": a number before a comment is a number of its own (the lexer's tests). */
  lemma NumberBeforeComment()
    ensures AmbiguousFrom("12.34 // comment", 0, 0) == (Token(Number, 0, 5, "12.34"), 6)
  {
    var text := "12.34 // comment";
    assert text[0..5] == "12.34";
    assert Plain(text, 0, 5, true) && SkipLineWhitespace(text, 5) == 6 && CanBeEndOfKwOrNum(text, 6) by {
      assert text[..8] == "12.34 //";
    }
    AfterWhitespace(text, 0, 5);
    DecimalNumber();
  }

  /** "12 ab": a number followed by more words on its line folds into one implicit string. */
  lemma NumberWithMoreText()
    ensures AmbiguousFrom("12 ab", 0, 0) == (Token(Str(IMPLICIT), 0, 5, "12 ab"), 5)
  {
    var text := "12 ab";
    assert Plain(text, 0, 2, true) && SkipLineWhitespace(text, 2) == 3 && !CanBeEndOfKwOrNum(text, 3);
    AfterWhitespace(text, 0, 2);
    LastLine(text, 2);
    assert text[0..5] == text;
  }

  /** A keyword after ':' is a word of its own, and the key before it an implicit string (the lexer's tests). */
  lemma KeyValueExample()
    ensures LexAll("key: true", 0, Initial)
         == [Token(Str(IMPLICIT), 0, 3, "key"), Token(Symbol(':'), 3, 4, ":"), Token(Word, 5, 9, "true")]
  {
    var key := Token(Str(IMPLICIT), 0, 3, "key");
    var colon := Token(Symbol(':'), 3, 4, ":");
    var value := Token(Word, 5, 9, "true");
    var st1 := Updated(Initial, Some(key));
    var st2 := Updated(Prepared(st1, ':'), Some(colon));
    var st3 := Updated(st2, Some(value));
    KeyValueKey(st1);
    KeyValueColon(st1, st2);
    KeyValueValue(st2, st3);
    assert SingleStep("key: true", 9, st3).0 == EndOfText;
    assert LexAll("key: true", 9, st3) == [];
  }

  lemma KeyValueKey(st1: ContextState)
    requires st1 == Updated(Initial, Some(Token(Str(IMPLICIT), 0, 3, "key")))
    ensures SingleStep("key: true", 0, Initial) == (Lexed(Token(Str(IMPLICIT), 0, 3, "key")), 3, st1)
  {
    var text := "key: true";
    AmbiguousKey(text, 0, 3);
    assert SkipLineWhitespace(text, 0) == 0 && Prepared(Initial, 'k') == Initial;
    assert text[0..3] == "key";
  }

  lemma KeyValueColon(st1: ContextState, st2: ContextState)
    requires st1 == Updated(Initial, Some(Token(Str(IMPLICIT), 0, 3, "key")))
    requires st2 == Updated(Prepared(st1, ':'), Some(Token(Symbol(':'), 3, 4, ":")))
    ensures SingleStep("key: true", 3, st1) == (Lexed(Token(Symbol(':'), 3, 4, ":")), 4, st2)
    ensures !st2.expectingKey && !st2.top
  {
    assert SkipLineWhitespace("key: true", 3) == 3;
  }

  lemma KeyValueValue(st2: ContextState, st3: ContextState)
    requires !st2.expectingKey && !st2.top
    requires st3 == Updated(st2, Some(Token(Word, 5, 9, "true")))
    ensures SingleStep("key: true", 4, st2) == (Lexed(Token(Word, 5, 9, "true")), 9, st3)
  {
    var text := "key: true";
    assert SkipLineWhitespace(text, 4) == 5;
    AtEnd(text, 5);
    assert text[5..] == "true";
    assert Prepared(st2, 't') == st2;
  }

  /** `HjsonTokenizer`: the text, the reader position and the context the lexer keeps. */
  class HjsonTokenizer {
    const text: string
    var pos: nat
    const context: StringContext

    ghost predicate Valid()
      reads this
    {
      pos <= |text|
    }

    constructor (text: string)
      ensures Valid() && this.text == text && pos == 0
      ensures fresh(context) && context.State() == Initial
    {
      this.text := text;
      pos := 0;
      context := new StringContext();
    }

    method Key() returns (t: Token)
      requires Valid()
      modifies this
      ensures Valid() && (t, pos) == KeyScan(text, old(pos))
    {
      var start := pos;
      while pos < |text| && IsLegalKeyCharacter(text[pos])
        invariant start <= pos <= |text|
        invariant KeyEnd(text, pos) == KeyEnd(text, start)
        decreases |text| - pos
      {
        pos := pos + 1;
      }
      t := Token(Kind.Word, start, pos, text[start..pos]);
    }

    /** The end-of-value decision shared by `ambiguous` and `unquoted`: keyword or number alone, or the rest of the line. */
    method KwOrRest(start: nat, p: nat, boundary: bool) returns (t: Token)
      requires Valid() && start <= p <= pos
      modifies this
      ensures Valid() && (t, pos) == KwOrRestOfLine(text, start, p, old(pos), boundary)
    {
      if boundary {
        var kw := AsKwOrNum(text[start..p], start);
        if kw.Some? {
          return kw.value;
        }
      }
      t := Implicit(text, start, LineContentEnd(text, p));
      pos := NextLineBreak(text, p);
    }

    method Ambiguous() returns (t: Token)
      requires Valid()
      modifies this
      ensures Valid() && (t, pos) == AmbiguousFrom(text, old(pos), old(pos))
    {
      var start := pos;
      while true
        invariant start <= pos <= |text|
        invariant AmbiguousFrom(text, start, pos) == AmbiguousFrom(text, start, start)
        decreases |text| - pos
      {
        if pos == |text| {
          var kw := AsKwOrNum(text[start..], start);
          if kw.Some? {
            return kw.value;
          }
          return Implicit(text, start, pos);
        } else if text[pos] == ':' {
          return Implicit(text, start, pos);
        } else if IsWhitespace(text[pos]) {
          var p := pos;
          pos := SkipLineWhitespace(text, pos);
          if pos < |text| && (text[pos] == ':' || text[pos] == '\n') {
            return Implicit(text, start, p);
          }
          t := KwOrRest(start, p, CanBeEndOfKwOrNum(text, pos));
          return;
        } else if CanBeEndOfKwOrNum(text, pos) {
          t := KwOrRest(start, pos, true);
          return;
        }
        pos := pos + 1;
      }
    }

    method Unquoted() returns (t: Token)
      requires Valid()
      modifies this
      ensures Valid() && (t, pos) == UnquotedFrom(text, old(pos), old(pos))
    {
      var start := pos;
      while pos < |text|
        invariant start <= pos <= |text|
        invariant UnquotedFrom(text, start, pos) == UnquotedFrom(text, start, start)
        decreases |text| - pos
      {
        if IsWhitespace(text[pos]) {
          var p := pos;
          pos := SkipLineWhitespace(text, pos);
          t := KwOrRest(start, p, CanBeEndOfKwOrNum(text, pos));
          return;
        } else if CanBeEndOfKwOrNum(text, pos) {
          t := KwOrRest(start, pos, true);
          return;
        }
        pos := pos + 1;
      }
      var kw := AsKwOrNum(text[start..], start);
      if kw.Some? {
        return kw.value;
      }
      t := Implicit(text, start, pos);
    }

    method Word() returns (t: Token)
      requires Valid()
      modifies this
      ensures Valid() && (t, pos) == WordScan(text, old(pos), context.State())
    {
      if context.expectingKey {
        t := Key();
      } else if context.top {
        t := Ambiguous();
      } else {
        t := Unquoted();
      }
    }

    method Single() returns (r: Lexed)
      requires Valid()
      modifies this, context
      ensures Valid() && (r, pos, context.State()) == SingleStep(text, old(pos), old(context.State()))
    {
      pos := SkipLineWhitespace(text, pos);
      if pos == |text| {
        return EndOfText;
      }
      var c := text[pos];
      context.Prepare(c);
      if StartsExternal(text, pos) {
        return External(pos);
      }
      var t: Token;
      if c == '\n' {
        t := Token(Break, pos, pos + 1, "\n");
        pos := pos + 1;
      } else if IsPunctuation(c) || c == ':' {
        t := Token(Symbol(c), pos, pos + 1, [c]);
        pos := pos + 1;
      } else {
        t := Word();
      }
      context.Update(Some(t));
      r := Lexed(t);
    }
  }
}
