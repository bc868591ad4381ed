/**
 * The compat Hjson parser over a token sequence and the text the tokens were read
 * from: open-root detection, key and value rules, the delimiter rule, and the
 * recursive descent through objects and arrays, as functions of a token index.
 */
module CompatHjsonParser {
  import opened HjsonText

  /** The values the parser builds; numbers keep the text of their literal. */
  datatype HValue =
    | HNull
    | HBool(b: bool)
    | HNum(literal: string)
    | HStr(s: string, stringType: StringType)
    | HArray(elements: seq<HValue>)
    | HObject(members: seq<HMember>)

  datatype HMember = HMember(key: string, value: HValue)

  /** The syntax errors the parser raises. */
  datatype HErr =
    | EmptyKey
    | PunctuationInKey(c: char)
    | WhitespaceInKey
    | PunctuationInValue(c: char)
    | Expected(c: char)
    | UnexpectedEnd
    | TrailingInput

  /** A step of the parser: a value and the index of the token after it, or an error. */
  datatype Parsed<T> = Ok(value: T, next: nat) | Fail(error: HErr)

  /** The outcome of parsing a whole text. */
  datatype Result<T> = Success(value: T) | Failure(error: HErr)

  /** Every token spans text that exists, and the tokens come in the order of the text. */
  predicate Spans(tokens: seq<Token>, reference: string)
  {
    && (forall k :: 0 <= k < |tokens| ==> tokens[k].start <= tokens[k].end <= |reference|)
    && (forall k, l :: 0 <= k < l < |tokens| ==> tokens[k].end <= tokens[l].start)
  }

  /** `textOf(reference)`: the characters the token spans. */
  function TextOf(tokens: seq<Token>, reference: string, i: nat): string
    requires Spans(tokens, reference) && i < |tokens|
  {
    reference[tokens[i].start..tokens[i].end]
  }

  predicate AtSymbol(tokens: seq<Token>, i: nat, c: char)
  {
    i < |tokens| && tokens[i].kind == Symbol(c)
  }

  /** `readWhitespace()`: the first token at or after `i` that is not a line break or a comment. */
  function SkipWhitespace(tokens: seq<Token>, i: nat): (j: nat)
    requires i <= |tokens|
    ensures i <= j <= |tokens|
    ensures forall k :: i <= k < j ==> IsMetadata(tokens[k])
    ensures j == |tokens| || !IsMetadata(tokens[j])
    decreases |tokens| - i
  {
    if i < |tokens| && IsMetadata(tokens[i]) then SkipWhitespace(tokens, i + 1) else i
  }

  /** `readLineWhitespace()`: the first token at or after `i` that is not a comment. */
  function SkipComments(tokens: seq<Token>, i: nat): (j: nat)
    requires i <= |tokens|
    ensures i <= j <= |tokens|
    ensures forall k :: i <= k < j ==> tokens[k].kind.Comment?
    ensures j == |tokens| || !tokens[j].kind.Comment?
    decreases |tokens| - i
  {
    if i < |tokens| && tokens[i].kind.Comment? then SkipComments(tokens, i + 1) else i
  }

  /** `peekWhitespace()`: the next token after `i` that is not a line break or a comment, if any. */
  function PeekWhitespace(tokens: seq<Token>, i: nat): Option<nat>
    requires i < |tokens|
  {
    var j := SkipWhitespace(tokens, i + 1);
    if j < |tokens| then Some(j) else None
  }

  /** `matches("\\S+")`: at least one character, none of them whitespace. */
  predicate NonBlank(s: string)
  {
    |s| > 0 && forall k :: 0 <= k < |s| ==> !IsRegexSpace(s[k])
  }

  /**
   * `isOpenRoot()`: the first token is not a symbol, the next significant token is
   * ':', and the first token's text is a single run of non-space characters.
   */
  predicate IsOpenRoot(tokens: seq<Token>, reference: string, i: nat)
    requires Spans(tokens, reference) && i < |tokens|
  {
    && !tokens[i].kind.Symbol?
    && PeekWhitespace(tokens, i).Some?
    && AtSymbol(tokens, PeekWhitespace(tokens, i).value, ':')
    && NonBlank(TextOf(tokens, reference, i))
  }

  /**
   * `readKey()`: ':' is an empty key and other punctuation is not allowed; a string
   * token gives its parsed text and any other token its source text; the next
   * significant token must be a symbol, or the key held whitespace.
   */
  function ReadKey(tokens: seq<Token>, reference: string, i: nat): (r: Parsed<string>)
    requires Spans(tokens, reference) && i < |tokens|
    ensures r.Ok? ==> r.next == i + 1
  {
    var t := tokens[i];
    if t.kind == Symbol(':') then Fail(EmptyKey)
    else if t.kind.Symbol? && IsPunctuationChar(t.kind.c) then Fail(PunctuationInKey(t.kind.c))
    else
      var key := if t.kind.Str? then t.parsed else TextOf(tokens, reference, i);
      var peek := PeekWhitespace(tokens, i);
      if peek.Some? && !tokens[peek.value].kind.Symbol? then Fail(WhitespaceInKey)
      else Ok(key, i + 1)
  }

  /** `readBetween(c)`: whitespace, the symbol `c`, whitespace. */
  function ReadBetween(tokens: seq<Token>, i: nat, c: char): (r: Parsed<()>)
    requires i <= |tokens|
    ensures r.Ok? ==> i < r.next <= |tokens|
  {
    var j := SkipWhitespace(tokens, i);
    if AtSymbol(tokens, j, c) then Ok((), SkipWhitespace(tokens, j + 1)) else Fail(Expected(c))
  }

  /**
   * `readDelimiter()`: after comments, a ',' (then comments and an optional line
   * break) or a line break (then whitespace and an optional ',') delimits; nothing
   * else does. The result is whether a delimiter was read and where reading stopped.
   */
  function ReadDelimiter(tokens: seq<Token>, i: nat): (r: (bool, nat))
    requires i <= |tokens|
    ensures i <= r.1 <= |tokens|
  {
    var a := SkipComments(tokens, i);
    if AtSymbol(tokens, a, ',') then
      var b := SkipComments(tokens, a + 1);
      (true, if b < |tokens| && tokens[b].kind.Break? then b + 1 else b)
    else if a < |tokens| && tokens[a].kind.Break? then
      var c := SkipWhitespace(tokens, a + 1);
      (true, if AtSymbol(tokens, c, ',') then c + 1 else c)
    else (false, a)
  }

  /** The tokens `skipTo` stops at: line breaks, comments, and the symbols ',', '}' and ']'. */
  predicate StopsRun(t: Token)
  {
    t.kind.Break? || t.kind.Comment? || t.kind == Symbol(',') || t.kind == Symbol('}') || t.kind == Symbol(']')
  }

  /** The first token at or after `i` that `skipTo` stops at, or the end. */
  function RunEnd(tokens: seq<Token>, i: nat): (j: nat)
    requires i <= |tokens|
    ensures i <= j <= |tokens|
    ensures forall k :: i <= k < j ==> !StopsRun(tokens[k])
    ensures j == |tokens| || StopsRun(tokens[j])
    decreases |tokens| - i
  {
    if i < |tokens| && !StopsRun(tokens[i]) then RunEnd(tokens, i + 1) else i
  }

  /**
   * `checkAfterUnquoted()`: a number directly followed by a token that is not a line
   * break, comment or symbol is re-read, with the tokens up to the next stop, as one
   * string; the index is that of the run's last token.
   */
  function CheckAfterUnquoted(tokens: seq<Token>, reference: string, i: nat): (r: Option<(HValue, nat)>)
    requires Spans(tokens, reference) && i < |tokens|
    ensures r.Some? ==> i < r.value.1 < |tokens|
  {
    if i + 1 == |tokens| then None
    else
      var peek := tokens[i + 1];
      if peek.kind.Break? || peek.kind.Comment? || peek.kind.Symbol? then None
      else
        var j := RunEnd(tokens, i + 1);
        Some((HStr(reference[tokens[i].start..tokens[j - 1].end], NONE), j - 1))
  }

  /** The literal a bare word stands for: `true`, `false` and `null`, or else a string of its text. */
  function Literal(text: string): HValue
  {
    if text == "true" then HBool(true)
    else if text == "false" then HBool(false)
    else if text == "null" then HNull
    else HStr(text, NONE)
  }

  /**
   * `readUnquoted()`: a number (or the string it starts), a string with its type, an
   * error for a symbol, or the literal of a word. The index is that of the value's
   * last token.
   */
  function ReadUnquoted(tokens: seq<Token>, reference: string, i: nat): (r: Parsed<HValue>)
    requires Spans(tokens, reference) && i < |tokens|
    ensures r.Ok? ==> i <= r.next < |tokens|
  {
    var t := tokens[i];
    if t.kind == Number then
      match CheckAfterUnquoted(tokens, reference, i)
      case Some((v, j)) => Ok(v, j)
      case None => Ok(HNum(t.parsed), i)
    else if t.kind.Str? then Ok(HStr(t.parsed, t.kind.stringType), i)
    else if t.kind.Symbol? then Fail(PunctuationInValue(t.kind.c))
    else Ok(Literal(TextOf(tokens, reference, i)), i)
  }

  /** `close(c)`: the closer `c` must come next and is read; the open root has no closer. */
  function Close<T>(tokens: seq<Token>, k: nat, v: T, closer: Option<char>): (r: Parsed<T>)
    requires k <= |tokens|
    ensures r.Ok? ==> k <= r.next <= |tokens| && (closer.Some? ==> r.next == k + 1)
  {
    if closer.None? then Ok(v, k)
    else if AtSymbol(tokens, k, closer.value) then Ok(v, k + 1)
    else Fail(Expected(closer.value))
  }

  /** `readValue()`: an object, an array, or an unquoted value; nothing left is an error. */
  function ReadValue(tokens: seq<Token>, reference: string, i: nat): (r: Parsed<HValue>)
    requires Spans(tokens, reference) && i <= |tokens|
    ensures r.Ok? ==> i < r.next <= |tokens|
    decreases |tokens| - i, 1
  {
    if i == |tokens| then Fail(UnexpectedEnd)
    else if AtSymbol(tokens, i, '{') then ReadObject(tokens, reference, i)
    else if AtSymbol(tokens, i, '[') then ReadArray(tokens, reference, i)
    else
      match ReadUnquoted(tokens, reference, i)
      case Fail(e) => Fail(e)
      case Ok(v, j) => Ok(v, j + 1)
  }

  /** `readObject()`: '{', then members up to '}'. */
  function ReadObject(tokens: seq<Token>, reference: string, i: nat): (r: Parsed<HValue>)
    requires Spans(tokens, reference) && AtSymbol(tokens, i, '{')
    ensures r.Ok? ==> i < r.next <= |tokens|
    decreases |tokens| - i, 0
  {
    var j := SkipWhitespace(tokens, i + 1);
    if AtSymbol(tokens, j, '}') then Ok(HObject([]), j + 1)
    else
      match ReadMembers(tokens, reference, j, [], Some('}'))
      case Fail(e) => Fail(e)
      case Ok(ms, n) => Ok(HObject(ms), n)
  }

  /**
   * The member loop of `readObject()` and `readOpenRoot()`, the members `acc` read:
   * stop at the end of the container, else read a member and go on while delimited.
   */
  function ReadMembers(tokens: seq<Token>, reference: string, j: nat, acc: seq<HMember>, closer: Option<char>)
    : (r: Parsed<seq<HMember>>)
    requires Spans(tokens, reference) && j <= |tokens|
    ensures r.Ok? ==> j <= r.next <= |tokens|
    decreases |tokens| - j, 3
  {
    var k := SkipWhitespace(tokens, j);
    if k == |tokens| || (closer.Some? && AtSymbol(tokens, k, closer.value)) then Close(tokens, k, acc, closer)
    else
      match ReadNextMember(tokens, reference, k)
      case Fail(e) => Fail(e)
      case Ok((m, delimited), n) =>
        if delimited then ReadMembers(tokens, reference, n, acc + [m], closer)
        else Close(tokens, n, acc + [m], closer)
  }

  /** `readNextMember()`: a key, ':', a value, and whether a delimiter follows. */
  function ReadNextMember(tokens: seq<Token>, reference: string, k: nat): (r: Parsed<(HMember, bool)>)
    requires Spans(tokens, reference) && k < |tokens|
    ensures r.Ok? ==> k < r.next <= |tokens|
    decreases |tokens| - k, 2
  {
    match ReadKey(tokens, reference, k)
    case Fail(e) => Fail(e)
    case Ok(key, k1) =>
      match ReadBetween(tokens, k1, ':')
      case Fail(e) => Fail(e)
      case Ok(_, m) =>
        match ReadValue(tokens, reference, m)
        case Fail(e) => Fail(e)
        case Ok(v, n) =>
          var (delimited, n2) := ReadDelimiter(tokens, n);
          Ok((HMember(key, v), delimited), n2)
  }

  /** `readArray()`: '[', then elements up to ']'. */
  function ReadArray(tokens: seq<Token>, reference: string, i: nat): (r: Parsed<HValue>)
    requires Spans(tokens, reference) && AtSymbol(tokens, i, '[')
    ensures r.Ok? ==> i < r.next <= |tokens|
    decreases |tokens| - i, 0
  {
    var j := SkipWhitespace(tokens, i + 1);
    if AtSymbol(tokens, j, ']') then Ok(HArray([]), j + 1)
    else
      match ReadElements(tokens, reference, j, [])
      case Fail(e) => Fail(e)
      case Ok(vs, n) => Ok(HArray(vs), n)
  }

  /** The element loop of `readArray()`, the elements `acc` read. */
  function ReadElements(tokens: seq<Token>, reference: string, j: nat, acc: seq<HValue>): (r: Parsed<seq<HValue>>)
    requires Spans(tokens, reference) && j <= |tokens|
    ensures r.Ok? ==> j < r.next <= |tokens|
    decreases |tokens| - j, 3
  {
    var k := SkipWhitespace(tokens, j);
    if k == |tokens| || AtSymbol(tokens, k, ']') then Close(tokens, k, acc, Some(']'))
    else
      match ReadNextElement(tokens, reference, k)
      case Fail(e) => Fail(e)
      case Ok((v, delimited), n) =>
        if delimited then ReadElements(tokens, reference, n, acc + [v])
        else Close(tokens, n, acc + [v], Some(']'))
  }

  /** `readNextElement()`: a value and whether a delimiter follows. */
  function ReadNextElement(tokens: seq<Token>, reference: string, k: nat): (r: Parsed<(HValue, bool)>)
    requires Spans(tokens, reference) && k < |tokens|
    ensures r.Ok? ==> k < r.next <= |tokens|
    decreases |tokens| - k, 2
  {
    match ReadValue(tokens, reference, k)
    case Fail(e) => Fail(e)
    case Ok(v, n) =>
      var (delimited, n2) := ReadDelimiter(tokens, n);
      Ok((v, delimited), n2)
  }

  /** `readBottom()`: only whitespace may follow the root. */
  function Bottom(tokens: seq<Token>, n: nat, v: HValue): Result<HValue>
    requires n <= |tokens|
  {
    if SkipWhitespace(tokens, n) == |tokens| then Success(v) else Failure(TrailingInput)
  }

  /**
   * `parse()`: no significant token is an empty object; an open root is read as the
   * members of an object without braces; any other root is a single value.
   */
  function Parse(tokens: seq<Token>, reference: string): Result<HValue>
    requires Spans(tokens, reference)
  {
    var i := SkipWhitespace(tokens, 0);
    if i == |tokens| then Success(HObject([]))
    else if IsOpenRoot(tokens, reference, i) then
      match ReadMembers(tokens, reference, i, [], None)
      case Fail(e) => Failure(e)
      case Ok(ms, n) => Bottom(tokens, n, HObject(ms))
    else
      match ReadValue(tokens, reference, i)
      case Fail(e) => Failure(e)
      case Ok(v, n) => Bottom(tokens, SkipComments(tokens, n), v)
  }
}
