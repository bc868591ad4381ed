/**
 * The earlier Hjson lexer (`xjs.serialization.token.HjsonTokenizer`): a context of
 * container kinds and two flags, `expectingValue` and `colonRead`, that decide whether
 * a bare word is read as a key or as an unquoted value, and the scanners `key`,
 * `checkFirstOpenKey` and `unquoted` over a text and a position.
 */
module LegacyHjsonTokenizer {
  import opened HjsonText
  import opened LineReading
  import opened StringContexts
  import opened CompatHjsonTokenizer

  /** The lexer's context fields: the container kind per depth (true = array), the flags, and the depth. */
  datatype LegacyState = LegacyState(arrays: map<nat, bool>, expectingValue: bool, colonRead: bool, top: bool, level: nat)

  /** A fresh lexer: the first token is ambiguous, nothing read, depth 0. */
  const LegacyInitial: LegacyState := LegacyState(map[], false, false, true, 0)

  /** `push(array)`: one level deeper, recording the kind; both flags become the kind. */
  function PushState(st: LegacyState, isArray: bool): LegacyState
  {
    st.(arrays := st.arrays[st.level + 1 := isArray], expectingValue := isArray, colonRead := isArray, level := st.level + 1)
  }

  /** `pop()`: at depth 0 only `expectingValue` is cleared; otherwise one level up, both flags the parent's kind. */
  function PopState(st: LegacyState): LegacyState
  {
    if st.level == 0 then st.(expectingValue := false)
    else
      var flag := IsArrayAt(st.arrays, st.level - 1);
      st.(expectingValue := flag, colonRead := flag, level := st.level - 1)
  }

  /**
   * `updateContext(t)`, where `symbol` is the character of `t` when it is a symbol token
   * and `None` for any other token or for no token at all.
   */
  function ContextAfter(st: LegacyState, symbol: Option<char>): LegacyState
  {
    var s1 :=
      if symbol.None? then st.(colonRead := false)
      else if symbol.value == '{' then PushState(st, false)
      else if symbol.value == '[' then PushState(st, true)
      else if symbol.value == '}' || symbol.value == ']' then PopState(st)
      else if symbol.value == ':' then st.(colonRead := true)
      else st;
    s1.(top := false)
  }

  /** `isReadingKey()`: neither a value is expected nor a colon has just been read. */
  predicate ReadsKey(st: LegacyState)
  {
    !st.expectingValue && !st.colonRead
  }

  /** The symbol character a token carries, if it is a symbol token. */
  function SymbolOf(t: Token): Option<char>
  {
    if t.kind.Symbol? then Some(t.kind.c) else None
  }

  /**
   * `unquoted(i)` with the reader at `q`: punctuation there becomes a one-character
   * symbol whose span starts at `i`; otherwise a word from `i` to the end of the
   * line's content, the reader left on the line feed.
   */
  function UnquotedAt(text: string, i: nat, q: nat): (Token, nat)
    requires i <= q <= |text|
  {
    if q < |text| && IsPunctuation(text[q]) then (Token(Symbol(text[q]), i, i + 1, [text[q]]), q + 1)
    else
      var e := LineContentEnd(text, q);
      (Token(Word, i, e, text[i..e]), NextLineBreak(text, q))
  }

  /**
   * `checkFirstOpenKey(i)`, the key's characters `text[i..e]` read: a ':' or line feed
   * after line whitespace keeps the key; anything else re-reads the line as unquoted.
   */
  function FirstOpenKey(text: string, i: nat, e: nat): (Token, nat)
    requires i <= e <= |text|
  {
    var q := SkipLineWhitespace(text, e);
    if q < |text| && (text[q] == ':' || text[q] == '\n') then (Token(Word, i, e, text[i..e]), q)
    else UnquotedAt(text, i, q)
  }

  /**
   * `key(i)`: a first character other than `_`, a letter or a digit is a symbol of its
   * own; otherwise the run of key characters, checked as an open-root key at the top.
   */
  function KeyAt(text: string, i: nat, top: bool): (Token, nat)
    requires i < |text|
  {
    var c := text[i];
    if c != '_' && !IsLetterOrDigit(c) then (Token(Symbol(c), i, i + 1, [c]), i + 1)
    else
      var e := KeyEnd(text, i);
      if top then FirstOpenKey(text, i, e) else (Token(Word, i, e, text[i..e]), e)
  }

  /** `word(i)`: a key when one is being read, else punctuation as a symbol, else an unquoted value. */
  function WordAt(text: string, i: nat, st: LegacyState): (Token, nat)
    requires i < |text|
  {
    if ReadsKey(st) then KeyAt(text, i, st.top)
    else if IsPunctuation(text[i]) then (Token(Symbol(text[i]), i, i + 1, [text[i]]), i + 1)
    else UnquotedAt(text, i, i)
  }

  /**
   * `single()`: the base lexer's token from `pos` and the context after it. Comments and
   * quoted strings are read by the base class; the context still sees them as
   * non-symbol tokens, as it does the line feed and the end of the text.
   */
  function LegacyStep(text: string, pos: nat, st: LegacyState): (Lexed, nat, LegacyState)
    requires pos <= |text|
  {
    var p := SkipLineWhitespace(text, pos);
    if p == |text| then (EndOfText, p, ContextAfter(st, None))
    else if StartsExternal(text, p) then (External(p), p, ContextAfter(st, None))
    else if text[p] == '\n' then (Lexed(Token(Break, p, p + 1, "\n")), p + 1, ContextAfter(st, None))
    else
      var (t, q) := WordAt(text, p, st);
      (Lexed(t), q, ContextAfter(st, SymbolOf(t)))
  }

  /** '{' records an object one level deeper and clears both flags; '[' records an array and sets both. */
  lemma OpenerEffects(st: LegacyState)
    ensures var r := ContextAfter(st, Some('{'));
      r.level == st.level + 1 && !IsArrayAt(r.arrays, r.level) && !r.expectingValue && !r.colonRead && !r.top
    ensures var r := ContextAfter(st, Some('['));
      r.level == st.level + 1 && IsArrayAt(r.arrays, r.level) && r.expectingValue && r.colonRead && !r.top
    ensures forall i: nat :: i <= st.level ==>
      IsArrayAt(ContextAfter(st, Some('{')).arrays, i) == IsArrayAt(st.arrays, i)
      && IsArrayAt(ContextAfter(st, Some('[')).arrays, i) == IsArrayAt(st.arrays, i)
  {
  }

  /** A closer at depth 0 only clears `expectingValue`: `colonRead` and the depth stay. */
  lemma CloserAtZero(st: LegacyState, c: char)
    requires st.level == 0 && (c == '}' || c == ']')
    ensures ContextAfter(st, Some(c)) == st.(expectingValue := false, top := false)
  {
  }

  /** A closer above depth 0 goes one level up and sets both flags to the enclosing container's kind. */
  lemma CloserAbove(st: LegacyState, c: char)
    requires st.level > 0 && (c == '}' || c == ']')
    ensures var r := ContextAfter(st, Some(c));
      && r.level == st.level - 1 && r.arrays == st.arrays && !r.top
      && r.expectingValue == IsArrayAt(st.arrays, r.level) && r.colonRead == IsArrayAt(st.arrays, r.level)
  {
  }

  /** ':' sets `colonRead`, a non-symbol token clears it, other separators leave it; every token ends the top. */
  lemma FlagEffects(st: LegacyState, symbol: Option<char>)
    ensures !ContextAfter(st, symbol).top
    ensures symbol == Some(':') ==> ContextAfter(st, symbol) == st.(colonRead := true, top := false)
    ensures symbol.None? ==> ContextAfter(st, symbol) == st.(colonRead := false, top := false)
    ensures symbol.Some? && symbol.value !in "{[}]:" ==> ContextAfter(st, symbol) == st.(top := false)
  {
  }

  /** Popping straight after a push returns to the depth, with both flags the kind recorded there. */
  lemma PopAfterPush(st: LegacyState, isArray: bool)
    ensures var r := PopState(PushState(st, isArray));
      && r.level == st.level
      && r.expectingValue == IsArrayAt(st.arrays, st.level) && r.colonRead == r.expectingValue
      && forall i: nat :: i <= st.level ==> IsArrayAt(r.arrays, i) == IsArrayAt(st.arrays, i)
  {
  }

  /** Inside a container, `expectingValue` is exactly "this container is an array". */
  ghost predicate Tracks(st: LegacyState)
  {
    st.level > 0 ==> st.expectingValue == IsArrayAt(st.arrays, st.level)
  }

  /** The context after a sequence of tokens, given by their symbol characters. */
  function ContextAfterAll(st: LegacyState, symbols: seq<Option<char>>): LegacyState
    decreases |symbols|
  {
    if symbols == [] then st else ContextAfterAll(ContextAfter(st, symbols[0]), symbols[1..])
  }

  /**
   * Whatever tokens are read, inside an array no key is ever read, and inside an
   * object a key is read exactly when no ':' has been read since the last value.
   */
  lemma {:induction false} KeysOnlyInObjects(st: LegacyState, symbols: seq<Option<char>>)
    requires Tracks(st)
    ensures var r := ContextAfterAll(st, symbols);
      && Tracks(r)
      && (r.level > 0 && IsArrayAt(r.arrays, r.level) ==> !ReadsKey(r))
      && (r.level > 0 && !IsArrayAt(r.arrays, r.level) ==> (ReadsKey(r) <==> !r.colonRead))
    decreases |symbols|
  {
    if symbols != [] {
      var s1 := ContextAfter(st, symbols[0]);
      assert Tracks(s1);
      KeysOnlyInObjects(s1, symbols[1..]);
    }
  }

  /** Every token of a word scan starts where the scan starts, spans text that exists, and is passed by the reader. */
  predicate WellScannedAt(text: string, i: nat, r: (Token, nat))
  {
    var (t, q) := r;
    && t.start == i < q <= |text| && t.end <= |text|
    && (t.kind.Symbol? ==> t.end == i + 1 && |t.parsed| == 1 && t.kind.c == t.parsed[0])
    && (t.kind == Word ==> i <= t.end && t.parsed == text[i..t.end] && t.end <= q)
    && (t.kind.Symbol? || t.kind == Word)
  }

  /** A word scan at a significant character yields a symbol or a word, and moves the reader past its start. */
  lemma WordShape(text: string, i: nat, st: LegacyState)
    requires i < |text| && !IsWhitespace(text[i])
    ensures WellScannedAt(text, i, WordAt(text, i, st))
  {
    if ReadsKey(st) {
      KeyShape(text, i, st.top);
    } else if !IsPunctuation(text[i]) {
      UnquotedShape(text, i, i);
    }
  }

  lemma KeyShape(text: string, i: nat, top: bool)
    requires i < |text|
    ensures WellScannedAt(text, i, KeyAt(text, i, top))
  {
    if text[i] == '_' || IsLetterOrDigit(text[i]) {
      var e := KeyEnd(text, i);
      assert e > i;
      if top {
        UnquotedShape(text, i, SkipLineWhitespace(text, e));
      }
    }
  }

  lemma UnquotedShape(text: string, i: nat, q: nat)
    requires (i <= q < |text| && text[q] != '\n') || i < q <= |text|
    ensures WellScannedAt(text, i, UnquotedAt(text, i, q))
  {
    if q < |text| && !IsPunctuation(text[q]) {
      assert text[q] != '\n' ==> NextLineBreak(text, q) > q;
    }
  }

  /** The tokens `single` returns from `pos` on, in order, up to the end of the text or a comment or quoted string. */
  function LegacyLexAll(text: string, pos: nat, st: LegacyState): seq<Token>
    requires pos <= |text|
    decreases |text| - pos
  {
    StepAdvances(text, pos, st);
    var (r, q, st2) := LegacyStep(text, pos, st);
    if r.Lexed? then [r.t] + LegacyLexAll(text, q, st2) else []
  }

  /** Every token `single` returns lies in the text and moves the reader on, so lexing a text ends. */
  lemma StepAdvances(text: string, pos: nat, st: LegacyState)
    requires pos <= |text|
    ensures var (r, q, _) := LegacyStep(text, pos, st);
      pos <= q <= |text| && (r.Lexed? ==> pos < q && r.t.end <= |text|)
  {
    var p := SkipLineWhitespace(text, pos);
    if p < |text| && !StartsExternal(text, p) && text[p] != '\n' {
      WordShape(text, p, st);
    }
  }

  /** At the top a key before ':' keeps its span; ':' is read as a symbol; the value runs to the end of the line. */
  lemma KeyColonValue()
    ensures LegacyLexAll("a: b", 0, LegacyInitial)
         == [Token(Word, 0, 1, "a"), Token(Symbol(':'), 1, 2, ":"), Token(Word, 3, 4, "b")]
  {
    var st1 := ContextAfter(LegacyInitial, None);
    var st2 := ContextAfter(st1, Some(':'));
    var st3 := ContextAfter(st2, None);
    OpenKeyStep(st1);
    ColonStep(st1, st2);
    ValueStep(st2, st3);
    assert LegacyLexAll("a: b", 4, st3) == [];
  }

  lemma OpenKeyStep(st1: LegacyState)
    requires st1 == ContextAfter(LegacyInitial, None)
    ensures LegacyStep("a: b", 0, LegacyInitial) == (Lexed(Token(Word, 0, 1, "a")), 1, st1)
  {
    var text := "a: b";
    assert SkipLineWhitespace(text, 0) == 0 && KeyEnd(text, 0) == 1 && SkipLineWhitespace(text, 1) == 1;
    assert text[0..1] == "a";
  }

  lemma ColonStep(st1: LegacyState, st2: LegacyState)
    requires st1 == ContextAfter(LegacyInitial, None) && st2 == ContextAfter(st1, Some(':'))
    ensures LegacyStep("a: b", 1, st1) == (Lexed(Token(Symbol(':'), 1, 2, ":")), 2, st2)
  {
    assert SkipLineWhitespace("a: b", 1) == 1;
  }

  lemma ValueStep(st2: LegacyState, st3: LegacyState)
    requires st2 == ContextAfter(ContextAfter(LegacyInitial, None), Some(':')) && st3 == ContextAfter(st2, None)
    ensures LegacyStep("a: b", 2, st2) == (Lexed(Token(Word, 3, 4, "b")), 4, st3)
  {
    var text := "a: b";
    assert SkipLineWhitespace(text, 2) == 3;
    LastLine(text, 3);
    assert text[3..4] == "b";
  }

  /** At the top a bare word with more text on its line is read, line and all, as one word. */
  lemma OpenWordTakesLine()
    ensures KeyAt("ab cd", 0, true) == (Token(Word, 0, 5, "ab cd"), 5)
  {
    var text := "ab cd";
    assert KeyEnd(text, 0) == 2 && SkipLineWhitespace(text, 2) == 3;
    LastLine(text, 3);
    assert text[0..5] == text;
  }

  /**
   * At the top a bare word followed by punctuation becomes that punctuation symbol,
   * placed at the word's first character; the word itself yields no token.
   */
  lemma PunctuationAfterOpenWord()
    ensures KeyAt("ab,", 0, true) == (Token(Symbol(','), 0, 1, ","), 3)
  {
    assert KeyEnd("ab,", 0) == 2 && SkipLineWhitespace("ab,", 2) == 2;
  }

  /** The earlier lexer, its context held in its own fields. */
  class LegacyTokenizer {
    const text: string
    var pos: nat
    var arrays: map<nat, bool>
    var expectingValue: bool
    var colonRead: bool
    var top: bool
    var level: nat

    function State(): LegacyState
      reads this
    {
      LegacyState(arrays, expectingValue, colonRead, top, level)
    }

    ghost predicate Valid()
      reads this
    {
      pos <= |text|
    }

    constructor (text: string)
      ensures Valid() && this.text == text && pos == 0 && State() == LegacyInitial
    {
      this.text := text;
      pos := 0;
      arrays := map[];
      expectingValue := false;
      colonRead := false;
      top := true;
      level := 0;
    }

    method UpdateContext(symbol: Option<char>)
      modifies this
      ensures State() == ContextAfter(old(State()), symbol) && pos == old(pos)
    {
      if symbol.Some? {
        var c := symbol.value;
        if c == '{' {
          Push(false);
        } else if c == '[' {
          Push(true);
        } else if c == '}' || c == ']' {
          Pop();
        } else if c == ':' {
          colonRead := true;
        }
      } else {
        colonRead := false;
      }
      top := false;
    }

    method Push(isArray: bool)
      modifies this
      ensures State() == PushState(old(State()), isArray) && pos == old(pos)
    {
      level := level + 1;
      arrays := arrays[level := isArray];
      expectingValue := isArray;
      colonRead := isArray;
    }

    method Pop()
      modifies this
      ensures State() == PopState(old(State())) && pos == old(pos)
    {
      if level == 0 {
        expectingValue := false;
        return;
      }
      level := level - 1;
      var flag := IsArrayAt(arrays, level);
      expectingValue := flag;
      colonRead := flag;
    }

    method IsReadingKey() returns (b: bool)
      ensures b == ReadsKey(State())
    {
      b := !expectingValue && !colonRead;
    }

    method Unquoted(start: nat) returns (t: Token)
      requires Valid() && start <= pos
      modifies this
      ensures Valid() && (t, pos) == UnquotedAt(text, start, old(pos)) && State() == old(State())
    {
      if pos < |text| && IsPunctuation(text[pos]) {
        t := Token(Symbol(text[pos]), start, start + 1, [text[pos]]);
        pos := pos + 1;
        return;
      }
      var e := LineContentEnd(text, pos);
      pos := NextLineBreak(text, pos);
      t := Token(Kind.Word, start, e, text[start..e]);
    }

    method CheckFirstOpenKey(start: nat) returns (t: Token)
      requires Valid() && start <= pos
      modifies this
      ensures Valid() && (t, pos) == FirstOpenKey(text, start, old(pos)) && State() == old(State())
    {
      var e := pos;
      pos := SkipLineWhitespace(text, pos);
      if pos < |text| && (text[pos] == ':' || text[pos] == '\n') {
        return Token(Kind.Word, start, e, text[start..e]);
      }
      t := Unquoted(start);
    }

    method Key() returns (t: Token)
      requires Valid() && pos < |text|
      modifies this
      ensures Valid() && (t, pos) == KeyAt(text, old(pos), top) && State() == old(State())
    {
      var start := pos;
      var c := text[pos];
      if c != '_' && !IsLetterOrDigit(c) {
        pos := pos + 1;
        return Token(Symbol(c), start, pos, [c]);
      }
      var p := pos + 1;
      while p < |text| && IsLegalKeyCharacter(text[p])
        invariant start < p <= |text|
        invariant KeyEnd(text, p) == KeyEnd(text, start)
        decreases |text| - p
      {
        p := p + 1;
      }
      pos := p;
      if top {
        t := CheckFirstOpenKey(start);
        return;
      }
      t := Token(Kind.Word, start, pos, text[start..pos]);
    }

    method Word() returns (t: Token)
      requires Valid() && pos < |text|
      modifies this
      ensures Valid() && (t, pos) == WordAt(text, old(pos), State()) && State() == old(State())
    {
      var reading := IsReadingKey();
      if reading {
        t := Key();
        return;
      }
      var c := text[pos];
      if IsPunctuation(c) {
        pos := pos + 1;
        return Token(Symbol(c), pos - 1, pos, [c]);
      }
      t := Unquoted(pos);
    }

    method Single() returns (r: Lexed)
      requires Valid()
      modifies this
      ensures Valid() && (r, pos, State()) == LegacyStep(text, old(pos), old(State()))
    {
      pos := SkipLineWhitespace(text, pos);
      if pos == |text| {
        UpdateContext(None);
        return EndOfText;
      }
      if StartsExternal(text, pos) {
        UpdateContext(None);
        return External(pos);
      }
      var t: Token;
      if text[pos] == '\n' {
        t := Token(Break, pos, pos + 1, "\n");
        pos := pos + 1;
      } else {
        t := Word();
      }
      UpdateContext(SymbolOf(t));
      r := Lexed(t);
    }
  }
}
