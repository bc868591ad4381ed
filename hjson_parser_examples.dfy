/**
 * The compat Hjson parser's test texts, each written as the token sequence the compat
 * lexer reads from it, and what the parser makes of them.
 */
module HjsonParserExamples {
  import opened HjsonText
  import opened CompatHjsonParser

  function Sym(c: char, p: nat): Token
  {
    Token(Symbol(c), p, p + 1, [c])
  }

  function Bare(s: string, p: nat): Token
  {
    Token(Str(IMPLICIT), p, p + |s|, s)
  }

  function Num(s: string, p: nat): Token
  {
    Token(Number, p, p + |s|, s)
  }

  function Nl(p: nat): Token
  {
    Token(Break, p, p + 1, "\n")
  }

  /** An open root starting at the first token, whose members run to the end of the tokens. */
  lemma OpenRootParsed(tokens: seq<Token>, text: string, ms: seq<HMember>)
    requires Spans(tokens, text) && 0 < |tokens| && !IsMetadata(tokens[0]) && IsOpenRoot(tokens, text, 0)
    requires ReadMembers(tokens, text, 0, [], None) == Ok(ms, |tokens|)
    ensures Parse(tokens, text) == Success(HObject(ms))
  {
  }

  /** Two members of an open root, the first delimited from the second. */
  lemma TwoMembers(tokens: seq<Token>, text: string, k: nat, m1: HMember, m2: HMember, n: nat)
    requires Spans(tokens, text) && k < |tokens| && !IsMetadata(tokens[0]) && !IsMetadata(tokens[k])
    requires ReadNextMember(tokens, text, 0) == Ok((m1, true), k)
    requires ReadNextMember(tokens, text, k) == Ok((m2, false), n)
    ensures ReadMembers(tokens, text, 0, [], None) == Ok([m1, m2], n)
  {
    assert [] + [m1] == [m1] && [m1] + [m2] == [m1, m2];
    assert ReadMembers(tokens, text, k, [m1], None) == Ok([m1, m2], n);
  }

  /** "": an empty text is an empty object. */
  lemma EmptyText()
    ensures Parse([], "") == Success(HObject([]))
  {
  }

  /** "a:1,b:2": an open root, its members in order. */
  lemma OpenRoot(tokens: seq<Token>, text: string)
    requires tokens == [Bare("a", 0), Sym(':', 1), Num("1", 2), Sym(',', 3), Token(Word, 4, 5, "b"), Sym(':', 5), Num("2", 6)]
    requires text == "a:1,b:2"
    ensures Spans(tokens, text)
    ensures Parse(tokens, text) == Success(HObject([HMember("a", HNum("1")), HMember("b", HNum("2"))]))
  {
    assert Spans(tokens, text);
    assert IsOpenRoot(tokens, text, 0) by {
      assert TextOf(tokens, text, 0) == "a";
    }
    OpenRootFirst(tokens, text);
    OpenRootSecond(tokens, text);
    TwoMembers(tokens, text, 4, HMember("a", HNum("1")), HMember("b", HNum("2")), 7);
    OpenRootParsed(tokens, text, [HMember("a", HNum("1")), HMember("b", HNum("2"))]);
  }

  lemma OpenRootFirst(tokens: seq<Token>, text: string)
    requires tokens == [Bare("a", 0), Sym(':', 1), Num("1", 2), Sym(',', 3), Token(Word, 4, 5, "b"), Sym(':', 5), Num("2", 6)]
    requires text == "a:1,b:2" && Spans(tokens, text)
    ensures ReadNextMember(tokens, text, 0) == Ok((HMember("a", HNum("1")), true), 4)
  {
    assert ReadKey(tokens, text, 0) == Ok("a", 1);
    assert ReadValue(tokens, text, 2) == Ok(HNum("1"), 3);
  }

  lemma OpenRootSecond(tokens: seq<Token>, text: string)
    requires tokens == [Bare("a", 0), Sym(':', 1), Num("1", 2), Sym(',', 3), Token(Word, 4, 5, "b"), Sym(':', 5), Num("2", 6)]
    requires text == "a:1,b:2" && Spans(tokens, text)
    ensures ReadNextMember(tokens, text, 4) == Ok((HMember("b", HNum("2")), false), 7)
  {
    assert text[4..5] == "b";
    assert ReadKey(tokens, text, 4) == Ok("b", 5);
    assert ReadValue(tokens, text, 6) == Ok(HNum("2"), 7);
  }

  /** "k\n:\nv": line breaks between a key, its ':' and its value are tolerated. */
  lemma BreaksAroundColon(tokens: seq<Token>, text: string)
    requires tokens == [Bare("k", 0), Nl(1), Sym(':', 2), Nl(3), Bare("v", 4)] && text == "k\n:\nv"
    ensures Spans(tokens, text)
    ensures Parse(tokens, text) == Success(HObject([HMember("k", HStr("v", IMPLICIT))]))
  {
    assert Spans(tokens, text);
    assert IsOpenRoot(tokens, text, 0) by {
      assert SkipWhitespace(tokens, 1) == 2;
      assert TextOf(tokens, text, 0) == "k";
    }
    BreaksMember(tokens, text);
    assert SkipWhitespace(tokens, 0) == 0;
    assert [] + [HMember("k", HStr("v", IMPLICIT))] == [HMember("k", HStr("v", IMPLICIT))];
    assert ReadMembers(tokens, text, 0, [], None) == Ok([HMember("k", HStr("v", IMPLICIT))], 5);
  }

  lemma BreaksMember(tokens: seq<Token>, text: string)
    requires tokens == [Bare("k", 0), Nl(1), Sym(':', 2), Nl(3), Bare("v", 4)] && text == "k\n:\nv"
    requires Spans(tokens, text)
    ensures ReadNextMember(tokens, text, 0) == Ok((HMember("k", HStr("v", IMPLICIT)), false), 5)
  {
    assert SkipWhitespace(tokens, 1) == 2 && SkipWhitespace(tokens, 3) == 4;
    assert ReadKey(tokens, text, 0) == Ok("k", 1);
    assert ReadBetween(tokens, 1, ':') == Ok((), 4);
    assert ReadValue(tokens, text, 4) == Ok(HStr("v", IMPLICIT), 5);
  }

  /** "k:v\nr:t": a value runs to its line's end, and the next line holds the next member. */
  lemma MembersOnLines(tokens: seq<Token>, text: string)
    requires tokens == [Bare("k", 0), Sym(':', 1), Bare("v", 2), Nl(3), Token(Word, 4, 5, "r"), Sym(':', 5), Bare("t", 6)]
    requires text == "k:v\nr:t"
    ensures Spans(tokens, text)
    ensures Parse(tokens, text) == Success(HObject([HMember("k", HStr("v", IMPLICIT)), HMember("r", HStr("t", IMPLICIT))]))
  {
    assert Spans(tokens, text);
    assert IsOpenRoot(tokens, text, 0) by {
      assert TextOf(tokens, text, 0) == "k";
    }
    var m1, m2 := HMember("k", HStr("v", IMPLICIT)), HMember("r", HStr("t", IMPLICIT));
    LinesFirst(tokens, text);
    LinesSecond(tokens, text);
    TwoMembers(tokens, text, 4, m1, m2, 7);
    OpenRootParsed(tokens, text, [m1, m2]);
  }

  lemma LinesFirst(tokens: seq<Token>, text: string)
    requires tokens == [Bare("k", 0), Sym(':', 1), Bare("v", 2), Nl(3), Token(Word, 4, 5, "r"), Sym(':', 5), Bare("t", 6)]
    requires text == "k:v\nr:t" && Spans(tokens, text)
    ensures ReadNextMember(tokens, text, 0) == Ok((HMember("k", HStr("v", IMPLICIT)), true), 4)
  {
    assert ReadKey(tokens, text, 0) == Ok("k", 1);
    assert ReadValue(tokens, text, 2) == Ok(HStr("v", IMPLICIT), 3);
    assert SkipWhitespace(tokens, 4) == 4;
  }

  lemma LinesSecond(tokens: seq<Token>, text: string)
    requires tokens == [Bare("k", 0), Sym(':', 1), Bare("v", 2), Nl(3), Token(Word, 4, 5, "r"), Sym(':', 5), Bare("t", 6)]
    requires text == "k:v\nr:t" && Spans(tokens, text)
    ensures ReadNextMember(tokens, text, 4) == Ok((HMember("r", HStr("t", IMPLICIT)), false), 7)
  {
    assert text[4..5] == "r";
    assert ReadKey(tokens, text, 4) == Ok("r", 5);
    assert ReadValue(tokens, text, 6) == Ok(HStr("t", IMPLICIT), 7);
  }

  /** "k:,": punctuation where the value belongs. */
  lemma CommaAsValue(tokens: seq<Token>, text: string)
    requires tokens == [Bare("k", 0), Sym(':', 1), Sym(',', 2)] && text == "k:,"
    ensures Spans(tokens, text) && Parse(tokens, text) == Failure(PunctuationInValue(','))
  {
    assert Spans(tokens, text);
    assert IsOpenRoot(tokens, text, 0) by {
      assert TextOf(tokens, text, 0) == "k";
    }
    assert ReadKey(tokens, text, 0) == Ok("k", 1);
    assert ReadValue(tokens, text, 2) == Fail(PunctuationInValue(','));
    assert ReadNextMember(tokens, text, 0) == Fail(PunctuationInValue(','));
  }

  /** "k:": the value is missing at the end of the text. */
  lemma MissingValue(tokens: seq<Token>, text: string)
    requires tokens == [Bare("k", 0), Sym(':', 1)] && text == "k:"
    ensures Spans(tokens, text) && Parse(tokens, text) == Failure(UnexpectedEnd)
  {
    assert Spans(tokens, text);
    assert IsOpenRoot(tokens, text, 0) by {
      assert TextOf(tokens, text, 0) == "k";
    }
    assert ReadKey(tokens, text, 0) == Ok("k", 1);
    assert ReadNextMember(tokens, text, 0) == Fail(UnexpectedEnd);
  }

  /** "[[][]]": two arrays side by side with no delimiter between them. */
  lemma UndelimitedArrays(tokens: seq<Token>, text: string)
    requires tokens == [Sym('[', 0), Sym('[', 1), Sym(']', 2), Sym('[', 3), Sym(']', 4), Sym(']', 5)] && text == "[[][]]"
    ensures Spans(tokens, text) && Parse(tokens, text) == Failure(Expected(']'))
  {
    assert Spans(tokens, text);
    assert ReadArray(tokens, text, 1) == Ok(HArray([]), 3);
    assert ReadNextElement(tokens, text, 1) == Ok((HArray([]), false), 3);
    assert ReadElements(tokens, text, 1, []) == Fail(Expected(']'));
    assert ReadValue(tokens, text, 0) == Fail(Expected(']'));
  }

  /** "[,,]": a comma where an element belongs. */
  lemma CommasInArray(tokens: seq<Token>, text: string)
    requires tokens == [Sym('[', 0), Sym(',', 1), Sym(',', 2), Sym(']', 3)] && text == "[,,]"
    ensures Spans(tokens, text) && Parse(tokens, text) == Failure(PunctuationInValue(','))
  {
    assert Spans(tokens, text);
    assert ReadNextElement(tokens, text, 1) == Fail(PunctuationInValue(','));
    assert ReadElements(tokens, text, 1, []) == Fail(PunctuationInValue(','));
    assert ReadValue(tokens, text, 0) == Fail(PunctuationInValue(','));
  }

  /** "{k\nk:1}": a key followed by a line break and another word held whitespace. */
  lemma KeyAcrossLines(tokens: seq<Token>, text: string)
    requires tokens == [Sym('{', 0), Token(Word, 1, 2, "k"), Nl(2), Token(Word, 3, 4, "k"), Sym(':', 4), Num("1", 5), Sym('}', 6)]
    requires text == "{k\nk:1}"
    ensures Spans(tokens, text) && Parse(tokens, text) == Failure(WhitespaceInKey)
  {
    assert Spans(tokens, text);
    assert SkipWhitespace(tokens, 2) == 3;
    assert ReadKey(tokens, text, 1) == Fail(WhitespaceInKey);
    assert ReadNextMember(tokens, text, 1) == Fail(WhitespaceInKey);
    assert ReadMembers(tokens, text, 1, [], Some('}')) == Fail(WhitespaceInKey);
    assert ReadValue(tokens, text, 0) == Fail(WhitespaceInKey);
  }
}
