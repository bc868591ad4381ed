/**
 * What the compat Hjson parser's rules add up to: empty input, open roots, key errors,
 * the delimiter rule, numbers followed by text, and members kept in source order,
 * with the parser's own test texts as token sequences.
 */
module HjsonParserProperties {
  import opened HjsonText
  import opened CompatHjsonParser

  /** A run of line breaks and comments is skipped whole. */
  lemma {:induction false} AllMetadataSkipped(tokens: seq<Token>, i: nat)
    requires i <= |tokens| && forall k :: i <= k < |tokens| ==> IsMetadata(tokens[k])
    ensures SkipWhitespace(tokens, i) == |tokens|
    decreases |tokens| - i
  {
    if i < |tokens| {
      AllMetadataSkipped(tokens, i + 1);
    }
  }

  /** A text of nothing but line breaks and comments is an empty object. */
  lemma EmptyInputIsObject(tokens: seq<Token>, reference: string)
    requires Spans(tokens, reference) && forall k :: 0 <= k < |tokens| ==> IsMetadata(tokens[k])
    ensures Parse(tokens, reference) == Success(HObject([]))
  {
    AllMetadataSkipped(tokens, 0);
  }

  /**
   * The key rules: ':' is an empty key, other punctuation is refused, a key whose next
   * significant token is not a symbol held whitespace, and any other key is its text.
   */
  lemma KeyRules(tokens: seq<Token>, reference: string, i: nat)
    requires Spans(tokens, reference) && i < |tokens|
    ensures tokens[i].kind == Symbol(':') ==> ReadKey(tokens, reference, i) == Fail(EmptyKey)
    ensures forall c :: c != ':' && IsPunctuationChar(c) && tokens[i].kind == Symbol(c) ==>
      ReadKey(tokens, reference, i) == Fail(PunctuationInKey(c))
    ensures (!tokens[i].kind.Symbol? || !IsPunctuationChar(tokens[i].kind.c)) ==>
      var j := SkipWhitespace(tokens, i + 1);
      (ReadKey(tokens, reference, i).Fail? <==> j < |tokens| && !tokens[j].kind.Symbol?)
      && (ReadKey(tokens, reference, i).Fail? ==> ReadKey(tokens, reference, i) == Fail(WhitespaceInKey))
    ensures tokens[i].kind.Str? && ReadKey(tokens, reference, i).Ok? ==>
      ReadKey(tokens, reference, i).value == tokens[i].parsed
  {
  }

  /** A member whose key is followed, past line breaks, by a bare token fails: whitespace in the key. */
  lemma KeyBeforeWordFails(tokens: seq<Token>, reference: string, k: nat)
    requires Spans(tokens, reference) && k < |tokens| && !tokens[k].kind.Symbol?
    requires SkipWhitespace(tokens, k + 1) < |tokens| && !tokens[SkipWhitespace(tokens, k + 1)].kind.Symbol?
    ensures ReadNextMember(tokens, reference, k) == Fail(WhitespaceInKey)
  {
  }

  /** `readDelimiter` reports a delimiter exactly when, past comments, a ',' or a line break comes next. */
  lemma DelimiterRule(tokens: seq<Token>, i: nat)
    requires i <= |tokens|
    ensures var a := SkipComments(tokens, i);
      ReadDelimiter(tokens, i).0 <==> AtSymbol(tokens, a, ',') || (a < |tokens| && tokens[a].kind.Break?)
    ensures !ReadDelimiter(tokens, i).0 ==> ReadDelimiter(tokens, i).1 == SkipComments(tokens, i)
  {
  }

  /** An element with no delimiter after it must be followed by ']': two containers side by side fail. */
  lemma UndelimitedElementFails(tokens: seq<Token>, reference: string, j: nat, acc: seq<HValue>)
    requires Spans(tokens, reference) && j <= |tokens|
    requires var k := SkipWhitespace(tokens, j);
      k < |tokens| && !AtSymbol(tokens, k, ']')
      && ReadNextElement(tokens, reference, k).Ok? && !ReadNextElement(tokens, reference, k).value.1
      && !AtSymbol(tokens, ReadNextElement(tokens, reference, k).next, ']')
    ensures ReadElements(tokens, reference, j, acc) == Fail(Expected(']'))
  {
  }

  /** A symbol where a value belongs is an error naming it, as in "k:," and "[,,]". */
  lemma SymbolIsNoValue(tokens: seq<Token>, reference: string, i: nat, c: char)
    requires Spans(tokens, reference) && i < |tokens| && tokens[i].kind == Symbol(c) && c != '{' && c != '['
    ensures ReadValue(tokens, reference, i) == Fail(PunctuationInValue(c))
  {
  }

  /**
   * A number followed directly by a token that is not a line break, comment or symbol
   * is read, with every token up to the next stop, as one string of the text they span.
   */
  lemma NumberThenText(tokens: seq<Token>, reference: string, i: nat)
    requires Spans(tokens, reference) && i + 1 < |tokens| && tokens[i].kind == Number
    requires var t := tokens[i + 1]; !t.kind.Break? && !t.kind.Comment? && !t.kind.Symbol?
    ensures var j := RunEnd(tokens, i + 1);
      && i + 1 < j
      && ReadValue(tokens, reference, i) == Ok(HStr(reference[tokens[i].start..tokens[j - 1].end], NONE), j)
  {
  }

  /** A number with a stop after it keeps its literal. */
  lemma NumberAlone(tokens: seq<Token>, reference: string, i: nat)
    requires Spans(tokens, reference) && i < |tokens| && tokens[i].kind == Number
    requires i + 1 == |tokens| || tokens[i + 1].kind.Break? || tokens[i + 1].kind.Comment? || tokens[i + 1].kind.Symbol?
    ensures ReadValue(tokens, reference, i) == Ok(HNum(tokens[i].parsed), i + 1)
  {
  }

  /** Bare words: `true`, `false` and `null` are literals, any other word a string of its text. */
  lemma WordLiterals(tokens: seq<Token>, reference: string, i: nat)
    requires Spans(tokens, reference) && i < |tokens| && tokens[i].kind == Word
    ensures var text := TextOf(tokens, reference, i);
      && ReadValue(tokens, reference, i).Ok? && ReadValue(tokens, reference, i).next == i + 1
      && (text == "true" <==> ReadValue(tokens, reference, i).value == HBool(true))
      && (text == "false" <==> ReadValue(tokens, reference, i).value == HBool(false))
      && (text == "null" <==> ReadValue(tokens, reference, i).value == HNull)
      && (text != "true" && text != "false" && text != "null" ==> ReadValue(tokens, reference, i).value == HStr(text, NONE))
  {
  }

  /** The member loop only appends: the members read before come first, in order. */
  lemma {:induction false} MembersInOrder(tokens: seq<Token>, reference: string, j: nat, acc: seq<HMember>, closer: Option<char>)
    requires Spans(tokens, reference) && j <= |tokens|
    ensures var r := ReadMembers(tokens, reference, j, acc, closer);
      r.Ok? ==> |acc| <= |r.value| && r.value[..|acc|] == acc
    decreases |tokens| - j
  {
    var k := SkipWhitespace(tokens, j);
    if k == |tokens| || (closer.Some? && AtSymbol(tokens, k, closer.value)) {
      assert ReadMembers(tokens, reference, j, acc, closer) == Close(tokens, k, acc, closer);
    } else {
      var m := ReadNextMember(tokens, reference, k);
      if m.Ok? {
        var acc' := acc + [m.value.0];
        assert acc'[..|acc|] == acc;
        if m.value.1 {
          assert ReadMembers(tokens, reference, j, acc, closer) == ReadMembers(tokens, reference, m.next, acc', closer);
          MembersInOrder(tokens, reference, m.next, acc', closer);
          var r := ReadMembers(tokens, reference, m.next, acc', closer);
          if r.Ok? {
            assert r.value[..|acc|] == r.value[..|acc'|][..|acc|];
          }
        } else {
          assert ReadMembers(tokens, reference, j, acc, closer) == Close(tokens, m.next, acc', closer);
        }
      }
    }
  }

  /** The element loop only appends, too. */
  lemma {:induction false} ElementsInOrder(tokens: seq<Token>, reference: string, j: nat, acc: seq<HValue>)
    requires Spans(tokens, reference) && j <= |tokens|
    ensures var r := ReadElements(tokens, reference, j, acc);
      r.Ok? ==> |acc| <= |r.value| && r.value[..|acc|] == acc
    decreases |tokens| - j
  {
    var k := SkipWhitespace(tokens, j);
    if k == |tokens| || AtSymbol(tokens, k, ']') {
      assert ReadElements(tokens, reference, j, acc) == Close(tokens, k, acc, Some(']'));
    } else {
      var e := ReadNextElement(tokens, reference, k);
      if e.Ok? {
        var acc' := acc + [e.value.0];
        assert acc'[..|acc|] == acc;
        if e.value.1 {
          assert ReadElements(tokens, reference, j, acc) == ReadElements(tokens, reference, e.next, acc');
          ElementsInOrder(tokens, reference, e.next, acc');
          var r := ReadElements(tokens, reference, e.next, acc');
          if r.Ok? {
            assert r.value[..|acc|] == r.value[..|acc'|][..|acc|];
          }
        } else {
          assert ReadElements(tokens, reference, j, acc) == Close(tokens, e.next, acc', Some(']'));
        }
      }
    }
  }
}
