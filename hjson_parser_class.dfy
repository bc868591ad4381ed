/**
 * The compat Hjson parser as the object it is: a cursor over the token sequence that
 * each `read…` method moves forward. Every method is proved to do what the function
 * of the same name in `CompatHjsonParser` computes from the cursor it started at.
 */
module HjsonParsing {
  import opened HjsonText
  import opened Spec = CompatHjsonParser

  class HjsonParser {
    const tokens: seq<Token>
    const reference: string
    /** The index of the current token; `|tokens|` is the end of the text. */
    var cursor: nat

    ghost predicate Valid()
      reads this
    {
      cursor <= |tokens| && Spans(tokens, reference)
    }

    constructor (tokens: seq<Token>, reference: string)
      requires Spans(tokens, reference)
      ensures Valid() && this.tokens == tokens && this.reference == reference && cursor == 0
    {
      this.tokens := tokens;
      this.reference := reference;
      cursor := 0;
    }

    /** `readWhitespace()`: past line breaks and comments. */
    method ReadWhitespace()
      requires Valid()
      modifies this
      ensures Valid() && cursor == SkipWhitespace(tokens, old(cursor))
    {
      var p := cursor;
      while p < |tokens| && IsMetadata(tokens[p])
        invariant cursor <= p <= |tokens|
        invariant SkipWhitespace(tokens, p) == SkipWhitespace(tokens, cursor)
        decreases |tokens| - p
      {
        p := p + 1;
      }
      cursor := p;
    }

    /** `readLineWhitespace()`: past comments. */
    method ReadLineWhitespace()
      requires Valid()
      modifies this
      ensures Valid() && cursor == SkipComments(tokens, old(cursor))
    {
      var p := cursor;
      while p < |tokens| && tokens[p].kind.Comment?
        invariant cursor <= p <= |tokens|
        invariant SkipComments(tokens, p) == SkipComments(tokens, cursor)
        decreases |tokens| - p
      {
        p := p + 1;
      }
      cursor := p;
    }

    /** `peekWhitespace()`: the next significant token after the current one, without moving. */
    method PeekWhitespace() returns (r: Option<nat>)
      requires Valid() && cursor < |tokens|
      ensures r == Spec.PeekWhitespace(tokens, cursor)
    {
      var peekAmount := 1;
      while cursor + peekAmount < |tokens| && IsMetadata(tokens[cursor + peekAmount])
        invariant 1 <= peekAmount && cursor + peekAmount <= |tokens|
        invariant SkipWhitespace(tokens, cursor + peekAmount) == SkipWhitespace(tokens, cursor + 1)
        decreases |tokens| - peekAmount
      {
        peekAmount := peekAmount + 1;
      }
      if cursor + peekAmount < |tokens| {
        r := Some(cursor + peekAmount);
      } else {
        r := None;
      }
    }

    /** `isOpenRoot()`. */
    method IsOpenRoot() returns (b: bool)
      requires Valid() && cursor < |tokens|
      ensures b == Spec.IsOpenRoot(tokens, reference, cursor)
    {
      if tokens[cursor].kind.Symbol? {
        return false;
      }
      var peek := PeekWhitespace();
      if peek.None? {
        return false;
      }
      b := AtSymbol(tokens, peek.value, ':') && NonBlank(reference[tokens[cursor].start..tokens[cursor].end]);
    }

    /** `readKey()`: the key, the cursor past it. */
    method ReadKey() returns (r: Parsed<string>)
      requires Valid() && cursor < |tokens|
      modifies this
      ensures Valid() && r == Spec.ReadKey(tokens, reference, old(cursor)) && (r.Ok? ==> cursor == r.next)
    {
      var t := tokens[cursor];
      if t.kind == Symbol(':') {
        return Fail(EmptyKey);
      } else if t.kind.Symbol? && IsPunctuationChar(t.kind.c) {
        return Fail(PunctuationInKey(t.kind.c));
      }
      var text := if t.kind.Str? then t.parsed else reference[t.start..t.end];
      var peek := PeekWhitespace();
      if peek.Some? && !tokens[peek.value].kind.Symbol? {
        return Fail(WhitespaceInKey);
      }
      cursor := cursor + 1;
      r := Ok(text, cursor);
    }

    /** `readBetween(c)`. */
    method ReadBetween(c: char) returns (r: Parsed<()>)
      requires Valid()
      modifies this
      ensures Valid() && r == Spec.ReadBetween(tokens, old(cursor), c) && (r.Ok? ==> cursor == r.next)
    {
      ReadWhitespace();
      if !AtSymbol(tokens, cursor, c) {
        return Fail(Expected(c));
      }
      cursor := cursor + 1;
      ReadWhitespace();
      r := Ok((), cursor);
    }

    /** `readDelimiter()`: whether a delimiter was read; the cursor stops where reading did. */
    method ReadDelimiter() returns (delimited: bool)
      requires Valid()
      modifies this
      ensures Valid() && (delimited, cursor) == Spec.ReadDelimiter(tokens, old(cursor))
    {
      ReadLineWhitespace();
      if AtSymbol(tokens, cursor, ',') {
        cursor := cursor + 1;
        ReadLineWhitespace();
        if cursor < |tokens| && tokens[cursor].kind.Break? {
          cursor := cursor + 1;
        }
        delimited := true;
      } else if cursor < |tokens| && tokens[cursor].kind.Break? {
        cursor := cursor + 1;
        ReadWhitespace();
        if AtSymbol(tokens, cursor, ',') {
          cursor := cursor + 1;
        }
        delimited := true;
      } else {
        delimited := false;
      }
    }

    /**
     * `checkAfterUnquoted()`: for a number followed by more text, the string of the
     * whole run, with the cursor on the run's last token; otherwise nothing, unmoved.
     */
    method CheckAfterUnquoted() returns (r: Option<HValue>)
      requires Valid() && cursor < |tokens|
      modifies this
      ensures Valid()
      ensures var f := Spec.CheckAfterUnquoted(tokens, reference, old(cursor));
        && (r.Some? <==> f.Some?)
        && (f.Some? ==> r.value == f.value.0 && cursor == f.value.1)
        && (f.None? ==> cursor == old(cursor))
    {
      if cursor + 1 == |tokens| {
        return None;
      }
      var peek := tokens[cursor + 1];
      if peek.kind.Break? || peek.kind.Comment? || peek.kind.Symbol? {
        return None;
      }
      var s := tokens[cursor].start;
      var p := cursor + 1;
      while p < |tokens| && !StopsRun(tokens[p])
        invariant cursor + 1 <= p <= |tokens|
        invariant RunEnd(tokens, p) == RunEnd(tokens, cursor + 1)
        decreases |tokens| - p
      {
        p := p + 1;
      }
      cursor := p - 1;
      r := Some(HStr(reference[s..tokens[p - 1].end], NONE));
    }

    /** `readUnquoted()`: the value, the cursor on its last token. */
    method ReadUnquoted() returns (r: Parsed<HValue>)
      requires Valid() && cursor < |tokens|
      modifies this
      ensures Valid() && r == Spec.ReadUnquoted(tokens, reference, old(cursor)) && (r.Ok? ==> cursor == r.next)
    {
      var t := tokens[cursor];
      if t.kind == Number {
        var full := CheckAfterUnquoted();
        if full.Some? {
          return Ok(full.value, cursor);
        }
        return Ok(HNum(t.parsed), cursor);
      } else if t.kind.Str? {
        return Ok(HStr(t.parsed, t.kind.stringType), cursor);
      } else if t.kind.Symbol? {
        return Fail(PunctuationInValue(t.kind.c));
      }
      r := Ok(Literal(reference[t.start..t.end]), cursor);
    }

    /** `close(c)`: read the closer, if the container has one. */
    method Close<T>(v: T, closer: Option<char>) returns (r: Parsed<T>)
      requires Valid()
      modifies this
      ensures Valid() && r == Spec.Close(tokens, old(cursor), v, closer) && (r.Ok? ==> cursor == r.next)
    {
      if closer.None? {
        return Ok(v, cursor);
      }
      if !AtSymbol(tokens, cursor, closer.value) {
        return Fail(Expected(closer.value));
      }
      cursor := cursor + 1;
      r := Ok(v, cursor);
    }

    /** `readValue()`: the value, the cursor past it. */
    method ReadValue() returns (r: Parsed<HValue>)
      requires Valid()
      modifies this
      ensures Valid() && r == Spec.ReadValue(tokens, reference, old(cursor)) && (r.Ok? ==> cursor == r.next)
      decreases |tokens| - cursor, 1
    {
      if cursor == |tokens| {
        return Fail(UnexpectedEnd);
      } else if AtSymbol(tokens, cursor, '{') {
        r := ReadObject();
        return;
      } else if AtSymbol(tokens, cursor, '[') {
        r := ReadArray();
        return;
      }
      var u := ReadUnquoted();
      if u.Fail? {
        return Fail(u.error);
      }
      cursor := cursor + 1;
      r := Ok(u.value, cursor);
    }

    /** `readObject()`. */
    method ReadObject() returns (r: Parsed<HValue>)
      requires Valid() && AtSymbol(tokens, cursor, '{')
      modifies this
      ensures Valid() && r == Spec.ReadObject(tokens, reference, old(cursor)) && (r.Ok? ==> cursor == r.next)
      decreases |tokens| - cursor, 0
    {
      cursor := cursor + 1;
      ReadWhitespace();
      if AtSymbol(tokens, cursor, '}') {
        cursor := cursor + 1;
        return Ok(HObject([]), cursor);
      }
      var ms := ReadMembers(Some('}'));
      if ms.Fail? {
        return Fail(ms.error);
      }
      r := Ok(HObject(ms.value), ms.next);
    }

    /**
     * The member loop of `readObject()` and `readOpenRoot()`: read members while each
     * is delimited and the container has not ended, then close it.
     */
    method ReadMembers(closer: Option<char>) returns (r: Parsed<seq<HMember>>)
      requires Valid()
      modifies this
      ensures Valid() && r == Spec.ReadMembers(tokens, reference, old(cursor), [], closer)
      ensures r.Ok? ==> cursor == r.next
      decreases |tokens| - cursor, 3
    {
      var members: seq<HMember> := [];
      var done := false;
      r := Fail(UnexpectedEnd);
      while !done
        invariant Valid() && (!done ==> old(cursor) <= cursor)
        invariant !done ==>
          Spec.ReadMembers(tokens, reference, cursor, members, closer) == Spec.ReadMembers(tokens, reference, old(cursor), [], closer)
        invariant done ==> r == Spec.ReadMembers(tokens, reference, old(cursor), [], closer)
        invariant done && r.Ok? ==> cursor == r.next
        decreases !done, |tokens| - cursor
      {
        ReadWhitespace();
        if cursor == |tokens| || (closer.Some? && AtSymbol(tokens, cursor, closer.value)) {
          r := Close(members, closer);
          done := true;
        } else {
          var m := ReadNextMember();
          if m.Fail? {
            r := Fail(m.error);
            done := true;
          } else {
            members := members + [m.value.0];
            if !m.value.1 {
              r := Close(members, closer);
              done := true;
            }
          }
        }
      }
    }

    /** `readNextMember()`: a member and whether a delimiter follows it. */
    method ReadNextMember() returns (r: Parsed<(HMember, bool)>)
      requires Valid() && cursor < |tokens|
      modifies this
      ensures Valid() && r == Spec.ReadNextMember(tokens, reference, old(cursor)) && (r.Ok? ==> cursor == r.next)
      decreases |tokens| - cursor, 2
    {
      var key := ReadKey();
      if key.Fail? {
        return Fail(key.error);
      }
      var between := ReadBetween(':');
      if between.Fail? {
        return Fail(between.error);
      }
      var value := ReadValue();
      if value.Fail? {
        return Fail(value.error);
      }
      var delimited := ReadDelimiter();
      r := Ok((HMember(key.value, value.value), delimited), cursor);
    }

    /** `readArray()`. */
    method ReadArray() returns (r: Parsed<HValue>)
      requires Valid() && AtSymbol(tokens, cursor, '[')
      modifies this
      ensures Valid() && r == Spec.ReadArray(tokens, reference, old(cursor)) && (r.Ok? ==> cursor == r.next)
      decreases |tokens| - cursor, 0
    {
      cursor := cursor + 1;
      ReadWhitespace();
      if AtSymbol(tokens, cursor, ']') {
        cursor := cursor + 1;
        return Ok(HArray([]), cursor);
      }
      var vs := ReadElements();
      if vs.Fail? {
        return Fail(vs.error);
      }
      r := Ok(HArray(vs.value), vs.next);
    }

    /** The element loop of `readArray()`. */
    method ReadElements() returns (r: Parsed<seq<HValue>>)
      requires Valid()
      modifies this
      ensures Valid() && r == Spec.ReadElements(tokens, reference, old(cursor), [])
      ensures r.Ok? ==> cursor == r.next
      decreases |tokens| - cursor, 3
    {
      var elements: seq<HValue> := [];
      var done := false;
      r := Fail(UnexpectedEnd);
      while !done
        invariant Valid() && (!done ==> old(cursor) <= cursor)
        invariant !done ==>
          Spec.ReadElements(tokens, reference, cursor, elements) == Spec.ReadElements(tokens, reference, old(cursor), [])
        invariant done ==> r == Spec.ReadElements(tokens, reference, old(cursor), [])
        invariant done && r.Ok? ==> cursor == r.next
        decreases !done, |tokens| - cursor
      {
        ReadWhitespace();
        if cursor == |tokens| || AtSymbol(tokens, cursor, ']') {
          r := Close(elements, Some(']'));
          done := true;
        } else {
          var e := ReadNextElement();
          if e.Fail? {
            r := Fail(e.error);
            done := true;
          } else {
            elements := elements + [e.value.0];
            if !e.value.1 {
              r := Close(elements, Some(']'));
              done := true;
            }
          }
        }
      }
    }

    /** `readNextElement()`: an element and whether a delimiter follows it. */
    method ReadNextElement() returns (r: Parsed<(HValue, bool)>)
      requires Valid() && cursor < |tokens|
      modifies this
      ensures Valid() && r == Spec.ReadNextElement(tokens, reference, old(cursor)) && (r.Ok? ==> cursor == r.next)
      decreases |tokens| - cursor, 2
    {
      var value := ReadValue();
      if value.Fail? {
        return Fail(value.error);
      }
      var delimited := ReadDelimiter();
      r := Ok((value.value, delimited), cursor);
    }

    /** `readBottom()`. */
    method ReadBottom(v: HValue) returns (r: Result<HValue>)
      requires Valid()
      modifies this
      ensures Valid() && r == Bottom(tokens, old(cursor), v)
    {
      ReadWhitespace();
      if cursor == |tokens| {
        r := Success(v);
      } else {
        r := Failure(TrailingInput);
      }
    }

    /** `readOpenRoot()`: members with no braces, then the end of the text. */
    method ReadOpenRoot() returns (r: Result<HValue>)
      requires Valid()
      modifies this
      ensures Valid()
      ensures r == match Spec.ReadMembers(tokens, reference, old(cursor), [], None)
        case Fail(e) => Failure(e)
        case Ok(ms, n) => Bottom(tokens, n, HObject(ms))
    {
      var ms := ReadMembers(None);
      if ms.Fail? {
        return Failure(ms.error);
      }
      r := ReadBottom(HObject(ms.value));
    }

    /** `readClosedRoot()`: one value, comments after it, then the end of the text. */
    method ReadClosedRoot() returns (r: Result<HValue>)
      requires Valid()
      modifies this
      ensures Valid()
      ensures r == match Spec.ReadValue(tokens, reference, old(cursor))
        case Fail(e) => Failure(e)
        case Ok(v, n) => Bottom(tokens, SkipComments(tokens, n), v)
    {
      var value := ReadValue();
      if value.Fail? {
        return Failure(value.error);
      }
      ReadLineWhitespace();
      r := ReadBottom(value.value);
    }

    /** `parse()`: the whole text, from the first token. */
    method Parse() returns (r: Result<HValue>)
      requires Valid() && cursor == 0
      modifies this
      ensures r == Spec.Parse(tokens, reference)
    {
      ReadWhitespace();
      if cursor == |tokens| {
        return Success(HObject([]));
      }
      var open := IsOpenRoot();
      if open {
        r := ReadOpenRoot();
      } else {
        r := ReadClosedRoot();
      }
    }
  }
}
