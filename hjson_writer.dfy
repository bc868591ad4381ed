/**
 * The compat Hjson writer's choices: how a key is quoted, how a string value is
 * written (quoted with ' or ", as a multi-line string, or bare) and when a
 * container counts as condensed. The emission of text itself is not modelled.
 */
module CompatHjsonWriter {
  import opened HjsonText

  /** The writer settings these rules read: formatting, condensing, omitting quotes, nesting level. */
  datatype WriterState = WriterState(format: bool, allowCondense: bool, omitQuotes: bool, level: nat)

  /** A string value to write: its text, the type it carries, and whether it has an end-of-line comment. */
  datatype StringValue = StringValue(s: string, declared: StringType, eolComment: bool)

  /**
   * A container, as the number of line breaks above each of its values (`getLinesAbove()`);
   * 0 puts a value on the same line as the value before it.
   */
  type Container = seq<int>

  predicate IsQuote(c: char)
  {
    c == '\'' || c == '"'
  }

  /** The index of the first quote character at or after `i`, if there is one. */
  function FirstQuote(key: string, i: nat): (r: Option<nat>)
    requires i <= |key|
    ensures r.Some? ==>
      i <= r.value < |key| && IsQuote(key[r.value]) && forall k :: i <= k < r.value ==> !IsQuote(key[k])
    ensures r.None? ==> forall k :: i <= k < |key| ==> !IsQuote(key[k])
    decreases |key| - i
  {
    if i == |key| then None
    else if IsQuote(key[i]) then Some(i)
    else FirstQuote(key, i + 1)
  }

  predicate HasWhitespace(s: string)
  {
    exists k :: 0 <= k < |s| && IsJavaWhitespace(s[k])
  }

  /**
   * How a key is quoted: an empty key in single quotes; otherwise the first quote
   * character decides (a ' asks for double quotes, a " for single quotes); a key
   * with no quote is bare unless it holds whitespace.
   */
  function KeyType(key: string): (t: StringType)
    ensures t == SINGLE || t == DOUBLE || t == IMPLICIT
    ensures t == IMPLICIT <==> |key| > 0 && forall k :: 0 <= k < |key| ==> !IsQuote(key[k]) && !IsJavaWhitespace(key[k])
    ensures t == DOUBLE <==> exists k :: 0 <= k < |key| && key[k] == '\'' && forall l :: 0 <= l < k ==> key[l] != '"'
  {
    if |key| == 0 then SINGLE
    else match FirstQuote(key, 0)
      case Some(q) => if key[q] == '\'' then DOUBLE else SINGLE
      case None => if HasWhitespace(key) then SINGLE else IMPLICIT
  }

  /** `getKeyType(key)`: one pass over the key, stopping at the first quote. */
  method GetKeyType(key: string) returns (t: StringType)
    ensures t == KeyType(key)
  {
    if |key| == 0 {
      return SINGLE;
    }
    var whitespaceFound := false;
    for i := 0 to |key|
      invariant FirstQuote(key, i) == FirstQuote(key, 0)
      invariant whitespaceFound <==> exists k :: 0 <= k < i && IsJavaWhitespace(key[k])
    {
      var c := key[i];
      if c == '\'' {
        return DOUBLE;
      } else if c == '"' {
        return SINGLE;
      }
      whitespaceFound := whitespaceFound || IsJavaWhitespace(c);
    }
    t := if whitespaceFound then SINGLE else IMPLICIT;
  }

  /** `isOpenRootCondensed(c)`: two values or more, and one after the first on the same line as the value before it. */
  predicate OpenRootCondensed(c: Container)
  {
    |c| >= 2 && exists i :: 1 <= i < |c| && c[i] == 0
  }

  /** Some value of the container is on the same line as the value before it. */
  predicate AnyOnSameLine(c: Container)
  {
    exists i :: 0 <= i < |c| && c[i] == 0
  }

  /**
   * `isCondensed(c)`: always when not formatting; never for no container or when
   * condensing is off; at the root by the open-root rule; below it when any value
   * is on the same line as the value before it.
   */
  predicate Condensed(w: WriterState, c: Option<Container>)
  {
    if !w.format then true
    else if c.None? || !w.allowCondense then false
    else if w.level < 1 then OpenRootCondensed(c.value)
    else AnyOnSameLine(c.value)
  }

  method IsOpenRootCondensed(c: Container) returns (b: bool)
    ensures b == OpenRootCondensed(c)
  {
    if |c| < 2 {
      return false;
    }
    for i := 1 to |c|
      invariant forall k :: 1 <= k < i ==> c[k] != 0
    {
      if c[i] == 0 {
        return true;
      }
    }
    b := false;
  }

  method IsCondensed(w: WriterState, c: Option<Container>) returns (b: bool)
    ensures b == Condensed(w, c)
  {
    if !w.format {
      return true;
    } else if c.None? || !w.allowCondense {
      return false;
    } else if w.level < 1 {
      b := IsOpenRootCondensed(c.value);
      return;
    }
    for i := 0 to |c.value|
      invariant forall k :: 0 <= k < i ==> c.value[k] != 0
    {
      if c.value[i] == 0 {
        return true;
      }
    }
    b := false;
  }

  /** The first value of an open root never decides whether it is condensed. */
  lemma {:induction false} OpenRootIgnoresFirst(c: Container, x: int)
    requires |c| > 0
    ensures OpenRootCondensed(c) <==> OpenRootCondensed([x] + c[1..])
  {
    var d := [x] + c[1..];
    assert |d| == |c|;
    assert forall i :: 1 <= i < |c| ==> d[i] == c[i];
  }

  /** Below the root, one value on the same line as its predecessor condenses the whole container. */
  lemma NestedCondensed(w: WriterState, c: Container, i: nat)
    requires w.format && w.allowCondense && w.level >= 1 && i < |c| && c[i] == 0
    ensures Condensed(w, Some(c))
  {
  }

  /** `canBeImplicit(s)`: non-empty, a first character that opens nothing, and on one line. */
  predicate CanBeImplicit(s: string)
  {
    |s| > 0 && IsValidFirstChar(s[0]) && '\n' !in s
  }

  /** The quotes chosen for a string that must be quoted: double when it holds a ', else single. */
  function QuotesFor(s: string): (t: StringType)
    ensures t == SINGLE ==> '\'' !in s
    ensures t == DOUBLE || t == SINGLE
  {
    if '\'' in s then DOUBLE else SINGLE
  }

  /** `checkImplicitString(value, s)`: a bare string across lines is multi-line; before an end-of-line comment, quoted. */
  function CheckImplicitString(v: StringValue): StringType
  {
    if '\n' in v.s then MULTI
    else if v.eolComment then QuotesFor(v.s)
    else IMPLICIT
  }

  /** `selectStringType(s)`: for a string with no type, empty is quoted, across lines multi-line, else bare. */
  function SelectStringType(s: string): StringType
  {
    if |s| == 0 then SINGLE
    else if '\n' in s then MULTI
    else IMPLICIT
  }

  /** `getStringType(value)`: how the string value is written inside the container `parent`. */
  function StringTypeOf(w: WriterState, parent: Option<Container>, v: StringValue): (t: StringType)
    ensures t != NONE
    ensures v.declared == MULTI ==> t == MULTI
    ensures t == IMPLICIT ==> '\n' !in v.s
    ensures Condensed(w, parent) && (v.declared == IMPLICIT || v.declared == NONE) ==> t == QuotesFor(v.s)
    ensures (v.declared == SINGLE || v.declared == DOUBLE) ==>
      (t == IMPLICIT <==> w.omitQuotes && CanBeImplicit(v.s)) && (t != IMPLICIT ==> t == v.declared)
  {
    var t := v.declared;
    if Condensed(w, parent) && (t == IMPLICIT || t == NONE) then QuotesFor(v.s)
    else if t == MULTI then t
    else if t == SINGLE || t == DOUBLE then (if w.omitQuotes && CanBeImplicit(v.s) then IMPLICIT else t)
    else if t == IMPLICIT then CheckImplicitString(v)
    else SelectStringType(v.s)
  }

  /** A bare string outside a condensed container stays bare unless it spans lines or an end-of-line comment follows. */
  lemma ImplicitRule(w: WriterState, parent: Option<Container>, v: StringValue)
    requires !Condensed(w, parent) && v.declared == IMPLICIT
    ensures var t := StringTypeOf(w, parent, v);
      && ('\n' in v.s ==> t == MULTI)
      && ('\n' !in v.s && v.eolComment ==> t == QuotesFor(v.s))
      && ('\n' !in v.s && !v.eolComment ==> t == IMPLICIT)
  {
  }

  /**
   * A string with no type outside a condensed container is quoted when empty,
   * multi-line across lines, and bare otherwise, whatever its first character is.
   */
  lemma UntypedRule(w: WriterState, parent: Option<Container>, v: StringValue)
    requires !Condensed(w, parent) && v.declared == NONE
    ensures var t := StringTypeOf(w, parent, v);
      && (|v.s| == 0 <==> t == SINGLE)
      && (t == MULTI <==> '\n' in v.s)
      && (|v.s| > 0 && '\n' !in v.s ==> t == IMPLICIT)
  {
  }

  /** Unlike a quoted string, a string with no type that starts with '{' is written bare. */
  lemma UntypedBrace(w: WriterState)
    requires w.format && w.allowCondense && w.level >= 1
    ensures var parent := Some([1]);
      && StringTypeOf(w, parent, StringValue("{a", NONE, false)) == IMPLICIT
      && !CanBeImplicit("{a")
      && StringTypeOf(w.(omitQuotes := true), parent, StringValue("{a", SINGLE, false)) == SINGLE
  {
    assert !Condensed(w, Some([1]));
    assert !Condensed(w.(omitQuotes := true), Some([1]));
    assert '\n' !in "{a";
  }

  /** `[ '', '', '' ]`: empty bare strings in a condensed array are written in single quotes. */
  lemma CondensedEmptyStrings(w: WriterState)
    requires w.format && w.allowCondense && w.level >= 1
    ensures StringTypeOf(w, Some([1, 0, 0]), StringValue("", IMPLICIT, false)) == SINGLE
  {
    NestedCondensed(w, [1, 0, 0], 1);
  }
}
