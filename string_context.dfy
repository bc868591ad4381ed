/**
 * The compat Hjson lexer's context machine: a stack of container kinds indexed by
 * depth, telling the lexer whether the next bare word is a key, a value, or the
 * ambiguous first token of the text.
 */
module StringContexts {
  import opened HjsonText

  /** The whole state: the container kind at each depth (true = array), the two flags and the depth. */
  datatype ContextState = ContextState(containers: map<nat, bool>, expectingKey: bool, top: bool, level: nat)

  /** `BitSet.get`: a depth never set reads as false, that is, as an object. */
  predicate IsArrayAt(containers: map<nat, bool>, i: nat)
  {
    i in containers && containers[i]
  }

  /** A fresh context: at the top, not expecting a key, at depth 0. */
  const Initial: ContextState := ContextState(map[], false, true, 0)

  /** `push(isArray)`: one level deeper, recording the kind; keys are expected exactly in an object. */
  function Pushed(st: ContextState, isArray: bool): ContextState
  {
    st.(containers := st.containers[st.level + 1 := isArray], expectingKey := !isArray, level := st.level + 1)
  }

  /**
   * `pop()`: at depth 0 only a key becomes expected; otherwise one level up, expecting
   * a key exactly when the parent is not an array.
   */
  function Popped(st: ContextState): ContextState
  {
    if st.level == 0 then st.(expectingKey := true)
    else st.(expectingKey := !IsArrayAt(st.containers, st.level - 1), level := st.level - 1)
  }

  /** `prepare(c)`: the effect of the first character of the next token. */
  function Prepared(st: ContextState, c: char): ContextState
  {
    if c == '{' then Pushed(st, false)
    else if c == '[' then Pushed(st, true)
    else if c == '}' || c == ']' then Popped(st)
    else if c == ':' then st.(expectingKey := false)
    else st
  }

  /**
   * `update(parsed)`: no token or a metadata token changes nothing; any other token
   * ends the top, and a non-symbol inside an object makes a key expected next.
   */
  function Updated(st: ContextState, parsed: Option<Token>): ContextState
  {
    if parsed.None? || IsMetadata(parsed.value) then st
    else
      var keyNext := !parsed.value.kind.Symbol? && !IsArrayAt(st.containers, st.level);
      st.(expectingKey := keyNext || st.expectingKey, top := false)
  }

  /** The first token is read in ambiguous mode: at the top, with no key expected, at depth 0. */
  lemma InitialIsAmbiguous()
    ensures Initial.top && !Initial.expectingKey && Initial.level == 0
    ensures forall i: nat :: !IsArrayAt(Initial.containers, i)
  {
  }

  /** What each character does to the context; characters other than `{ [ } ] :` do nothing. */
  lemma PrepareEffects(st: ContextState, c: char)
    ensures var r := Prepared(st, c);
      && r.top == st.top
      && (c == '{' ==> r.level == st.level + 1 && r.expectingKey && !IsArrayAt(r.containers, r.level))
      && (c == '[' ==> r.level == st.level + 1 && !r.expectingKey && IsArrayAt(r.containers, r.level))
      && ((c == '}' || c == ']') && st.level == 0 ==> r.level == 0 && r.expectingKey)
      && ((c == '}' || c == ']') && st.level > 0 ==>
            r.level == st.level - 1 && r.expectingKey == !IsArrayAt(st.containers, r.level))
      && (c == ':' ==> r == st.(expectingKey := false))
      && (c !in "{[}]:" ==> r == st)
  {
  }

  /** The depth moves by exactly one on a bracket, except a closer at depth 0, and never otherwise. */
  lemma LevelSteps(st: ContextState, c: char)
    ensures var r := Prepared(st, c);
      && (c == '{' || c == '[' <==> r.level == st.level + 1)
      && ((c == '}' || c == ']') && st.level > 0 <==> r.level + 1 == st.level)
      && (c !in "{[}]" || ((c == '}' || c == ']') && st.level == 0) ==> r.level == st.level)
  {
  }

  /**
   * Popping undoes a push: the depth, the recorded kinds up to it and the key
   * expectation of the enclosing container come back.
   */
  lemma PopUndoesPush(st: ContextState, isArray: bool)
    ensures var r := Popped(Pushed(st, isArray));
      && r.level == st.level
      && r.expectingKey == !IsArrayAt(st.containers, st.level)
      && r.top == st.top
      && forall i: nat :: i <= st.level ==> IsArrayAt(r.containers, i) == IsArrayAt(st.containers, i)
  {
  }

  /** `update` never touches the depth or the recorded kinds, and clears `top` exactly on a non-metadata token. */
  lemma UpdateEffects(st: ContextState, parsed: Option<Token>)
    ensures var r := Updated(st, parsed);
      && r.level == st.level && r.containers == st.containers
      && (parsed.None? || IsMetadata(parsed.value) ==> r == st)
      && (parsed.Some? && !IsMetadata(parsed.value) ==> !r.top)
      && ((parsed.Some? && !IsMetadata(parsed.value) && !parsed.value.kind.Symbol?
           && !IsArrayAt(st.containers, st.level)) ==> r.expectingKey)
      && (r.expectingKey != st.expectingKey ==> r.expectingKey)
  {
  }

  /** The change of depth each character calls for, ignoring the floor at 0. */
  function Delta(c: char): int
  {
    if c == '{' || c == '[' then 1 else if c == '}' || c == ']' then -1 else 0
  }

  /** The net nesting of a text: openers minus closers. */
  function Net(s: string): int
  {
    if s == [] then 0 else Net(s[..|s| - 1]) + Delta(s[|s| - 1])
  }

  /** The context after preparing every character of `s` in turn. */
  function PrepareAll(st: ContextState, s: string): ContextState
  {
    if s == [] then st else Prepared(PrepareAll(st, s[..|s| - 1]), s[|s| - 1])
  }

  /** No prefix of `s` closes more containers than `level` plus those it opened. */
  predicate NeverUnderflows(level: nat, s: string)
  {
    forall k :: 0 <= k <= |s| ==> level + Net(s[..k]) >= 0
  }

  /** Unless a closer comes at depth 0, the depth is the starting depth plus the net nesting of the text read. */
  lemma {:induction false} LevelTracksNesting(st: ContextState, s: string)
    requires NeverUnderflows(st.level, s)
    ensures PrepareAll(st, s).level == st.level + Net(s)
    decreases |s|
  {
    if s != [] {
      var init := s[..|s| - 1];
      assert NeverUnderflows(st.level, init) by {
        forall k | 0 <= k <= |init| ensures st.level + Net(init[..k]) >= 0 {
          assert init[..k] == s[..k];
        }
      }
      LevelTracksNesting(st, init);
      assert s[..|s|] == s;
      LevelSteps(PrepareAll(st, init), s[|s| - 1]);
    }
  }

  /** `StringContext`: the mutable context the compat lexer consults and updates around every token. */
  class StringContext {
    var containers: map<nat, bool>
    var expectingKey: bool
    var top: bool
    var level: nat

    function State(): ContextState
      reads this
    {
      ContextState(containers, expectingKey, top, level)
    }

    constructor ()
      ensures State() == Initial
    {
      containers := map[];
      expectingKey := false;
      top := true;
      level := 0;
    }

    method Prepare(c: char)
      modifies this
      ensures State() == Prepared(old(State()), c)
    {
      if c == '{' {
        Push(false);
      } else if c == '[' {
        Push(true);
      } else if c == '}' || c == ']' {
        Pop();
      } else if c == ':' {
        expectingKey := false;
      }
    }

    method Update(parsed: Option<Token>)
      modifies this
      ensures State() == Updated(old(State()), parsed)
    {
      if parsed.None? {
        return;
      }
      if !IsMetadata(parsed.value) {
        if !parsed.value.kind.Symbol? && !IsArrayAt(containers, level) {
          expectingKey := true;
        }
        top := false;
      }
    }

    method Push(isArray: bool)
      modifies this
      ensures State() == Pushed(old(State()), isArray)
    {
      level := level + 1;
      containers := containers[level := isArray];
      expectingKey := !isArray;
    }

    method Pop()
      modifies this
      ensures State() == Popped(old(State()))
    {
      if level == 0 {
        expectingKey := true;
        return;
      }
      level := level - 1;
      var isArray := IsArrayAt(containers, level);
      expectingKey := !isArray;
    }

    method IsExpectingKey() returns (b: bool)
      ensures b == State().expectingKey
    {
      b := expectingKey;
    }

    /** The first significant token is ambiguous between an open and a closed root. */
    method IsAmbiguous() returns (b: bool)
      ensures b == State().top
    {
      b := top;
    }
  }
}
