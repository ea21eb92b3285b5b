/**
 * The tokenizers that src/protocol/rpc.c and src/lighting/model.c run over texts that were validated
 * before: they look at no length, and keep open brackets in an array of 32 octets.
 */
module Tokenizer {
  import opened Bytes
  import opened JsonSyntax
  import opened JsonPrefix

  const STACK_SIZE: nat := 32

  // ---------------------------------------------------------------- what the loops do, None if they leave their arrays

  function TokenBody(s: Text, p: nat): (r: Option<nat>)
    ensures r.Some? ==> p < r.value <= |s|
    decreases if p < |s| then |s| - p else 0
  {
    if p >= |s| then None
    else if s[p] == QUOTE then Some(p + 1)
    else if s[p] != BACKSLASH then TokenBody(s, p + 1)
    else if p + 1 >= |s| then None
    else TokenBody(s, if s[p + 1] == LOWER_U then p + 6 else p + 2)
  }

  /** The loop test, then the loop body. */
  function Loop(s: Text, p: nat, stack: seq<byte>): Option<nat>
    decreases if p < |s| then |s| - p else 0, 1
  {
    if stack == [] then Some(p) else Walk(s, p, stack)
  }

  /** The body of the loop over the octets of an array or object. */
  function Walk(s: Text, p: nat, stack: seq<byte>): Option<nat>
    decreases if p < |s| then |s| - p else 0, 0
  {
    if p >= |s| then None
    else if s[p] == QUOTE then
      var end := TokenBody(s, p + 1);
      if end.None? then None else Loop(s, end.value, stack)
    else if s[p] == LBRACE || s[p] == LBRACKET then
      if |stack| >= STACK_SIZE then None
      else Loop(s, p + 1, stack + [if s[p] == LBRACE then RBRACE else RBRACKET])
    else if stack == [] then None
    else if s[p] == stack[|stack| - 1] then Loop(s, p + 1, stack[..|stack| - 1])
    else Loop(s, p + 1, stack)
  }

  predicate EndsScalar(b: byte, stopAtBracket: bool) {
    b == COMMA || b == RBRACE || IsSpace(b) || (stopAtBracket && b == RBRACKET)
  }

  function ScalarEnd(s: Text, p: nat, stopAtBracket: bool): (q: nat)
    requires p <= |s|
    ensures p <= q <= |s|
    decreases |s| - p
  {
    if p < |s| && !EndsScalar(s[p], stopAtBracket) then ScalarEnd(s, p + 1, stopAtBracket) else p
  }

  /** `skip_value`; only the one of the lighting code stops numbers and literals at a closing bracket. */
  function SkipValue(s: Text, p: nat, stopAtBracket: bool): Option<nat> {
    if p >= |s| then None
    else if s[p] == QUOTE then TokenBody(s, p + 1)
    else if s[p] == LBRACE || s[p] == LBRACKET then Walk(s, p, [])
    else Some(ScalarEnd(s, p, stopAtBracket))
  }

  // ---------------------------------------------------------------- agreement with the parser

  lemma {:induction false} TokenAgrees(s: Text, p: nat)
    requires p <= |s| && StringBody(s, p).Complete?
    ensures TokenBody(s, p) == Some(StringBody(s, p).end)
    decreases |s| - p
  {
    if s[p] != QUOTE {
      if s[p] != BACKSLASH {
        TokenAgrees(s, p + 1);
      } else {
        var q := Escape(s, p).end;
        TokenAgrees(s, q);
        EscapeAgrees(s, p);
      }
    }
  }

  lemma EscapeAgrees(s: Text, p: nat)
    requires p < |s| && s[p] == BACKSLASH && Escape(s, p).Complete?
    ensures TokenBody(s, p) == TokenBody(s, Escape(s, p).end)
  {
    hide Hex4Value;
    var q := Escape(s, p).end;
    if s[p + 1] == LOWER_U && q == p + 12 {
      assert TokenBody(s, p) == TokenBody(s, p + 6);
      assert s[p + 6] == BACKSLASH && s[p + 7] == LOWER_U;
    }
  }

  /** The stack holds closing brackets. */
  predicate Closers(stack: seq<byte>) {
    forall i :: 0 <= i < |stack| ==> stack[i] == RBRACE || stack[i] == RBRACKET
  }

  predicate IsPlain(b: byte) {
    b != QUOTE && b != LBRACE && b != LBRACKET && b != RBRACE && b != RBRACKET
  }

  lemma {:induction false} WalkPlain(s: Text, p: nat, e: nat, stack: seq<byte>)
    requires p <= e <= |s| && stack != [] && Closers(stack) && forall i :: p <= i < e ==> IsPlain(s[i])
    ensures Walk(s, p, stack) == Walk(s, e, stack)
    decreases e - p
  {
    if p < e {
      WalkPlain(s, p + 1, e, stack);
    }
  }

  lemma WalkSpace(s: Text, p: nat, stack: seq<byte>)
    requires p <= |s| && stack != [] && Closers(stack)
    ensures Walk(s, p, stack) == Walk(s, SkipSpace(s, p), stack)
  {
    WalkPlain(s, p, SkipSpace(s, p), stack);
  }

  /** Numbers and literals hold no octet that means anything to the tokenizer. */
  lemma ScalarIsPlain(s: Text, p: nat, room: nat)
    requires p < |s| && !IsSpace(s[p]) && Value(s, p, room).Complete?
    requires s[p] != LBRACE && s[p] != LBRACKET && s[p] != QUOTE
    ensures forall i :: p <= i < Value(s, p, room).end ==> IsPlain(s[i]) && !EndsScalar(s[i], true)
  {
    var e := Value(s, p, room).end;
    assert SkipSpace(s, p) == p;
    if s[p] == LOWER_T || s[p] == LOWER_F || s[p] == LOWER_N {
      var word := if s[p] == LOWER_T then TRUE else if s[p] == LOWER_F then FALSE else NULL;
      assert s[p..e] == word;
      forall i | p <= i < e ensures IsPlain(s[i]) && !EndsScalar(s[i], true) {
        assert s[i] == s[p..e][i - p];
      }
    } else {
      NumberOctets(s, p);
    }
  }

  lemma {:induction false} WalkValue(s: Text, p: nat, room: nat, stack: seq<byte>, e: nat)
    requires p <= |s| && Value(s, p, room) == Complete(e)
    requires stack != [] && Closers(stack) && |stack| + room <= STACK_SIZE
    ensures Walk(s, p, stack) == Walk(s, e, stack)
    decreases |s| - p, 2
  {
    hide Number, Literal;
    WalkSpace(s, p, stack);
    var q := SkipSpace(s, p);
    SkipSpaceTwice(s, p);
    if s[q] == LBRACE {
      WalkObject(s, q, room - 1, stack, e);
    } else if s[q] == LBRACKET {
      WalkArray(s, q, room - 1, stack, e);
    } else if s[q] == QUOTE {
      TokenAgrees(s, q + 1);
    } else {
      ScalarIsPlain(s, q, room);
      WalkPlain(s, q, e, stack);
    }
  }

  lemma {:induction false} WalkArray(s: Text, p: nat, room: nat, stack: seq<byte>, e: nat)
    requires p < |s| && s[p] == LBRACKET && Array(s, p, room) == Complete(e)
    requires Closers(stack) && |stack| + 1 + room <= STACK_SIZE
    ensures Walk(s, p, stack) == Loop(s, e, stack)
    decreases |s| - p, 1
  {
    var inner := stack + [RBRACKET];
    assert inner[..|inner| - 1] == stack;
    assert Walk(s, p, stack) == Walk(s, p + 1, inner);
    WalkSpace(s, p + 1, inner);
    var q := SkipSpace(s, p + 1);
    if s[q] != RBRACKET {
      WalkElements(s, q, room, inner, e);
    }
  }

  lemma {:induction false} WalkElements(s: Text, p: nat, room: nat, stack: seq<byte>, e: nat)
    requires p <= |s| && Elements(s, p, room) == Complete(e)
    requires stack != [] && Closers(stack) && |stack| + room <= STACK_SIZE && stack[|stack| - 1] == RBRACKET
    ensures Walk(s, p, stack) == Loop(s, e, stack[..|stack| - 1])
    decreases |s| - p, 3
  {
    hide Value, ElementsTail;
    var a := Value(s, p, room).end;
    WalkValue(s, p, room, stack, a);
    ElementsTailStep(s, a, room);
    WalkSpace(s, a, stack);
    var q := SkipSpace(s, a);
    if s[q] == COMMA {
      assert Walk(s, q, stack) == Walk(s, q + 1, stack);
      WalkSpace(s, q + 1, stack);
      WalkElements(s, SkipSpace(s, q + 1), room, stack, e);
    }
  }

  lemma {:induction false} WalkObject(s: Text, p: nat, room: nat, stack: seq<byte>, e: nat)
    requires p < |s| && s[p] == LBRACE && Object(s, p, room) == Complete(e)
    requires Closers(stack) && |stack| + 1 + room <= STACK_SIZE
    ensures Walk(s, p, stack) == Loop(s, e, stack)
    decreases |s| - p, 1
  {
    var inner := stack + [RBRACE];
    assert inner[..|inner| - 1] == stack;
    assert Walk(s, p, stack) == Walk(s, p + 1, inner);
    WalkSpace(s, p + 1, inner);
    var q := SkipSpace(s, p + 1);
    if s[q] != RBRACE {
      WalkMembers(s, q, room, inner, e);
    }
  }

  lemma {:induction false} WalkMember(s: Text, p: nat, room: nat, stack: seq<byte>, e: nat)
    requires p <= |s| && Member(s, p, room) == Complete(e)
    requires stack != [] && Closers(stack) && |stack| + room <= STACK_SIZE
    ensures Walk(s, p, stack) == Walk(s, e, stack)
    decreases |s| - p, 2
  {
    hide Value;
    TokenAgrees(s, p + 1);
    var k := String(s, p).end;
    assert Walk(s, p, stack) == Walk(s, k, stack);
    assert MemberTail(s, k, room) == Complete(e);
    WalkSpace(s, k, stack);
    var q := SkipSpace(s, k);
    assert Walk(s, q, stack) == Walk(s, q + 1, stack);
    WalkValue(s, q + 1, room, stack, e);
  }

  lemma {:induction false} WalkMembers(s: Text, p: nat, room: nat, stack: seq<byte>, e: nat)
    requires p <= |s| && Members(s, p, room) == Complete(e)
    requires stack != [] && Closers(stack) && |stack| + room <= STACK_SIZE && stack[|stack| - 1] == RBRACE
    ensures Walk(s, p, stack) == Loop(s, e, stack[..|stack| - 1])
    decreases |s| - p, 3
  {
    hide Member, MembersTail;
    var a := Member(s, p, room).end;
    WalkMember(s, p, room, stack, a);
    MembersTailStep(s, a, room);
    WalkSpace(s, a, stack);
    var q := SkipSpace(s, a);
    if s[q] == COMMA {
      assert Walk(s, q, stack) == Walk(s, q + 1, stack);
      WalkSpace(s, q + 1, stack);
      WalkMembers(s, SkipSpace(s, q + 1), room, stack, e);
    }
  }

  /** What follows a value where the callers meet it. */
  predicate Delimited(s: Text, e: nat, stopAtBracket: bool) {
    e == |s| || (e < |s| && EndsScalar(s[e], stopAtBracket))
  }

  lemma {:induction false} ScalarEndIs(s: Text, p: nat, e: nat, stopAtBracket: bool)
    requires p <= e <= |s| && Delimited(s, e, stopAtBracket)
    requires forall i :: p <= i < e ==> !EndsScalar(s[i], true)
    ensures ScalarEnd(s, p, stopAtBracket) == e
    decreases e - p
  {
    if p < e {
      ScalarEndIs(s, p + 1, e, stopAtBracket);
    }
  }

  /**
   * From the start of any value the tokenizer stops exactly where the parser stops. That the result
   * is not None says that it never reads behind the text and never opens more than 32 brackets.
   */
  lemma TokenizerRefinesParser(s: Text, p: nat, room: nat, stopAtBracket: bool)
    requires p < |s| && !IsSpace(s[p]) && Value(s, p, room).Complete? && room <= STACK_SIZE
    requires Delimited(s, Value(s, p, room).end, stopAtBracket)
    ensures SkipValue(s, p, stopAtBracket) == Some(Value(s, p, room).end)
  {
    hide Number, Literal;
    var e := Value(s, p, room).end;
    assert SkipSpace(s, p) == p;
    if s[p] == QUOTE {
      TokenAgrees(s, p + 1);
    } else if s[p] == LBRACE {
      WalkObject(s, p, room - 1, [], e);
    } else if s[p] == LBRACKET {
      WalkArray(s, p, room - 1, [], e);
    } else {
      ScalarIsPlain(s, p, room);
      ScalarEndIs(s, p, e, stopAtBracket);
    }
  }

  // ---------------------------------------------------------------- the loops

  /** `skip_string_token`. */
  method SkipToken(json: Text, start: nat) returns (pos: nat)
    requires TokenBody(json, start + 1).Some?
    ensures TokenBody(json, start + 1) == Some(pos)
  {
    pos := start + 1;
    while json[pos] != QUOTE
      invariant pos < |json| && TokenBody(json, pos) == TokenBody(json, start + 1)
      decreases |json| - pos
    {
      pos := pos + 1;
      if json[pos - 1] == BACKSLASH {
        pos := pos + 1;
        if json[pos - 1] == LOWER_U {
          pos := pos + 4;
        }
      }
    }
    pos := pos + 1;
  }

  method SkipJsonValue(json: Text, start: nat, stopAtBracket: bool, ghost room: nat) returns (pos: nat)
    requires start < |json| && !IsSpace(json[start]) && Value(json, start, room).Complete? && room <= STACK_SIZE
    requires Delimited(json, Value(json, start, room).end, stopAtBracket)
    ensures Value(json, start, room) == Complete(pos)
  {
    hide Value;
    TokenizerRefinesParser(json, start, room, stopAtBracket);
    ghost var goal := SkipValue(json, start, stopAtBracket);
    pos := start;
    if json[pos] == QUOTE {
      pos := SkipToken(json, pos);
      return;
    }
    if json[pos] == LBRACE || json[pos] == LBRACKET {
      var stack := new byte[STACK_SIZE];
      var depth := 0;
      var first := true;
      while first || depth > 0
        invariant depth <= STACK_SIZE
        invariant first ==> pos == start && depth == 0
        invariant (if first then Walk(json, pos, []) else Loop(json, pos, stack[..depth])) == goal
        invariant goal.Some?
        decreases |json| - pos, first
      {
        assert Walk(json, pos, stack[..depth]) == goal;
        first := false;
        if json[pos] == QUOTE {
          pos := SkipToken(json, pos);
          continue;
        }
        ghost var before := stack[..depth];
        if json[pos] == LBRACE || json[pos] == LBRACKET {
          stack[depth] := if json[pos] == LBRACE then RBRACE else RBRACKET;
          depth := depth + 1;
          assert stack[..depth] == before + [if json[pos] == LBRACE then RBRACE else RBRACKET];
        } else if depth > 0 && json[pos] == stack[depth - 1] {
          depth := depth - 1;
          assert stack[..depth] == before[..|before| - 1];
        }
        pos := pos + 1;
      }
      return;
    }
    while pos < |json| && !EndsScalar(json[pos], stopAtBracket)
      invariant start <= pos <= |json| && ScalarEnd(json, pos, stopAtBracket) == ScalarEnd(json, start, stopAtBracket)
    {
      pos := pos + 1;
    }
  }
}
