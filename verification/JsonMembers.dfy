/** Walking objects and arrays: the loops that src/protocol/rpc.c and src/lighting/model.c share. */
module JsonMembers {
  import opened Bytes
  import opened JsonSyntax
  import opened JsonString
  import opened JsonObject
  import opened JsonMoves
  import opened Tokenizer

  /** A value that starts and ends like one of the JSON kinds. */
  predicate IsScalarOrContainer(v: Text) {
    v != [] && (IsLeaf(v) || v[0] == LBRACE || v[0] == LBRACKET)
  }

  predicate IsMemberOf(f: Field) {
    IsToken(f.key) && IsScalarOrContainer(f.value)
  }

  predicate AllMembers(fs: seq<Field>) {
    forall i :: 0 <= i < |fs| ==> IsMemberOf(fs[i])
  }

  lemma FieldIsMember(s: Text, p: nat, room: nat)
    requires Utf8(s, 0).COMPLETE? && p <= |s| && Member(s, p, room).Complete?
    ensures IsMemberOf(FieldAt(s, p, room))
  {
    hide String, Member, Value, SkipSpace, IsToken, IsLeaf, Utf8;
    MemberShape(s, p, room);
    KeyIsToken(s, p);
    var c := SkipSpace(s, String(s, p).end);
    var v := SkipSpace(s, c + 1);
    ValueStarts(s, c + 1, room);
    if s[v] != LBRACE && s[v] != LBRACKET {
      ScalarIsLeaf(s, v, room);
    } else {
      assert s[v..Member(s, p, room).end][0] == s[v];
    }
  }

  lemma {:induction false} FieldsAreMembers(s: Text, p: nat, room: nat)
    requires Utf8(s, 0).COMPLETE? && p <= |s| && Members(s, p, room).Complete?
    ensures forall i :: 0 <= i < |FieldsOf(s, p, room)| ==> IsMemberOf(FieldsOf(s, p, room)[i])
    decreases |s| - p
  {
    hide Utf8, Members, Member, FieldAt, NextKey, IsMemberOf;
    MembersShape(s, p, room);
    FieldIsMember(s, p, room);
    var n := NextKey(s, p, room);
    if n.Some? {
      FieldsAreMembers(s, n.value, room);
    }
  }

  method SkipSpaces(json: Text, start: nat) returns (pos: nat)
    requires start <= |json|
    ensures pos == SkipSpace(json, start)
  {
    pos := start;
    while pos < |json| && IsSpace(json[pos])
      invariant start <= pos <= |json|
      invariant SkipSpace(json, pos) == SkipSpace(json, start)
    {
      pos := pos + 1;
    }
  }

  /** One round of the loop: the member at `pos`, and where the next round starts. */
  method ScanMember(json: Text, start: nat, stopAtBracket: bool, ghost room: nat) returns (field: Field, pos: nat)
    requires room <= 31 && Utf8(json, 0).COMPLETE? && start < |json| && json[start] == QUOTE && Members(json, start, room).Complete?
    ensures Member(json, start, room).Complete? && field == FieldAt(json, start, room) && IsMemberOf(field)
    ensures pos == SkipSpace(json, Member(json, start, room).end)
  {
    hide Utf8, Members, Member, Value, IsMemberOf, String, SkipSpace, IsToken, MembersTail;
    MembersShape(json, start, room);
    MemberShape(json, start, room);
    FieldIsMember(json, start, room);
    KeyTokenScans(json, start);
    pos := SkipToken(json, start);
    var key := json[start..pos];
    pos := SkipSpaces(json, pos);
    pos := pos + 1;
    ValueStarts(json, pos, room);
    pos := SkipSpaces(json, pos);
    var valueStart := pos;
    MemberIsDelimited(json, start, stopAtBracket, room);
    pos := SkipJsonValue(json, pos, stopAtBracket, room);
    field := Field(key, json[valueStart..pos]);
    pos := SkipSpaces(json, pos);
  }

  lemma KeyTokenScans(s: Text, p: nat)
    requires p <= |s| && String(s, p).Complete?
    ensures TokenBody(s, p + 1) == Some(String(s, p).end)
  {
    TokenAgrees(s, p + 1);
  }

  lemma MemberIsDelimited(s: Text, p: nat, stopAtBracket: bool, room: nat)
    requires p <= |s| && Members(s, p, room).Complete?
    ensures Member(s, p, room).Complete? && Delimited(s, Member(s, p, room).end, stopAtBracket)
  {
    hide Members, Member;
    MembersShape(s, p, room);
  }

  /** Where a loop over members stands: `rest` is still to come. */
  ghost predicate StandsAt(json: Text, pos: nat, rest: seq<Field>, room: nat) {
    pos < |json|
    && if rest == [] then json[pos] == RBRACE
       else json[pos] == QUOTE && Members(json, pos, room).Complete? && rest == FieldsOf(json, pos, room)
  }

  lemma KeyIsQuoted(s: Text, p: nat, room: nat)
    requires p <= |s| && Members(s, p, room).Complete?
    ensures p < |s| && s[p] == QUOTE
  {
    hide StringBody;
    MembersStep(s, p, room);
    MemberStep(s, p, room);
  }

  lemma Advance(json: Text, start: nat, rest: seq<Field>, room: nat)
    requires StandsAt(json, start, rest, room) && rest != []
    ensures Members(json, start, room).Complete? && Member(json, start, room).Complete?
    ensures rest[0] == FieldAt(json, start, room)
    ensures var t := SkipSpace(json, Member(json, start, room).end);
      t < |json| && (json[t] == COMMA || json[t] == RBRACE)
      && StandsAt(json, if json[t] == COMMA then SkipSpace(json, t + 1) else t, rest[1..], room)
  {
    hide Members, Member, FieldAt, SkipSpace;
    MembersShape(json, start, room);
    var n := NextKey(json, start, room);
    assert FieldsOf(json, start, room) == [FieldAt(json, start, room)] + (if n.None? then [] else FieldsOf(json, n.value, room));
    if n.Some? {
      KeyIsQuoted(json, n.value, room);
      assert rest[1..] == FieldsOf(json, n.value, room);
    } else {
      assert rest[1..] == [];
    }
  }

  // ---------------------------------------------------------------- objects on their own

  predicate IsObjectOf(t: Text, room: nat) {
    IsWhole(t, room) && t[0] == LBRACE
  }

  lemma ObjectOpens(t: Text, room: nat)
    requires IsObjectOf(t, room)
    ensures room > 0 && SkipSpace(t, 1) < |t|
    ensures t[SkipSpace(t, 1)] != RBRACE ==> Members(t, SkipSpace(t, 1), room - 1) == Complete(|t|)
  {
    hide Members, Utf8;
    assert SkipSpace(t, 0) == 0;
    assert Value(t, 0, room) == if room == 0 then Invalid else Object(t, 0, room - 1);
  }

  /** The members of an object that fills its text. */
  function ObjectFields(t: Text, room: nat): seq<Field>
    requires IsObjectOf(t, room)
  {
    hide Members, IsObjectOf;
    ObjectOpens(t, room);
    var q := SkipSpace(t, 1);
    if t[q] == RBRACE then [] else FieldsOf(t, q, room - 1)
  }

  /** The values of the members are values on their own. */
  predicate AreWholeFields(fs: seq<Field>, room: nat) {
    forall i :: 0 <= i < |fs| ==> IsMemberOf(fs[i]) && IsWhole(fs[i].value, room)
  }

  lemma FieldIsWhole(s: Text, p: nat, room: nat)
    requires Utf8(s, 0).COMPLETE? && p <= |s| && Member(s, p, room).Complete?
    ensures IsWhole(FieldAt(s, p, room).value, room)
  {
    hide String, Member, Value, SkipSpace, Utf8, IsWhole;
    MemberShape(s, p, room);
    var c := SkipSpace(s, String(s, p).end);
    var v := SkipSpace(s, c + 1);
    ValueStarts(s, c + 1, room);
    ValueStandsAlone(s, v, room);
  }

  lemma {:induction false} FieldsAreWhole(s: Text, p: nat, room: nat)
    requires Utf8(s, 0).COMPLETE? && p <= |s| && Members(s, p, room).Complete?
    ensures AreWholeFields(FieldsOf(s, p, room), room)
    decreases |s| - p
  {
    hide Utf8, Members, Member, FieldAt, NextKey, IsMemberOf, IsWhole;
    MembersShape(s, p, room);
    FieldIsMember(s, p, room);
    FieldIsWhole(s, p, room);
    var n := NextKey(s, p, room);
    if n.Some? {
      FieldsAreWhole(s, n.value, room);
    }
  }

  lemma ObjectFieldsAreWhole(t: Text, room: nat)
    requires IsObjectOf(t, room)
    ensures room > 0 && AreWholeFields(ObjectFields(t, room), room - 1)
    ensures StandsAt(t, SkipSpace(t, 1), ObjectFields(t, room), room - 1)
  {
    hide Utf8, Members, FieldsOf, AreWholeFields, SkipSpace;
    ObjectOpens(t, room);
    var q := SkipSpace(t, 1);
    if t[q] != RBRACE {
      FieldsAreWhole(t, q, room - 1);
      KeyIsQuoted(t, q, room - 1);
    } else {
      NoFields(room - 1);
    }
  }

  lemma NoFields(room: nat)
    ensures AreWholeFields([], room)
  {
  }

  // ---------------------------------------------------------------- arrays

  predicate IsArrayOf(t: Text, room: nat) {
    IsWhole(t, room) && t[0] == LBRACKET
  }

  lemma ArrayOpens(t: Text, room: nat)
    requires IsArrayOf(t, room)
    ensures room > 0 && SkipSpace(t, 1) < |t|
    ensures t[SkipSpace(t, 1)] != RBRACKET ==> Elements(t, SkipSpace(t, 1), room - 1) == Complete(|t|)
  {
    hide Elements, Utf8;
    assert SkipSpace(t, 0) == 0;
    assert Value(t, 0, room) == if room == 0 then Invalid else Array(t, 0, room - 1);
  }

  /** What follows an element of an array. */
  lemma ElementsShape(s: Text, p: nat, room: nat)
    requires p <= |s| && Elements(s, p, room).Complete?
    ensures Value(s, p, room).Complete?
    ensures var t := SkipSpace(s, Value(s, p, room).end);
      t < |s|
      && (s[t] == RBRACKET ||
          (s[t] == COMMA && SkipSpace(s, t + 1) < |s|
           && Elements(s, SkipSpace(s, t + 1), room) == Elements(s, p, room)))
  {
    hide SkipSpace, Elements, ElementsTail, Value;
    ElementsStep(s, p, room);
    ElementsTailStep(s, Value(s, p, room).end, room);
  }

  /** The start of the next element, if there is one. */
  function NextElement(s: Text, p: nat, room: nat): (n: Option<nat>)
    requires p <= |s| && Elements(s, p, room).Complete?
    ensures n.Some? ==> p < n.value < |s|
  {
    hide Elements, Value, SkipSpace;
    ElementsShape(s, p, room);
    var t := SkipSpace(s, Value(s, p, room).end);
    if s[t] == RBRACKET then None else Some(SkipSpace(s, t + 1))
  }

  /** From there on the array goes on to its end. */
  lemma NextElementGoesOn(s: Text, p: nat, room: nat)
    requires p <= |s| && Elements(s, p, room).Complete?
    ensures var n := NextElement(s, p, room); n.Some? ==> Elements(s, n.value, room) == Elements(s, p, room)
  {
    hide Elements, Value, SkipSpace;
    ElementsShape(s, p, room);
  }

  function ElementAt(s: Text, p: nat, room: nat): Text
    requires p <= |s| && Value(s, p, room).Complete?
  {
    hide Value;
    ValueStarts(s, p, room);
    s[SkipSpace(s, p)..Value(s, p, room).end]
  }

  /** The elements of an array from the start of one on. */
  function ElementsOf(s: Text, p: nat, room: nat): (f: seq<Text>)
    requires p <= |s| && Elements(s, p, room).Complete?
    ensures f != []
    decreases |s| - p
  {
    hide Elements, Value, NextElement, ElementAt;
    ElementsShape(s, p, room);
    NextElementGoesOn(s, p, room);
    var n := NextElement(s, p, room);
    [ElementAt(s, p, room)] + if n.None? then [] else ElementsOf(s, n.value, room)
  }

  function ArrayElements(t: Text, room: nat): seq<Text>
    requires IsArrayOf(t, room)
  {
    hide Elements, IsArrayOf;
    ArrayOpens(t, room);
    var q := SkipSpace(t, 1);
    if t[q] == RBRACKET then [] else ElementsOf(t, q, room - 1)
  }

  predicate AreWhole(vs: seq<Text>, room: nat) {
    forall i :: 0 <= i < |vs| ==> IsWhole(vs[i], room)
  }

  /** Where a loop over elements stands: `rest` is still to come. */
  ghost predicate StandsAtElement(json: Text, pos: nat, rest: seq<Text>, room: nat) {
    pos < |json| && !IsSpace(json[pos])
    && if rest == [] then json[pos] == RBRACKET
       else json[pos] != RBRACKET && Elements(json, pos, room).Complete? && rest == ElementsOf(json, pos, room)
  }

  lemma {:induction false} ElementsAreWhole(s: Text, p: nat, room: nat)
    requires Utf8(s, 0).COMPLETE? && p <= |s| && Elements(s, p, room).Complete?
    ensures AreWhole(ElementsOf(s, p, room), room)
    decreases |s| - p
  {
    hide Utf8, Elements, Value, IsWhole, SkipSpace;
    ElementsShape(s, p, room);
    ValueStarts(s, p, room);
    ValueStandsAlone(s, SkipSpace(s, p), room);
    NextElementGoesOn(s, p, room);
    var n := NextElement(s, p, room);
    if n.Some? {
      ElementsAreWhole(s, n.value, room);
    }
  }

  lemma NoElementAtClose(s: Text, p: nat, room: nat)
    requires p < |s| && Value(s, p, room).Complete? && !IsSpace(s[p])
    ensures s[p] != RBRACKET
  {
    assert SkipSpace(s, p) == p;
  }

  lemma ArrayElementsAreWhole(t: Text, room: nat)
    requires IsArrayOf(t, room)
    ensures room > 0 && AreWhole(ArrayElements(t, room), room - 1)
    ensures StandsAtElement(t, SkipSpace(t, 1), ArrayElements(t, room), room - 1)
  {
    hide Utf8, Elements, ElementsOf, SkipSpace, Value;
    ArrayOpens(t, room);
    var q := SkipSpace(t, 1);
    if t[q] != RBRACKET {
      ElementsAreWhole(t, q, room - 1);
    }
  }

  /** Behind an element the array ends, or the elements that are left start. */
  lemma ElementTaken(s: Text, p: nat, rest: seq<Text>, room: nat)
    requires StandsAtElement(s, p, rest, room) && rest != []
    ensures p < |s| && !IsSpace(s[p])
    ensures Value(s, p, room).Complete? && rest[0] == s[p..Value(s, p, room).end] && Delimited(s, Value(s, p, room).end, true)
    ensures var t := SkipSpace(s, Value(s, p, room).end);
      t < |s| && if s[t] == COMMA then StandsAtElement(s, SkipSpace(s, t + 1), rest[1..], room) else StandsAtElement(s, t, rest[1..], room)
  {
    hide Value, Elements, ElementsOf;
    ElementsShape(s, p, room);
    NextElementGoesOn(s, p, room);
    ElementsUnfold(s, p, room);
    var n := NextElement(s, p, room);
    if n.Some? {
      ElementsShape(s, n.value, room);
      NoElementAtClose(s, n.value, room);
    }
  }

  lemma ElementsUnfold(s: Text, p: nat, room: nat)
    requires p <= |s| && Elements(s, p, room).Complete?
    ensures var n := NextElement(s, p, room);
      Value(s, p, room).Complete?
      && (n.Some? ==> Elements(s, n.value, room).Complete?)
      && ElementsOf(s, p, room)[0] == ElementAt(s, p, room)
      && ElementsOf(s, p, room)[1..] == if n.None? then [] else ElementsOf(s, n.value, room)
  {
    hide Value, Elements, NextElement, ElementAt, SkipSpace;
    ElementsShape(s, p, room);
    NextElementGoesOn(s, p, room);
  }

  /** The element at `pos` and where the next one starts, or the array ends. */
  method ScanElement(json: Text, start: nat, ghost rest: seq<Text>, ghost room: nat) returns (element: Text, pos: nat)
    requires room <= 31 && StandsAtElement(json, start, rest, room) && rest != []
    ensures element == rest[0] && StandsAtElement(json, pos, rest[1..], room)
  {
    hide Value, Elements, SkipSpace, StandsAtElement;
    ElementTaken(json, start, rest, room);
    pos := SkipJsonValue(json, start, true, room);
    element := json[start..pos];
    pos := SkipSpaces(json, pos);
    if json[pos] == COMMA {
      pos := pos + 1;
      pos := SkipSpaces(json, pos);
    }
  }

  /** The member at `pos` and where the next one starts, or the object ends. */
  method TakeField(json: Text, start: nat, ghost rest: seq<Field>, ghost room: nat) returns (field: Field, pos: nat)
    requires room <= 31 && Utf8(json, 0).COMPLETE? && StandsAt(json, start, rest, room) && rest != []
    ensures field == rest[0] && StandsAt(json, pos, rest[1..], room)
  {
    hide Utf8, Members, Member, FieldAt, IsMemberOf, SkipSpace, FieldsOf;
    Advance(json, start, rest, room);
    field, pos := ScanMember(json, start, true, room);
    if json[pos] == COMMA {
      pos := pos + 1;
      pos := SkipSpaces(json, pos);
    }
  }
}
