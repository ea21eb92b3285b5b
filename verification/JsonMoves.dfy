/** A value inside a text is a text of its own. */
module JsonMoves {
  import opened Bytes
  import opened JsonSyntax
  import opened JsonGrammar
  import opened JsonObject

  lemma PartIsCopied(s: Text, p: nat, e: nat, t: Text, q: nat, a: nat, b: nat)
    requires Copied(s, p, e, t, q) && p <= a <= b <= e
    ensures Copied(s, a, b, t, q + (a - p))
  {
    forall i | a <= i < b ensures s[i] == t[q + (a - p) + (i - a)] {
      assert s[i] == t[q + (i - p)];
    }
  }

  lemma CopiedFits(s: Text, p: nat, e: nat, t: Text, q: nat)
    requires Copied(s, p, e, t, q)
    ensures p <= e <= |s| && q + (e - p) <= |t|
  {
  }

  lemma OctetMoves(s: Text, p: nat, e: nat, t: Text, q: nat, i: nat)
    requires Copied(s, p, e, t, q) && p <= i < e
    ensures q + (i - p) < |t| && t[q + (i - p)] == s[i]
  {
  }

  lemma WsMoves(s: Text, p: nat, e: nat, t: Text, q: nat)
    requires Copied(s, p, e, t, q) && Ws(s, p, e)
    ensures Ws(t, q, q + (e - p))
  {
    var d: int := (q as int) - p;
    forall i | q <= i < q + (e - p) ensures IsSpace(t[i]) {
      assert s[i - d] == t[q + (i - d - p)];
    }
  }

  lemma GrammarStringMoves(s: Text, p: nat, e: nat, t: Text, q: nat)
    requires Copied(s, p, e, t, q) && IsString(s, p, e)
    ensures IsString(t, q, q + (e - p))
  {
    hide String, IsString;
    StringParses(s, p, e);
    StringMoves(s, p, e, t, q);
    StringSound(t, q, q + (e - p));
  }

  lemma WordMoves(s: Text, p: nat, e: nat, t: Text, q: nat)
    requires Copied(s, p, e, t, q)
    ensures t[q..q + (e - p)] == s[p..e]
  {
    forall i | 0 <= i < e - p ensures t[q..q + (e - p)][i] == s[p..e][i] {
      OctetMoves(s, p, e, t, q, p + i);
    }
  }

  lemma {:induction false} ValueMoves(s: Text, p: nat, e: nat, t: Text, q: nat, room: nat)
    requires Copied(s, p, e, t, q) && IsValue(s, p, e, room)
    ensures IsValue(t, q, q + (e - p), room)
    decreases e - p, 2
  {
    hide IsString, IsNumber, IsArray, IsObject;
    WordMoves(s, p, e, t, q);
    if IsString(s, p, e) {
      GrammarStringMoves(s, p, e, t, q);
    } else if IsNumber(s, p, e) {
      NumberMoves(s, p, e, t, q);
    } else if room > 0 && IsArray(s, p, e, room - 1) {
      ArrayMoves(s, p, e, t, q, room - 1);
    } else if room > 0 && IsObject(s, p, e, room - 1) {
      ObjectMoves(s, p, e, t, q, room - 1);
    }
  }

  lemma {:induction false} ArrayMoves(s: Text, p: nat, e: nat, t: Text, q: nat, room: nat)
    requires Copied(s, p, e, t, q) && IsArray(s, p, e, room)
    ensures IsArray(t, q, q + (e - p), room)
    decreases e - p, 1
  {
    hide AreElements, Ws, Copied;
    CopiedFits(s, p, e, t, q);
    PartIsCopied(s, p, e, t, q, p + 1, e - 1);
    OctetMoves(s, p, e, t, q, p);
    OctetMoves(s, p, e, t, q, e - 1);
    if Ws(s, p + 1, e - 1) {
      WsMoves(s, p + 1, e - 1, t, q + 1);
    } else {
      ElementsMove(s, p + 1, e - 1, t, q + 1, room);
    }
  }

  lemma {:induction false} ElementMoves(s: Text, p: nat, e: nat, t: Text, q: nat, room: nat)
    requires Copied(s, p, e, t, q) && IsElement(s, p, e, room)
    ensures IsElement(t, q, q + (e - p), room)
    decreases e - p, 3
  {
    hide IsValue, Ws, Copied;
    CopiedFits(s, p, e, t, q);
    var a: nat, b: nat :| p <= a <= b <= e && Ws(s, p, a) && IsValue(s, a, b, room) && Ws(s, b, e);
    var c, d := q + (a - p), q + (b - p);
    PartIsCopied(s, p, e, t, q, p, a);
    PartIsCopied(s, p, e, t, q, a, b);
    PartIsCopied(s, p, e, t, q, b, e);
    WsMoves(s, p, a, t, q);
    ValueMoves(s, a, b, t, c, room);
    WsMoves(s, b, e, t, d);
    assert Ws(t, q, c) && IsValue(t, c, d, room) && Ws(t, d, q + (e - p));
  }

  lemma {:induction false} ElementsMove(s: Text, p: nat, e: nat, t: Text, q: nat, room: nat)
    requires Copied(s, p, e, t, q) && AreElements(s, p, e, room)
    ensures AreElements(t, q, q + (e - p), room)
    decreases e - p, 4
  {
    hide IsElement, Copied;
    CopiedFits(s, p, e, t, q);
    if IsElement(s, p, e, room) {
      ElementMoves(s, p, e, t, q, room);
    } else {
      var c: nat :| p <= c < e && IsElement(s, p, c, room) && s[c] == COMMA && AreElements(s, c + 1, e, room);
      var d := q + (c - p);
      PartIsCopied(s, p, e, t, q, p, c);
      PartIsCopied(s, p, e, t, q, c + 1, e);
      OctetMoves(s, p, e, t, q, c);
      ElementMoves(s, p, c, t, q, room);
      ElementsMove(s, c + 1, e, t, d + 1, room);
      assert IsElement(t, q, d, room) && t[d] == COMMA && AreElements(t, d + 1, q + (e - p), room);
    }
  }

  lemma {:induction false} ObjectMoves(s: Text, p: nat, e: nat, t: Text, q: nat, room: nat)
    requires Copied(s, p, e, t, q) && IsObject(s, p, e, room)
    ensures IsObject(t, q, q + (e - p), room)
    decreases e - p, 1
  {
    hide AreMembers, Ws, Copied;
    CopiedFits(s, p, e, t, q);
    PartIsCopied(s, p, e, t, q, p + 1, e - 1);
    OctetMoves(s, p, e, t, q, p);
    OctetMoves(s, p, e, t, q, e - 1);
    if Ws(s, p + 1, e - 1) {
      WsMoves(s, p + 1, e - 1, t, q + 1);
    } else {
      MembersMove(s, p + 1, e - 1, t, q + 1, room);
    }
  }

  lemma KeyMoves(s: Text, p: nat, e: nat, t: Text, q: nat)
    requires Copied(s, p, e, t, q) && IsKey(s, p, e)
    ensures IsKey(t, q, q + (e - p))
  {
    hide IsString, Ws, Copied;
    CopiedFits(s, p, e, t, q);
    var a: nat, b: nat :| p <= a <= b <= e && Ws(s, p, a) && IsString(s, a, b) && Ws(s, b, e);
    var c, d := q + (a - p), q + (b - p);
    PartIsCopied(s, p, e, t, q, p, a);
    PartIsCopied(s, p, e, t, q, a, b);
    PartIsCopied(s, p, e, t, q, b, e);
    WsMoves(s, p, a, t, q);
    GrammarStringMoves(s, a, b, t, c);
    WsMoves(s, b, e, t, d);
    assert Ws(t, q, c) && IsString(t, c, d) && Ws(t, d, q + (e - p));
  }

  lemma {:induction false} MemberMoves(s: Text, p: nat, e: nat, t: Text, q: nat, room: nat)
    requires Copied(s, p, e, t, q) && IsMember(s, p, e, room)
    ensures IsMember(t, q, q + (e - p), room)
    decreases e - p, 4
  {
    hide IsElement, IsKey, Copied;
    CopiedFits(s, p, e, t, q);
    var c: nat :| p <= c < e && IsKey(s, p, c) && s[c] == COLON && IsElement(s, c + 1, e, room);
    var d := q + (c - p);
    PartIsCopied(s, p, e, t, q, p, c);
    PartIsCopied(s, p, e, t, q, c + 1, e);
    OctetMoves(s, p, e, t, q, c);
    KeyMoves(s, p, c, t, q);
    ElementMoves(s, c + 1, e, t, d + 1, room);
    assert IsKey(t, q, d) && t[d] == COLON && IsElement(t, d + 1, q + (e - p), room);
  }

  lemma {:induction false} MembersMove(s: Text, p: nat, e: nat, t: Text, q: nat, room: nat)
    requires Copied(s, p, e, t, q) && AreMembers(s, p, e, room)
    ensures AreMembers(t, q, q + (e - p), room)
    decreases e - p, 5
  {
    hide IsMember, Copied;
    CopiedFits(s, p, e, t, q);
    if IsMember(s, p, e, room) {
      MemberMoves(s, p, e, t, q, room);
    } else {
      var c: nat :| p <= c < e && IsMember(s, p, c, room) && s[c] == COMMA && AreMembers(s, c + 1, e, room);
      var d := q + (c - p);
      PartIsCopied(s, p, e, t, q, p, c);
      PartIsCopied(s, p, e, t, q, c + 1, e);
      OctetMoves(s, p, e, t, q, c);
      MemberMoves(s, p, c, t, q, room);
      MembersMove(s, c + 1, e, t, d + 1, room);
      assert IsMember(t, q, d, room) && t[d] == COMMA && AreMembers(t, d + 1, q + (e - p), room);
    }
  }

  // ---------------------------------------------------------------- values on their own

  /** A value from its first octet to its last. */
  predicate IsWhole(t: Text, room: nat) {
    t != [] && !IsSpace(t[0]) && Value(t, 0, room) == Complete(|t|) && Utf8(t, 0).COMPLETE?
  }

  lemma EndIsBoundary(s: Text, p: nat, room: nat)
    requires p < |s| && !IsSpace(s[p]) && Value(s, p, room).Complete? && Utf8(s, 0).COMPLETE?
    ensures var e := Value(s, p, room).end; e < |s| ==> !IsContinuation(s[e])
    ensures Utf8(s, p).COMPLETE?
  {
    hide Utf8, IsValue, Value;
    var e := Value(s, p, room).end;
    ValueSound(s, p, room, e);
    assert SkipSpace(s, p) == p;
    LastIsAscii(s, p, e, room);
    FirstIsAscii(s, p, room);
    Utf8AtBoundary(s, 0, p);
    Utf8AtBoundary(s, 0, e - 1);
    AfterAscii(s, e - 1);
  }

  lemma FirstIsAscii(s: Text, p: nat, room: nat)
    requires p < |s| && Value(s, p, room).Complete? && !IsSpace(s[p])
    ensures s[p] < 0x80
  {
    hide String, Array, Object, Literal;
    assert SkipSpace(s, p) == p;
  }

  lemma LastIsAscii(s: Text, p: nat, e: nat, room: nat)
    requires p < e <= |s| && IsValue(s, p, e, room)
    ensures s[e - 1] < 0x80
  {
    hide IsChars, AreElements, AreMembers, Ws;
    assert s[p..e][|s[p..e]| - 1] == s[e - 1];
    if IsNumber(s, p, e) {
      var a: nat, b: nat :| NumberParts(s, p, a, b, e);
      assert IsDigit(s[e - 1]);
    } else if s[p..e] == TRUE || s[p..e] == FALSE || s[p..e] == NULL {
      assert s[e - 1] == LOWER_E || s[e - 1] == 0x6C;
    }
  }

  lemma AfterAscii(s: Text, i: nat)
    requires i < |s| && s[i] < 0x80 && Utf8(s, i).COMPLETE?
    ensures i + 1 < |s| ==> !IsContinuation(s[i + 1])
  {
    if i + 1 < |s| {
      assert Utf8(s, i) == Utf8(s, i + 1);
      BoundaryIsNoContinuation(s, i + 1);
    }
  }

  /** What stands inside an acceptable text as a value is one on its own. */
  lemma ValueStandsAlone(s: Text, p: nat, room: nat)
    requires p < |s| && !IsSpace(s[p]) && Value(s, p, room).Complete? && Utf8(s, 0).COMPLETE?
    ensures IsWhole(s[p..Value(s, p, room).end], room)
  {
    hide Utf8, IsValue, Value;
    var e := Value(s, p, room).end;
    ValueSound(s, p, room, e);
    assert SkipSpace(s, p) == p;
    ValueMoves(s, p, e, s[p..e], 0, room);
    ValueParses(s[p..e], 0, e - p, room);
    EndIsBoundary(s, p, room);
    PartIsUtf8(s, p, e);
  }
}
