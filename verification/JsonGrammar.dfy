/**
 * The grammar of RFC 8259, sections 2 to 7, as relations on intervals of a text, and the theorem
 * that the recursive-descent functions decide it. `X(s, p, e)` reads "the octets p up to e of s form an X".
 */
module JsonGrammar {
  import opened Bytes
  import opened JsonSyntax
  import opened JsonPrefix

  // ---------------------------------------------------------------- the grammar

  ghost predicate Ws(s: Text, p: nat, e: nat) {
    p <= e <= |s| && forall i :: p <= i < e ==> IsSpace(s[i])
  }

  /** `char` of section 7; a `\u` escape of a surrogate occurs only in a pair. */
  ghost predicate IsChar(s: Text, p: nat, e: nat)
    requires p <= e <= |s|
  {
    (e == p + 1 && s[p] >= 0x20 && s[p] != QUOTE && s[p] != BACKSLASH)
    || (e == p + 2 && s[p] == BACKSLASH && IsSimpleEscape(s[p + 1]))
    || (e == p + 6 && HexEscape(s, p)
        && !IsHighSurrogate(Hex4Value(s, p + 2)) && !IsLowSurrogate(Hex4Value(s, p + 2)))
    || (e == p + 12 && HexEscape(s, p) && HexEscape(s, p + 6)
        && IsHighSurrogate(Hex4Value(s, p + 2)) && IsLowSurrogate(Hex4Value(s, p + 8)))
  }

  predicate HexEscape(s: Text, p: nat)
    requires p + 6 <= |s|
  {
    s[p] == BACKSLASH && s[p + 1] == LOWER_U && FourHex(s, p + 2)
  }

  ghost predicate IsChars(s: Text, p: nat, e: nat)
    requires p <= e <= |s|
    decreases e - p
  {
    p == e || exists q :: p < q <= e && IsChar(s, p, q) && IsChars(s, q, e)
  }

  ghost predicate IsString(s: Text, p: nat, e: nat)
    requires p <= e <= |s|
  {
    p + 2 <= e && s[p] == QUOTE && s[e - 1] == QUOTE && IsChars(s, p + 1, e - 1)
  }

  ghost predicate AllDigits(s: Text, p: nat, e: nat) {
    p < e <= |s| && forall i :: p <= i < e ==> IsDigit(s[i])
  }

  ghost predicate IsInt(s: Text, p: nat, e: nat) {
    AllDigits(s, p, e) && (s[p] == ZERO ==> e == p + 1)
  }

  ghost predicate IsFrac(s: Text, p: nat, e: nat) {
    p < |s| && s[p] == DOT && AllDigits(s, p + 1, e)
  }

  ghost predicate IsExp(s: Text, p: nat, e: nat) {
    p + 1 < |s| && IsExponentMark(s[p]) && AllDigits(s, if IsSign(s[p + 1]) then p + 2 else p + 1, e)
  }

  /** `number` of section 6, with the ends of its parts. */
  ghost predicate NumberParts(s: Text, p: nat, a: nat, b: nat, e: nat)
    requires p <= e <= |s|
  {
    p < |s| && IsInt(s, if s[p] == MINUS then p + 1 else p, a)
    && (b == a || IsFrac(s, a, b))
    && (e == b || IsExp(s, b, e))
  }

  ghost predicate IsNumber(s: Text, p: nat, e: nat)
    requires p <= e <= |s|
  {
    exists a: nat, b: nat :: NumberParts(s, p, a, b, e)
  }

  /** `value` of section 3, with at most `room` levels of nested arrays and objects. */
  ghost predicate IsValue(s: Text, p: nat, e: nat, room: nat)
    requires p <= e <= |s|
    decreases e - p, 2
  {
    IsString(s, p, e)
    || IsNumber(s, p, e)
    || s[p..e] == TRUE || s[p..e] == FALSE || s[p..e] == NULL
    || (room > 0 && (IsArray(s, p, e, room - 1) || IsObject(s, p, e, room - 1)))
  }

  ghost predicate IsArray(s: Text, p: nat, e: nat, room: nat)
    requires p <= e <= |s|
    decreases e - p, 1
  {
    p + 2 <= e && s[p] == LBRACKET && s[e - 1] == RBRACKET
    && (Ws(s, p + 1, e - 1) || AreElements(s, p + 1, e - 1, room))
  }

  /** ws value ws */
  ghost predicate IsElement(s: Text, p: nat, e: nat, room: nat)
    requires p <= e <= |s|
    decreases e - p, 3
  {
    exists a, b :: p <= a <= b <= e && Ws(s, p, a) && IsValue(s, a, b, room) && Ws(s, b, e)
  }

  ghost predicate AreElements(s: Text, p: nat, e: nat, room: nat)
    requires p <= e <= |s|
    decreases e - p, 4
  {
    IsElement(s, p, e, room)
    || exists c :: p <= c < e && IsElement(s, p, c, room) && s[c] == COMMA && AreElements(s, c + 1, e, room)
  }

  ghost predicate IsObject(s: Text, p: nat, e: nat, room: nat)
    requires p <= e <= |s|
    decreases e - p, 1
  {
    p + 2 <= e && s[p] == LBRACE && s[e - 1] == RBRACE
    && (Ws(s, p + 1, e - 1) || AreMembers(s, p + 1, e - 1, room))
  }

  /** ws string ws */
  ghost predicate IsKey(s: Text, p: nat, e: nat)
    requires p <= e <= |s|
  {
    exists a, b :: p <= a <= b <= e && Ws(s, p, a) && IsString(s, a, b) && Ws(s, b, e)
  }

  ghost predicate IsMember(s: Text, p: nat, e: nat, room: nat)
    requires p <= e <= |s|
    decreases e - p, 4
  {
    exists c :: p <= c < e && IsKey(s, p, c) && s[c] == COLON && IsElement(s, c + 1, e, room)
  }

  ghost predicate AreMembers(s: Text, p: nat, e: nat, room: nat)
    requires p <= e <= |s|
    decreases e - p, 5
  {
    IsMember(s, p, e, room)
    || exists c :: p <= c < e && IsMember(s, p, c, room) && s[c] == COMMA && AreMembers(s, c + 1, e, room)
  }

  /** The octets behind the names in this grammar, section by section. */
  lemma OctetsOfGrammar(b: byte)
    ensures IsSpace(b) <==> b == 0x20 || b == 0x09 || b == 0x0A || b == 0x0D
    ensures LBRACKET == 0x5B && LBRACE == 0x7B && RBRACKET == 0x5D && RBRACE == 0x7D && COLON == 0x3A && COMMA == 0x2C
    ensures FALSE == [0x66, 0x61, 0x6C, 0x73, 0x65] && NULL == [0x6E, 0x75, 0x6C, 0x6C] && TRUE == [0x74, 0x72, 0x75, 0x65]
    ensures IsDigit(b) <==> 0x30 <= b <= 0x39
    ensures ZERO == 0x30 && DOT == 0x2E && MINUS == 0x2D
    ensures IsExponentMark(b) <==> b == 0x65 || b == 0x45
    ensures IsSign(b) <==> b == 0x2B || b == 0x2D
    ensures QUOTE == 0x22 && BACKSLASH == 0x5C && LOWER_U == 0x75
    ensures IsSimpleEscape(b) <==> b in {0x22, 0x5C, 0x2F, 0x62, 0x66, 0x6E, 0x72, 0x74}
    ensures IsHex(b) <==> 0x30 <= b <= 0x39 || 0x41 <= b <= 0x46 || 0x61 <= b <= 0x66
    ensures IsHighSurrogate(b * 0x100) <==> 0xD8 <= b <= 0xDB
    ensures IsLowSurrogate(b * 0x100) <==> 0xDC <= b <= 0xDF
  {
  }

  // ---------------------------------------------------------------- soundness

  lemma {:induction false} StringBodySound(s: Text, p: nat)
    requires p <= |s| && StringBody(s, p).Complete?
    ensures var e := StringBody(s, p).end; s[e - 1] == QUOTE && IsChars(s, p, e - 1)
    decreases |s| - p
  {
    if s[p] != QUOTE {
      var q := if s[p] != BACKSLASH then p + 1 else Escape(s, p).end;
      StringBodySound(s, q);
      assert IsChar(s, p, q);
    }
  }

  lemma StringSound(s: Text, p: nat, e: nat)
    requires p <= |s| && String(s, p) == Complete(e)
    ensures IsString(s, p, e)
  {
    StringBodySound(s, p + 1);
  }

  lemma NumberSound(s: Text, p: nat, e: nat)
    requires p < |s| && Number(s, p) == Complete(e)
    ensures IsNumber(s, p, e)
  {
    var i := if s[p] == MINUS then p + 1 else p;
    var a := IntegerPart(s, i).end;
    var b := FractionPart(s, a).end;
    assert s[i] != ZERO ==> a == SkipDigits(s, i);
    assert IsInt(s, i, a);
    assert NumberParts(s, p, a, b, e);
  }

  // Introduction rules: white space around values, and one more element or member in front.

  lemma PrependSpace(s: Text, o: nat, p: nat, e: nat, room: nat)
    requires o <= p <= e <= |s| && Ws(s, o, p) && IsElement(s, p, e, room)
    ensures IsElement(s, o, e, room)
  {
    var a, b :| p <= a <= b <= e && Ws(s, p, a) && IsValue(s, a, b, room) && Ws(s, b, e);
    assert Ws(s, o, a);
  }

  lemma PrependSpaceToElements(s: Text, o: nat, p: nat, e: nat, room: nat)
    requires o <= p <= e <= |s| && Ws(s, o, p) && AreElements(s, p, e, room)
    ensures AreElements(s, o, e, room)
  {
    if IsElement(s, p, e, room) {
      PrependSpace(s, o, p, e, room);
    } else {
      var c :| p <= c < e && IsElement(s, p, c, room) && s[c] == COMMA && AreElements(s, c + 1, e, room);
      PrependSpace(s, o, p, c, room);
    }
  }

  lemma OneElement(s: Text, p: nat, e: nat, room: nat)
    requires p <= e <= |s| && IsElement(s, p, e, room)
    ensures AreElements(s, p, e, room)
  {
  }

  lemma ConsElement(s: Text, p: nat, c: nat, n: nat, e: nat, room: nat)
    requires p <= c < n <= e <= |s| && IsElement(s, p, c, room) && s[c] == COMMA
    requires Ws(s, c + 1, n) && AreElements(s, n, e, room)
    ensures AreElements(s, p, e, room)
  {
    PrependSpaceToElements(s, c + 1, n, e, room);
  }

  lemma ConsKey(s: Text, p: nat, c: nat, e: nat, room: nat)
    requires p <= c < e <= |s| && IsKey(s, p, c) && s[c] == COLON && IsElement(s, c + 1, e, room)
    ensures IsMember(s, p, e, room)
  {
  }

  lemma PrependSpaceToMember(s: Text, o: nat, p: nat, e: nat, room: nat)
    requires o <= p <= e <= |s| && Ws(s, o, p) && IsMember(s, p, e, room)
    ensures IsMember(s, o, e, room)
  {
    var c :| p <= c < e && IsKey(s, p, c) && s[c] == COLON && IsElement(s, c + 1, e, room);
    var a, b :| p <= a <= b <= c && Ws(s, p, a) && IsString(s, a, b) && Ws(s, b, c);
    assert Ws(s, o, a);
    assert IsKey(s, o, c);
  }

  lemma PrependSpaceToMembers(s: Text, o: nat, p: nat, e: nat, room: nat)
    requires o <= p <= e <= |s| && Ws(s, o, p) && AreMembers(s, p, e, room)
    ensures AreMembers(s, o, e, room)
  {
    if IsMember(s, p, e, room) {
      PrependSpaceToMember(s, o, p, e, room);
    } else {
      var c :| p <= c < e && IsMember(s, p, c, room) && s[c] == COMMA && AreMembers(s, c + 1, e, room);
      PrependSpaceToMember(s, o, p, c, room);
    }
  }

  lemma OneMember(s: Text, p: nat, e: nat, room: nat)
    requires p <= e <= |s| && IsMember(s, p, e, room)
    ensures AreMembers(s, p, e, room)
  {
  }

  lemma ConsMember(s: Text, p: nat, c: nat, n: nat, e: nat, room: nat)
    requires p <= c < n <= e <= |s| && IsMember(s, p, c, room) && s[c] == COMMA
    requires Ws(s, c + 1, n) && AreMembers(s, n, e, room)
    ensures AreMembers(s, p, e, room)
  {
    PrependSpaceToMembers(s, c + 1, n, e, room);
  }

  // The mutual induction. `e` is the end that the parser reports.

  lemma {:induction false} ValueSound(s: Text, p: nat, room: nat, e: nat)
    requires p <= |s| && Value(s, p, room) == Complete(e)
    ensures SkipSpace(s, p) < e && IsValue(s, SkipSpace(s, p), e, room)
    decreases |s| - p, 2
  {
    var q := SkipSpace(s, p);
    if s[q] == LBRACE {
      ObjectSound(s, q, room - 1, e);
    } else if s[q] == LBRACKET {
      ArraySound(s, q, room - 1, e);
    } else if s[q] == QUOTE {
      StringSound(s, q, e);
    } else if s[q] != LOWER_T && s[q] != LOWER_F && s[q] != LOWER_N {
      NumberSound(s, q, e);
    }
  }

  lemma {:induction false} ElementSound(s: Text, p: nat, room: nat, v: nat, e: nat)
    requires p <= |s| && Value(s, p, room) == Complete(v) && SkipSpace(s, v) == e
    ensures IsElement(s, p, e, room)
    decreases |s| - p, 3
  {
    ValueSound(s, p, room, v);
    var q := SkipSpace(s, p);
    assert Ws(s, p, q) && Ws(s, v, e);
  }

  lemma {:induction false} ArraySound(s: Text, p: nat, room: nat, e: nat)
    requires p < |s| && s[p] == LBRACKET && Array(s, p, room) == Complete(e)
    ensures IsArray(s, p, e, room)
    decreases |s| - p, 1
  {
    hide Elements, AreElements, SkipSpace;
    var q := SkipSpace(s, p + 1);
    assert Ws(s, p + 1, q);
    if s[q] != RBRACKET {
      ElementsSound(s, q, room, e);
      PrependSpaceToElements(s, p + 1, q, e - 1, room);
    }
  }

  lemma {:induction false} ElementsSound(s: Text, p: nat, room: nat, e: nat)
    requires p <= |s| && Elements(s, p, room) == Complete(e)
    ensures s[e - 1] == RBRACKET && p < e && AreElements(s, p, e - 1, room)
    decreases |s| - p, 4
  {
    var v := Value(s, p, room).end;
    ElementSound(s, p, room, v, SkipSpace(s, v));
    ElementsTailSound(s, p, v, room, e);
  }

  lemma {:induction false} ElementsTailSound(s: Text, p: nat, v: nat, room: nat, e: nat)
    requires p < v <= |s| && IsElement(s, p, SkipSpace(s, v), room) && ElementsTail(s, v, room) == Complete(e)
    ensures s[e - 1] == RBRACKET && AreElements(s, p, e - 1, room)
    decreases |s| - v, 5
  {
    hide Value, SkipSpace, IsElement, AreElements, Elements, ElementsTail;
    ElementsTailStep(s, v, room);
    var c := SkipSpace(s, v);
    if s[c] == RBRACKET {
      OneElement(s, p, c, room);
    } else {
      var n := SkipSpace(s, c + 1);
      ElementsSound(s, n, room, e);
      ConsElement(s, p, c, n, e - 1, room);
    }
  }

  lemma {:induction false} ObjectSound(s: Text, p: nat, room: nat, e: nat)
    requires p < |s| && s[p] == LBRACE && Object(s, p, room) == Complete(e)
    ensures IsObject(s, p, e, room)
    decreases |s| - p, 1
  {
    hide Members, AreMembers, SkipSpace;
    var q := SkipSpace(s, p + 1);
    assert Ws(s, p + 1, q);
    if s[q] != RBRACE {
      MembersSound(s, q, room, e);
      PrependSpaceToMembers(s, p + 1, q, e - 1, room);
    }
  }

  lemma KeySound(s: Text, p: nat, k: nat)
    requires p <= |s| && String(s, p) == Complete(k)
    ensures IsKey(s, p, SkipSpace(s, k))
  {
    StringSound(s, p, k);
    assert Ws(s, p, p) && Ws(s, k, SkipSpace(s, k));
  }

  lemma {:induction false} MemberSound(s: Text, p: nat, room: nat, v: nat, e: nat)
    requires p <= |s| && Member(s, p, room) == Complete(v) && SkipSpace(s, v) == e
    ensures IsMember(s, p, e, room)
    decreases |s| - p, 4
  {
    var k := String(s, p).end;
    KeySound(s, p, k);
    MemberTailSound(s, p, k, room, v, e);
  }

  lemma {:induction false} MemberTailSound(s: Text, p: nat, k: nat, room: nat, v: nat, e: nat)
    requires p < k <= |s| && IsKey(s, p, SkipSpace(s, k))
    requires MemberTail(s, k, room) == Complete(v) && SkipSpace(s, v) == e
    ensures IsMember(s, p, e, room)
    decreases |s| - k, 4
  {
    hide Value, SkipSpace, IsValue;
    var c := SkipSpace(s, k);
    ElementSound(s, c + 1, room, v, e);
    ConsKey(s, p, c, e, room);
  }

  lemma {:induction false} MembersSound(s: Text, p: nat, room: nat, e: nat)
    requires p <= |s| && Members(s, p, room) == Complete(e)
    ensures s[e - 1] == RBRACE && p < e && AreMembers(s, p, e - 1, room)
    decreases |s| - p, 5
  {
    var v := Member(s, p, room).end;
    MemberSound(s, p, room, v, SkipSpace(s, v));
    MembersTailSound(s, p, v, room, e);
  }

  lemma {:induction false} MembersTailSound(s: Text, p: nat, v: nat, room: nat, e: nat)
    requires p < v <= |s| && IsMember(s, p, SkipSpace(s, v), room) && MembersTail(s, v, room) == Complete(e)
    ensures s[e - 1] == RBRACE && AreMembers(s, p, e - 1, room)
    decreases |s| - v, 6
  {
    hide Value, SkipSpace, IsMember, AreMembers, Members, MembersTail;
    MembersTailStep(s, v, room);
    var c := SkipSpace(s, v);
    if s[c] == RBRACE {
      OneMember(s, p, c, room);
    } else {
      var n := SkipSpace(s, c + 1);
      MembersSound(s, n, room, e);
      ConsMember(s, p, c, n, e - 1, room);
    }
  }

  // ---------------------------------------------------------------- completeness

  lemma {:induction false} SkipsExactly(s: Text, p: nat, e: nat)
    requires Ws(s, p, e) && (e < |s| ==> !IsSpace(s[e]))
    ensures SkipSpace(s, p) == e
    decreases e - p
  {
    if p < e {
      SkipsExactly(s, p + 1, e);
    }
  }

  lemma CharParses(s: Text, p: nat, q: nat)
    requires p <= q <= |s| && IsChar(s, p, q)
    ensures s[p] != QUOTE && s[p] >= 0x20
    ensures if s[p] == BACKSLASH then Escape(s, p) == Complete(q) else q == p + 1
  {
  }

  lemma {:induction false} CharsParse(s: Text, p: nat, e: nat)
    requires p <= e < |s| && s[e] == QUOTE && IsChars(s, p, e)
    ensures StringBody(s, p) == Complete(e + 1)
    decreases e - p
  {
    if p < e {
      var q :| p < q <= e && IsChar(s, p, q) && IsChars(s, q, e);
      CharsParse(s, q, e);
      CharParses(s, p, q);
    }
  }

  lemma StringParses(s: Text, p: nat, e: nat)
    requires p <= e <= |s| && IsString(s, p, e)
    ensures String(s, p) == Complete(e)
  {
    CharsParse(s, p + 1, e - 1);
  }

  lemma IntParses(s: Text, p: nat, e: nat)
    requires p <= e <= |s| && IsInt(s, p, e) && (e < |s| ==> !IsDigit(s[e]))
    ensures IntegerPart(s, p) == Complete(e)
  {
    DigitRunEnds(s, p, e);
  }

  lemma FracParses(s: Text, p: nat, e: nat)
    requires p <= e <= |s| && (e == p || IsFrac(s, p, e)) && (e < |s| ==> !IsDigit(s[e]) && s[e] != DOT)
    ensures FractionPart(s, p) == Complete(e)
  {
    if e != p {
      DigitRunEnds(s, p + 1, e);
    }
  }

  lemma ExpParses(s: Text, p: nat, e: nat)
    requires p <= e <= |s| && (e == p || IsExp(s, p, e)) && (e < |s| ==> !IsNumberByte(s[e]))
    ensures ExponentPart(s, p) == Complete(e)
  {
    if e != p {
      DigitRunEnds(s, if IsSign(s[p + 1]) then p + 2 else p + 1, e);
    }
  }

  /** A number is followed by the end of the text or by an octet that cannot continue it. */
  lemma NumberParses(s: Text, p: nat, e: nat)
    requires p <= e <= |s| && IsNumber(s, p, e) && (e < |s| ==> !IsNumberByte(s[e]))
    ensures p < e && Number(s, p) == Complete(e)
  {
    var a: nat, b: nat :| NumberParts(s, p, a, b, e);
    IntParses(s, if s[p] == MINUS then p + 1 else p, a);
    FracParses(s, a, b);
    ExpParses(s, b, e);
  }

  /** What may follow a value inside an array, an object or a text. */
  ghost predicate Closes(s: Text, e: nat)
    requires e <= |s|
  {
    e == |s| || s[e] == COMMA || s[e] == RBRACKET || s[e] == RBRACE
  }

  lemma {:induction false} ValueParses(s: Text, p: nat, e: nat, room: nat)
    requires p <= e <= |s| && IsValue(s, p, e, room) && (e < |s| ==> !IsNumberByte(s[e]))
    ensures p < e && !IsSpace(s[p]) && Value(s, p, room) == Complete(e)
    decreases e - p, 2
  {
    if IsString(s, p, e) {
      StringParses(s, p, e);
    } else if IsNumber(s, p, e) {
      NumberParses(s, p, e);
    } else if s[p..e] == TRUE || s[p..e] == FALSE || s[p..e] == NULL {
      assert s[p] == s[p..e][0];
    } else if IsArray(s, p, e, room - 1) {
      ArrayParses(s, p, e, room - 1);
    } else {
      ObjectParses(s, p, e, room - 1);
    }
    SkipsExactly(s, p, p);
  }

  lemma {:induction false} ElementParses(s: Text, p: nat, e: nat, room: nat)
    requires p <= e <= |s| && IsElement(s, p, e, room) && Closes(s, e)
    ensures Value(s, p, room).Complete? && Value(s, p, room).end <= e
    ensures SkipSpace(s, Value(s, p, room).end) == e
    ensures Value(s, SkipSpace(s, p), room) == Value(s, p, room)
    ensures SkipSpace(s, p) < e
    decreases e - p, 3
  {
    var a, b :| p <= a <= b <= e && Ws(s, p, a) && IsValue(s, a, b, room) && Ws(s, b, e);
    hide IsValue, Value, SkipSpace, Closes;
    ValueParses(s, a, b, room);
    SkipsExactly(s, p, a);
    ValueSkipsSpace(s, p, room);
    SkipsExactly(s, b, e);
  }

  lemma ValueSkipsSpace(s: Text, p: nat, room: nat)
    requires p <= |s|
    ensures SkipSpace(s, p) <= |s| && Value(s, SkipSpace(s, p), room) == Value(s, p, room)
  {
    hide Number, Literal, Array, Object, String;
    SkipSpaceTwice(s, p);
  }

  lemma {:induction false} ArrayParses(s: Text, p: nat, e: nat, room: nat)
    requires p <= e <= |s| && IsArray(s, p, e, room)
    ensures Array(s, p, room) == Complete(e)
    decreases e - p, 1
  {
    if Ws(s, p + 1, e - 1) {
      SkipsExactly(s, p + 1, e - 1);
    } else {
      ElementsParse(s, p + 1, e - 1, room);
    }
  }

  lemma {:induction false} ElementsParse(s: Text, p: nat, e: nat, room: nat)
    requires p <= e < |s| && s[e] == RBRACKET && AreElements(s, p, e, room)
    ensures SkipSpace(s, p) < e && s[SkipSpace(s, p)] != RBRACKET
    ensures Elements(s, SkipSpace(s, p), room) == Complete(e + 1)
    decreases e - p, 4
  {
    hide Value, SkipSpace, IsValue, Elements, ElementsTail, IsElement;
    NoValueBeyond(s, p);
    if IsElement(s, p, e, room) {
      ElementParses(s, p, e, room);
      ElementsTailStep(s, Value(s, p, room).end, room);
    } else {
      var c :| p <= c < e && IsElement(s, p, c, room) && s[c] == COMMA && AreElements(s, c + 1, e, room);
      ElementParses(s, p, c, room);
      ElementsParse(s, c + 1, e, room);
      ElementsTailStep(s, Value(s, p, room).end, room);
    }
    ElementsStep(s, SkipSpace(s, p), room);
    NoValueAtClose(s, p, room);
  }

  lemma NoValueBeyond(s: Text, p: nat)
    requires p <= |s|
    ensures SkipSpace(s, p) <= |s|
  {
  }

  lemma NoValueAtClose(s: Text, p: nat, room: nat)
    requires p <= |s| && Value(s, SkipSpace(s, p), room).Complete?
    ensures SkipSpace(s, p) < |s| && s[SkipSpace(s, p)] != RBRACKET
  {
    SkipSpaceTwice(s, p);
  }

  lemma {:induction false} ObjectParses(s: Text, p: nat, e: nat, room: nat)
    requires p <= e <= |s| && IsObject(s, p, e, room)
    ensures Object(s, p, room) == Complete(e)
    decreases e - p, 1
  {
    if Ws(s, p + 1, e - 1) {
      SkipsExactly(s, p + 1, e - 1);
    } else {
      MembersParse(s, p + 1, e - 1, room);
    }
  }

  lemma KeyParses(s: Text, p: nat, c: nat, room: nat)
    requires p <= c < |s| && IsKey(s, p, c) && s[c] == COLON
    ensures var q := SkipSpace(s, p); (q < c && s[q] == QUOTE && Member(s, q, room) == Value(s, c + 1, room))
  {
    hide Value, SkipSpace, IsValue, Member, MemberTail, String, IsString;
    var a, b :| p <= a <= b <= c && Ws(s, p, a) && IsString(s, a, b) && Ws(s, b, c);
    StringParses(s, a, b);
    SkipsExactly(s, p, a);
    SkipsExactly(s, b, c);
    MemberStep(s, a, room);
    MemberTailStep(s, b, room);
    StringIsQuoted(s, a);
  }

  lemma StringIsQuoted(s: Text, p: nat)
    requires p <= |s| && String(s, p).Complete?
    ensures p < |s| && s[p] == QUOTE
  {
  }

  lemma {:induction false} MemberParses(s: Text, p: nat, e: nat, room: nat)
    requires p <= e <= |s| && IsMember(s, p, e, room) && Closes(s, e)
    ensures var q := SkipSpace(s, p);
      (q < e && s[q] == QUOTE && Member(s, q, room).Complete?
       && Member(s, q, room).end <= e && SkipSpace(s, Member(s, q, room).end) == e)
    decreases e - p, 4
  {
    hide Value, SkipSpace, IsValue, IsElement, IsKey, Member, Closes;
    NoValueBeyond(s, p);
    var c :| p <= c < e && IsKey(s, p, c) && s[c] == COLON && IsElement(s, c + 1, e, room);
    KeyParses(s, p, c, room);
    ElementParses(s, c + 1, e, room);
  }

  lemma {:induction false} MembersParse(s: Text, p: nat, e: nat, room: nat)
    requires p <= e < |s| && s[e] == RBRACE && AreMembers(s, p, e, room)
    ensures SkipSpace(s, p) < e && s[SkipSpace(s, p)] == QUOTE
    ensures Members(s, SkipSpace(s, p), room) == Complete(e + 1)
    decreases e - p, 5
  {
    hide Value, SkipSpace, IsValue, IsMember, IsElement, Member, MembersTail;
    var q := SkipSpace(s, p);
    if IsMember(s, p, e, room) {
      MemberParses(s, p, e, room);
    } else {
      var c :| p <= c < e && IsMember(s, p, c, room) && s[c] == COMMA && AreMembers(s, c + 1, e, room);
      MemberParses(s, p, c, room);
      MembersParse(s, c + 1, e, room);
    }
    MembersTailStep(s, Member(s, q, room).end, room);
  }

  // ---------------------------------------------------------------- the theorem

  /** JSON-text of section 2: ws value ws, in UTF-8, nested at most `depth` deep. */
  ghost predicate IsJsonText(s: Text, depth: nat) {
    IsElement(s, 0, |s|, depth) && Utf8(s, 0).COMPLETE?
  }

  /** The validator accepts exactly the texts of the grammar; with no depth at all it accepts nothing. */
  lemma ScanDecidesGrammar(s: Text, depth: nat)
    ensures ScanText(s, depth).result.COMPLETE? <==> depth > 0 && IsJsonText(s, depth)
  {
    var p := SkipSpace(s, 0);
    SkipSpaceTwice(s, 0);
    if ScanText(s, depth).result.COMPLETE? {
      ElementSound(s, p, depth, ScanText(s, depth).valueEnd, |s|);
      assert Ws(s, 0, p);
      PrependSpace(s, 0, p, |s|, depth);
    }
    if depth > 0 && IsJsonText(s, depth) {
      ElementParses(s, 0, |s|, depth);
    }
  }
}
