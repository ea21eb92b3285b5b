/** Octets that make an INCOMPLETE text acceptable. */
module JsonFinish {
  import opened Bytes
  import opened JsonSyntax
  import opened JsonPrefix
  import opened JsonGrammar
  import opened JsonObject
  import opened JsonUnfinished

  // ---------------------------------------------------------------- how a text can be finished

  /** `s` is the text, with the string that is open closed at its end. */
  ghost predicate ClosesString(t: Text, s: Text, b: Option<nat>)
    requires IsOpen(t, b)
  {
    t <= s
    && match b
       case Some(at) => StringBody(s, at) == Complete(|s|)
       case None => s == t
  }

  lemma SpaceStops(t: Text, b: byte, p: nat)
    requires p <= |t| && SkipSpace(t, p) == |t| && !IsSpace(b)
    ensures SkipSpace(t + [b], p) == |t|
  {
    assert (t + [b])[|t|] == b;
    SkipSpaceExtends(t, t + [b], p);
  }

  lemma DigitEnds(t: Text, p: nat)
    requires p == |t|
    ensures SkipDigits(t + [ZERO], p) == |t| + 1 && Digits(t + [ZERO], p) == Complete(|t| + 1)
    ensures Number(t + [ZERO], p) == Complete(|t| + 1)
  {
    var s := t + [ZERO];
    assert s[p] == ZERO && SkipDigits(s, p + 1) == p + 1;
    assert SkipDigits(s, p) == p + 1;
    assert IntegerPart(s, p) == Complete(p + 1);
    assert FractionPart(s, p + 1) == Complete(p + 1) && ExponentPart(s, p + 1) == Complete(p + 1);
    assert AfterInteger(s, p + 1) == Complete(p + 1);
  }

  lemma DigitsFinish(t: Text, p: nat)
    requires p <= |t| && Digits(t, p).Incomplete?
    ensures p == |t| && Digits(t + [ZERO], p) == Complete(|t| + 1)
  {
    DigitEnds(t, p);
  }

  /** A number that is cut short lacks one digit. */
  lemma FinishNumber(t: Text, p: nat)
    requires p < |t| && Number(t, p).Incomplete?
    ensures Number(t + [ZERO], p) == Complete(|t| + 1)
  {
    hide SkipDigits;
    var s := t + [ZERO];
    var i := if t[p] == MINUS then p + 1 else p;
    assert s[p] == t[p];
    DigitEnds(t, |t|);
    if IntegerPart(t, i).Incomplete? {
      assert i == |t|;
    } else {
      var a := IntegerPart(t, i).end;
      assert a < |t|;
      IntegerExtends(t, s, i);
      if FractionPart(t, a).Incomplete? {
        assert s[a] == t[a];
        DigitsFinish(t, a + 1);
      } else {
        var b := FractionPart(t, a).end;
        assert ExponentPart(t, b).Incomplete? && b < |t|;
        FractionExtends(t, s, a);
        assert s[b] == t[b];
        if b + 1 < |t| && IsSign(t[b + 1]) {
          assert s[b + 1] == t[b + 1];
          DigitsFinish(t, b + 2);
        } else {
          DigitsFinish(t, b + 1);
        }
      }
    }
  }

  lemma FinishLiteral(t: Text, p: nat, word: Text) returns (u: Text)
    requires p <= |t| && Literal(t, p, word).Incomplete? && AllAscii(word)
    ensures AllAscii(u) && Literal(t + u, p, word) == Complete(|t + u|)
  {
    u := word[|t| - p..];
    var s := t + u;
    assert s[p..p + |word|] == t[p..] + u;
    assert word == word[..|t| - p] + u;
  }

  /** A literal or a number that is cut short. */
  lemma FinishScalar(t: Text, q: nat, room: nat) returns (u: Text)
    requires q < |t| && !IsSpace(t[q]) && t[q] != LBRACE && t[q] != LBRACKET && t[q] != QUOTE
    requires Value(t, q, room).Incomplete?
    ensures AllAscii(u) && Value(t + u, q, room) == Complete(|t + u|)
  {
    hide Literal, Number;
    assert SkipSpace(t, q) == q;
    if t[q] == LOWER_T {
      u := FinishLiteral(t, q, TRUE);
    } else if t[q] == LOWER_F {
      u := FinishLiteral(t, q, FALSE);
    } else if t[q] == LOWER_N {
      u := FinishLiteral(t, q, NULL);
    } else {
      u := [ZERO];
      FinishNumber(t, q);
    }
    assert (t + u)[q] == t[q] && SkipSpace(t + u, q) == q;
  }

  lemma ZeroIsValue(t: Text, room: nat)
    ensures Value(t + [ZERO], |t|, room) == Complete(|t| + 1)
  {
    hide Number;
    DigitEnds(t, |t|);
    assert SkipSpace(t + [ZERO], |t|) == |t|;
  }

  /** Appending a bracket or a comma leaves a value as it is. */
  lemma ValueStays(s: Text, p: nat, room: nat, more: Text)
    requires p <= |s| && Value(s, p, room).Complete? && more != [] && !IsNumberByte(more[0])
    ensures Value(s + more, p, room) == Value(s, p, room)
  {
    hide Value;
    ValueExtends(s, s + more, p, room);
  }

  lemma {:induction false} FinishValue(t: Text, s: Text, p: nat, room: nat) returns (u: Text)
    requires p <= |t| && Value(t, p, room).Incomplete? && ClosesString(t, s, OpenValue(t, p, room))
    ensures AllAscii(u) && Value(s + u, p, room) == Complete(|s + u|)
    decreases |t| - p, 2
  {
    hide StringBody, Literal, Number, Array, Object;
    var q := SkipSpace(t, p);
    if q >= |t| {
      u := [ZERO];
      SpaceStops(t, ZERO, p);
      ZeroIsValue(t, room);
      ValueSkipsSpace(t + u, p, room);
    } else {
      if t[q] == LBRACE {
        u := FinishObject(t, s, q, room - 1);
      } else if t[q] == LBRACKET {
        u := FinishArray(t, s, q, room - 1);
      } else if t[q] == QUOTE {
        u := [];
        BodyResumes(t, s, q + 1);
        assert s + u == s;
      } else {
        ValueSkipsSpace(t, p, room);
        u := FinishScalar(t, q, room);
        ValueSkipsSpace(t + u, p, room);
      }
      SkipSpaceExtends(t, s + u, p);
      assert (s + u)[q] == t[q];
    }
  }

  lemma ArrayBegins(t: Text, p: nat, room: nat)
    requires p < |t| && Array(t, p, room).Incomplete?
    ensures var q := SkipSpace(t, p + 1);
      OpenArray(t, p, room) == (if q >= |t| then None else OpenElements(t, q, room))
      && (q < |t| ==> t[q] != RBRACKET && Elements(t, q, room).Incomplete?)
  {
    hide Elements;
  }

  lemma EmptyArrayCloses(t: Text, p: nat, room: nat)
    requires p < |t| && SkipSpace(t, p + 1) == |t|
    ensures Array(t + [RBRACKET], p, room) == Complete(|t| + 1)
  {
    SpaceStops(t, RBRACKET, p + 1);
  }

  lemma ArrayGoesOn(t: Text, s: Text, p: nat, room: nat)
    requires t <= s && p < |t| && SkipSpace(t, p + 1) < |t| && t[SkipSpace(t, p + 1)] != RBRACKET
    ensures SkipSpace(s, p + 1) == SkipSpace(t, p + 1) && Array(s, p, room) == Elements(s, SkipSpace(t, p + 1), room)
  {
    hide Elements;
    var q := SkipSpace(t, p + 1);
    SkipSpaceExtends(t, s, p + 1);
    assert s[q] == t[q];
  }

  lemma {:induction false} FinishArray(t: Text, s: Text, p: nat, room: nat) returns (u: Text)
    requires p < |t| && Array(t, p, room).Incomplete? && ClosesString(t, s, OpenArray(t, p, room))
    ensures AllAscii(u) && Array(s + u, p, room) == Complete(|s + u|)
    decreases |t| - p, 1
  {
    hide Elements, Array, SkipSpace, StringBody;
    ArrayBegins(t, p, room);
    var q := SkipSpace(t, p + 1);
    if q >= |t| {
      u := [RBRACKET];
      EmptyArrayCloses(t, p, room);
    } else {
      u := FinishElements(t, s, q, room);
      ArrayGoesOn(t, s + u, p, room);
    }
  }

  lemma {:induction false} FinishElements(t: Text, s: Text, p: nat, room: nat) returns (u: Text)
    requires p <= |t| && Elements(t, p, room).Incomplete? && ClosesString(t, s, OpenElements(t, p, room))
    ensures AllAscii(u) && Elements(s + u, p, room) == Complete(|s + u|)
    decreases |t| - p, 3
  {
    hide Value, ElementsTail, Elements;
    ElementsStep(t, p, room);
    if Value(t, p, room).Incomplete? {
      var v := FinishValue(t, s, p, room);
      u := v + [RBRACKET];
      assert s + u == (s + v) + [RBRACKET];
      ValueStays(s + v, p, room, [RBRACKET]);
      ClosingBracket(s + v, RBRACKET, room);
    } else {
      var e := Value(t, p, room).end;
      if SkipSpace(t, e) >= |t| {
        u := [RBRACKET];
        TailIsNone(t, e, room);
        ValueStays(t, p, room, u);
        SpaceStops(t, RBRACKET, e);
        ElementsTailStep(t + u, e, room);
      } else {
        u := FinishElementsTail(t, s, e, room);
        assert t <= s + u;
        ElementGrowsNot(t, s + u, p, room, e);
      }
    }
    ElementsStep(s + u, p, room);
  }

  lemma TailIsNone(t: Text, e: nat, room: nat)
    requires e <= |t| && SkipSpace(t, e) >= |t|
    ensures ElementsTail(t, e, room).Incomplete? && OpenElementsTail(t, e, room) == None
    ensures MembersTail(t, e, room).Incomplete? && OpenMembersTail(t, e, room) == None
  {
  }

  /** A value in front of the end of the text stays. */
  lemma ElementGrowsNot(t: Text, s: Text, p: nat, room: nat, e: nat)
    requires t <= s && p <= |t| && Value(t, p, room) == Complete(e) && e < |t|
    ensures Value(s, p, room) == Complete(e)
  {
    hide Value;
    ValueExtends(t, s, p, room);
  }

  lemma ClosingBracket(s: Text, b: byte, room: nat)
    requires b == RBRACKET || b == RBRACE
    ensures b == RBRACKET ==> ElementsTail(s + [b], |s|, room) == Complete(|s| + 1)
    ensures b == RBRACE ==> MembersTail(s + [b], |s|, room) == Complete(|s| + 1)
  {
    assert SkipSpace(s + [b], |s|) == |s|;
  }

  /** Behind a comma a number and the bracket finish an array. */
  lemma LastElement(t: Text, p: nat, room: nat)
    requires p <= |t| && SkipSpace(t, p) == |t|
    ensures var s := t + [ZERO, RBRACKET]; SkipSpace(s, p) == |t| && Elements(s, |t|, room) == Complete(|s|)
  {
    hide Elements, Value, ElementsTail;
    var s := t + [ZERO, RBRACKET];
    assert s == (t + [ZERO]) + [RBRACKET];
    SpaceStops(t, ZERO, p);
    SkipSpaceExtends(t + [ZERO], s, p);
    ZeroIsValue(t, room);
    ValueStays(t + [ZERO], |t|, room, [RBRACKET]);
    ClosingBracket(t + [ZERO], RBRACKET, room);
    ElementsStep(s, |t|, room);
  }

  lemma {:induction false} FinishElementsTail(t: Text, s: Text, p: nat, room: nat) returns (u: Text)
    requires p <= |t| && ElementsTail(t, p, room).Incomplete? && ClosesString(t, s, OpenElementsTail(t, p, room))
    requires SkipSpace(t, p) < |t|
    ensures AllAscii(u) && ElementsTail(s + u, p, room) == Complete(|s + u|)
    decreases |t| - p, 4
  {
    hide Elements, Value, ElementsTail;
    ElementsTailStep(t, p, room);
    var q := SkipSpace(t, p);
    if SkipSpace(t, q + 1) >= |t| {
      u := [ZERO, RBRACKET];
      TailWaits(t, p, room);
      LastElement(t, q + 1, room);
    } else {
      var n := SkipSpace(t, q + 1);
      ElementsTailOpens(t, p, room);
      u := FinishElements(t, s, n, room);
      SkipSpaceExtends(t, s + u, q + 1);
    }
    SkipSpaceExtends(t, s + u, p);
    assert (s + u)[q] == t[q];
    ElementsTailStep(s + u, p, room);
  }

  lemma TailWaits(t: Text, p: nat, room: nat)
    requires p <= |t| && SkipSpace(t, p) < |t| && SkipSpace(t, SkipSpace(t, p) + 1) >= |t|
    ensures ElementsTail(t, p, room).Incomplete? ==> OpenElementsTail(t, p, room) == None
    ensures MembersTail(t, p, room).Incomplete? ==> OpenMembersTail(t, p, room) == None
  {
  }

  lemma ElementsTailOpens(t: Text, p: nat, room: nat)
    requires p <= |t| && ElementsTail(t, p, room).Incomplete? && SkipSpace(t, p) < |t|
    requires SkipSpace(t, SkipSpace(t, p) + 1) < |t|
    ensures var n := SkipSpace(t, SkipSpace(t, p) + 1);
      t[SkipSpace(t, p)] == COMMA && Elements(t, n, room).Incomplete? && OpenElementsTail(t, p, room) == OpenElements(t, n, room)
  {
    hide Elements;
  }

  lemma {:induction false} FinishObject(t: Text, s: Text, p: nat, room: nat) returns (u: Text)
    requires p < |t| && Object(t, p, room).Incomplete? && ClosesString(t, s, OpenObject(t, p, room))
    ensures AllAscii(u) && Object(s + u, p, room) == Complete(|s + u|)
    decreases |t| - p, 1
  {
    hide Members;
    var q := SkipSpace(t, p + 1);
    if q >= |t| {
      u := [RBRACE];
      SpaceStops(t, RBRACE, p + 1);
    } else {
      u := FinishMembers(t, s, q, room);
      SkipSpaceExtends(t, s + u, p + 1);
      assert (s + u)[q] == t[q];
    }
  }

  /** Appending a brace leaves a member as it is. */
  lemma MemberStays(s: Text, p: nat, room: nat, more: Text)
    requires p <= |s| && Member(s, p, room).Complete? && more != [] && !IsNumberByte(more[0])
    ensures Member(s + more, p, room) == Member(s, p, room)
  {
    hide Value, String, SkipSpace, Member, MemberTail;
    var t := s + more;
    MemberShape(s, p, room);
    StringExtends(s, t, p);
    SkipSpaceExtends(s, t, String(s, p).end);
    var c := SkipSpace(s, String(s, p).end);
    assert t[c] == s[c];
    ValueStays(s, c + 1, room, more);
    MemberStep(t, p, room);
    MemberTailStep(t, String(s, p).end, room);
  }

  lemma {:induction false} FinishMembers(t: Text, s: Text, p: nat, room: nat) returns (u: Text)
    requires p <= |t| && Members(t, p, room).Incomplete? && ClosesString(t, s, OpenMembers(t, p, room))
    ensures AllAscii(u) && Members(s + u, p, room) == Complete(|s + u|)
    decreases |t| - p, 3
  {
    hide Member, MembersTail, Members;
    MembersStep(t, p, room);
    if Member(t, p, room).Incomplete? {
      var v := FinishMember(t, s, p, room);
      u := v + [RBRACE];
      assert s + u == (s + v) + [RBRACE];
      MemberStays(s + v, p, room, [RBRACE]);
      ClosingBracket(s + v, RBRACE, room);
    } else {
      var e := Member(t, p, room).end;
      if SkipSpace(t, e) >= |t| {
        u := [RBRACE];
        TailIsNone(t, e, room);
        MemberStays(t, p, room, u);
        SpaceStops(t, RBRACE, e);
        MembersTailStep(t + u, e, room);
      } else {
        u := FinishMembersTail(t, s, e, room);
        assert t <= s + u;
        MemberGrowsNot(t, s + u, p, room, e);
      }
    }
    MembersStep(s + u, p, room);
  }

  lemma MemberGrowsNot(t: Text, s: Text, p: nat, room: nat, e: nat)
    requires t <= s && p <= |t| && Member(t, p, room) == Complete(e) && e < |t|
    ensures Member(s, p, room) == Complete(e)
  {
    hide Member;
    MemberExtends(t, s, p, room);
  }

  /** The shortest member: an empty key and a number. */
  lemma ShortestMember(t: Text, room: nat)
    ensures Member(t + [QUOTE, QUOTE, COLON, ZERO], |t|, room) == Complete(|t| + 4)
  {
    hide Value;
    var s := t + [QUOTE, QUOTE, COLON, ZERO];
    assert StringBody(s, |t| + 1) == Complete(|t| + 2);
    assert SkipSpace(s, |t| + 2) == |t| + 2;
    assert s == (t + [QUOTE, QUOTE, COLON]) + [ZERO];
    ZeroIsValue(t + [QUOTE, QUOTE, COLON], room);
  }

  /** Behind a comma the shortest member and the brace finish an object. */
  lemma LastMember(t: Text, p: nat, room: nat)
    requires p <= |t| && SkipSpace(t, p) == |t|
    ensures var s := t + [QUOTE, QUOTE, COLON, ZERO, RBRACE];
      SkipSpace(s, p) == |t| && Members(s, |t|, room) == Complete(|s|)
  {
    hide Members, Member, MembersTail;
    var member: Text := [QUOTE, QUOTE, COLON, ZERO];
    var s := t + [QUOTE, QUOTE, COLON, ZERO, RBRACE];
    assert s == (t + member) + [RBRACE];
    SpaceStops(t, QUOTE, p);
    SkipSpaceExtends(t + [QUOTE], s, p);
    ShortestMember(t, room);
    MemberStays(t + member, |t|, room, [RBRACE]);
    ClosingBracket(t + member, RBRACE, room);
    MembersStep(s, |t|, room);
  }

  lemma {:induction false} FinishMembersTail(t: Text, s: Text, p: nat, room: nat) returns (u: Text)
    requires p <= |t| && MembersTail(t, p, room).Incomplete? && ClosesString(t, s, OpenMembersTail(t, p, room))
    requires SkipSpace(t, p) < |t|
    ensures AllAscii(u) && MembersTail(s + u, p, room) == Complete(|s + u|)
    decreases |t| - p, 4
  {
    hide Members, Member, MembersTail;
    MembersTailStep(t, p, room);
    var q := SkipSpace(t, p);
    if SkipSpace(t, q + 1) >= |t| {
      u := [QUOTE, QUOTE, COLON, ZERO, RBRACE];
      TailWaits(t, p, room);
      LastMember(t, q + 1, room);
    } else {
      var n := SkipSpace(t, q + 1);
      MembersTailOpens(t, p, room);
      u := FinishMembers(t, s, n, room);
      SkipSpaceExtends(t, s + u, q + 1);
    }
    SkipSpaceExtends(t, s + u, p);
    assert (s + u)[q] == t[q];
    MembersTailStep(s + u, p, room);
  }

  lemma MembersTailOpens(t: Text, p: nat, room: nat)
    requires p <= |t| && MembersTail(t, p, room).Incomplete? && SkipSpace(t, p) < |t|
    requires SkipSpace(t, SkipSpace(t, p) + 1) < |t|
    ensures var n := SkipSpace(t, SkipSpace(t, p) + 1);
      t[SkipSpace(t, p)] == COMMA && Members(t, n, room).Incomplete? && OpenMembersTail(t, p, room) == OpenMembers(t, n, room)
  {
    hide Members;
  }

  /** A colon and a number behind a key. */
  lemma ColonFinishes(s: Text, p: nat, a: nat, room: nat)
    requires p <= |s| && String(s, p) == Complete(a) && SkipSpace(s, a) == |s|
    ensures Member(s + [COLON, ZERO], p, room) == Complete(|s| + 2)
  {
    hide String, Value, Member, MemberTail;
    var t := s + [COLON, ZERO];
    StringExtends(s, t, p);
    SpaceStops(s, COLON, a);
    SkipSpaceExtends(s + [COLON], t, a);
    assert t == (s + [COLON]) + [ZERO];
    ZeroIsValue(s + [COLON], room);
    MemberStep(t, p, room);
    MemberTailStep(t, a, room);
  }

  lemma {:induction false} FinishMember(t: Text, s: Text, p: nat, room: nat) returns (u: Text)
    requires p <= |t| && Member(t, p, room).Incomplete? && ClosesString(t, s, OpenMember(t, p, room))
    ensures AllAscii(u) && Member(s + u, p, room) == Complete(|s + u|)
    decreases |t| - p, 2
  {
    hide StringBody, MemberTail, Member, Value;
    MemberStep(t, p, room);
    if String(t, p).Incomplete? {
      if p >= |t| {
        u := [QUOTE, QUOTE, COLON, ZERO];
        ShortestMember(t, room);
      } else {
        u := [COLON, ZERO];
        BodyResumes(t, s, p + 1);
        assert s[p] == t[p];
        ColonFinishes(s, p, |s|, room);
      }
    } else {
      var a := String(t, p).end;
      if SkipSpace(t, a) >= |t| {
        u := [COLON, ZERO];
        MemberTailIsNone(t, a, room);
        ColonFinishes(t, p, a, room);
      } else {
        u := FinishMemberTail(t, s, a, room);
        assert t <= s + u;
        StringExtends(t, s + u, p);
        MemberStep(s + u, p, room);
      }
    }
  }

  lemma MemberTailIsNone(t: Text, a: nat, room: nat)
    requires a <= |t| && SkipSpace(t, a) >= |t|
    ensures MemberTail(t, a, room).Incomplete? && OpenMemberTail(t, a, room) == None
  {
  }

  lemma {:induction false} FinishMemberTail(t: Text, s: Text, p: nat, room: nat) returns (u: Text)
    requires p <= |t| && MemberTail(t, p, room).Incomplete? && ClosesString(t, s, OpenMemberTail(t, p, room))
    requires SkipSpace(t, p) < |t|
    ensures AllAscii(u) && MemberTail(s + u, p, room) == Complete(|s + u|)
    decreases |t| - p, 3
  {
    hide Value, MemberTail;
    MemberTailStep(t, p, room);
    var q := SkipSpace(t, p);
    MemberTailOpens(t, p, room);
    u := FinishValue(t, s, q + 1, room);
    SkipSpaceExtends(t, s + u, p);
    assert (s + u)[q] == t[q];
    MemberTailStep(s + u, p, room);
  }

  lemma MemberTailOpens(t: Text, p: nat, room: nat)
    requires p <= |t| && MemberTail(t, p, room).Incomplete? && SkipSpace(t, p) < |t|
    ensures var q := SkipSpace(t, p);
      t[q] == COLON && Value(t, q + 1, room).Incomplete? && OpenMemberTail(t, p, room) == OpenValue(t, q + 1, room)
  {
    hide Value;
  }
}
