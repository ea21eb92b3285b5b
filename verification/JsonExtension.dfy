/** Exactly which INCOMPLETE texts can still become acceptable. */
module JsonExtension {
  import opened Bytes
  import opened JsonSyntax
  import opened JsonPrefix
  import opened JsonGrammar
  import opened JsonObject
  import opened ChannelSpec
  import opened JsonUnfinished
  import opened JsonFinish

  // ---------------------------------------------------------------- what a longer text needs

  /** A longer text that is complete goes on in the string that is open, or with an ASCII octet. */
  ghost predicate GoesOn(t: Text, s: Text, b: Option<nat>)
    requires t <= s && IsOpen(t, b)
  {
    match b
    case Some(at) => StringBody(s, at).Complete?
    case None => |t| < |s| && s[|t|] < 0x80
  }

  lemma StringNeeds(t: Text, s: Text, p: nat)
    requires t <= s && p <= |t| && String(t, p).Incomplete? && String(s, p).Complete?
    ensures GoesOn(t, s, OpenString(t, p))
  {
    hide StringBody;
    if p < |t| {
      BodyResumes(t, s, p + 1);
    }
  }

  /** At the end of the octets so far the next octet is white space, or stands where the space ends. */
  lemma SpaceNeeds(t: Text, s: Text, p: nat)
    requires t <= s && p <= |t| && SkipSpace(t, p) == |t| && SkipSpace(s, p) < |s|
    ensures |t| < |s| && (SkipSpace(s, p) == |t| || s[|t|] < 0x80)
  {
    SkipSpaceExtends(t, s, p);
  }

  lemma LiteralNeeds(t: Text, s: Text, p: nat, word: Text)
    requires t <= s && p <= |t| && Literal(t, p, word).Incomplete? && Literal(s, p, word).Complete?
    requires word == TRUE || word == FALSE || word == NULL
    ensures |t| < |s| && s[|t|] < 0x80
  {
    assert s[p..p + |word|][|t| - p] == s[|t|];
  }

  lemma NumberNeeds(t: Text, s: Text, p: nat)
    requires t <= s && p < |t| && Number(t, p).Incomplete? && Number(s, p).Complete?
    ensures |t| < |s| && s[|t|] < 0x80
  {
    NumberExtends(t, s, p);
    NumberOctets(s, p);
  }

  lemma ValueStartsAscii(s: Text, p: nat, room: nat)
    requires p < |s| && Value(s, p, room).Complete?
    ensures s[p] < 0x80
  {
    hide String, Array, Object, Literal;
  }

  lemma {:induction false} ValueNeeds(t: Text, s: Text, p: nat, room: nat)
    requires t <= s && p <= |t| && Value(t, p, room).Incomplete? && Value(s, p, room).Complete?
    ensures GoesOn(t, s, OpenValue(t, p, room))
    decreases |t| - p, 2
  {
    hide StringBody, Literal, Number, Array, Object, GoesOn, String;
    SkipSpaceExtends(t, s, p);
    var q := SkipSpace(t, p);
    if q >= |t| {
      SpaceNeeds(t, s, p);
      ValueSkipsSpace(s, p, room);
      ValueStartsAscii(s, SkipSpace(s, p), room);
      GoesOnAscii(t, s);
    } else if t[q] == LBRACE {
      ObjectNeeds(t, s, q, room - 1);
    } else if t[q] == LBRACKET {
      ArrayNeeds(t, s, q, room - 1);
    } else if t[q] == QUOTE {
      StringNeeds(t, s, q);
    } else {
      if t[q] == LOWER_T {
        LiteralNeeds(t, s, q, TRUE);
      } else if t[q] == LOWER_F {
        LiteralNeeds(t, s, q, FALSE);
      } else if t[q] == LOWER_N {
        LiteralNeeds(t, s, q, NULL);
      } else {
        NumberNeeds(t, s, q);
      }
      GoesOnAscii(t, s);
    }
  }

  lemma GoesOnAscii(t: Text, s: Text)
    requires t <= s && |t| < |s| && s[|t|] < 0x80
    ensures GoesOn(t, s, None)
  {
  }

  lemma {:induction false} ArrayNeeds(t: Text, s: Text, p: nat, room: nat)
    requires t <= s && p < |t| && Array(t, p, room).Incomplete? && Array(s, p, room).Complete?
    ensures GoesOn(t, s, OpenArray(t, p, room))
    decreases |t| - p, 1
  {
    hide Elements, GoesOn;
    SkipSpaceExtends(t, s, p + 1);
    var q := SkipSpace(t, p + 1);
    if q >= |t| {
      SpaceNeeds(t, s, p + 1);
      if s[SkipSpace(s, p + 1)] != RBRACKET {
        FirstElement(s, SkipSpace(s, p + 1), room);
      }
      GoesOnAscii(t, s);
    } else {
      ElementsNeed(t, s, q, room);
    }
  }

  lemma FirstElement(s: Text, p: nat, room: nat)
    requires p < |s| && Elements(s, p, room).Complete?
    ensures s[p] < 0x80
  {
    hide Value, ElementsTail;
    ValueStartsAscii(s, p, room);
  }

  lemma {:induction false} ElementsNeed(t: Text, s: Text, p: nat, room: nat)
    requires t <= s && p <= |t| && Elements(t, p, room).Incomplete? && Elements(s, p, room).Complete?
    ensures GoesOn(t, s, OpenElements(t, p, room))
    decreases |t| - p, 3
  {
    hide Value, ElementsTail, Elements, GoesOn;
    ElementsStep(t, p, room);
    ElementsStep(s, p, room);
    if Value(t, p, room).Incomplete? {
      ValueNeeds(t, s, p, room);
    } else {
      var e := Value(t, p, room).end;
      ElementGrows(t, s, p, room, e);
      if |t| == |s| || Value(s, p, room) == Complete(e) {
        if e <= |t| && Value(s, p, room) == Complete(e) {
          ElementsTailNeeds(t, s, e, room);
        }
      } else {
        TailAtEnd(t, e, room);
        GoesOnAscii(t, s);
      }
    }
  }

  /** A value that ends where the text is cut may be a number that goes on. */
  lemma ElementGrows(t: Text, s: Text, p: nat, room: nat, e: nat)
    requires t <= s && p <= |t| && Value(t, p, room) == Complete(e) && Value(s, p, room).Complete?
    ensures Value(s, p, room) == Complete(e) || (e == |t| < |s| && IsNumberByte(s[|t|]))
  {
    hide Value;
    ValueExtends(t, s, p, room);
  }

  lemma TailAtEnd(t: Text, e: nat, room: nat)
    requires e == |t|
    ensures ElementsTail(t, e, room).Incomplete? && OpenElementsTail(t, e, room) == None
    ensures MembersTail(t, e, room).Incomplete? && OpenMembersTail(t, e, room) == None
  {
  }

  lemma {:induction false} ElementsTailNeeds(t: Text, s: Text, p: nat, room: nat)
    requires t <= s && p <= |t| && ElementsTail(t, p, room).Incomplete? && ElementsTail(s, p, room).Complete?
    ensures GoesOn(t, s, OpenElementsTail(t, p, room))
    decreases |t| - p, 4
  {
    hide Elements, GoesOn;
    SkipSpaceExtends(t, s, p);
    var q := SkipSpace(t, p);
    if q >= |t| {
      SpaceNeeds(t, s, p);
      GoesOnAscii(t, s);
    } else {
      SkipSpaceExtends(t, s, q + 1);
      if SkipSpace(t, q + 1) >= |t| {
        SpaceNeeds(t, s, q + 1);
        FirstElement(s, SkipSpace(s, q + 1), room);
        GoesOnAscii(t, s);
      } else {
        ElementsNeed(t, s, SkipSpace(t, q + 1), room);
      }
    }
  }

  lemma {:induction false} ObjectNeeds(t: Text, s: Text, p: nat, room: nat)
    requires t <= s && p < |t| && Object(t, p, room).Incomplete? && Object(s, p, room).Complete?
    ensures GoesOn(t, s, OpenObject(t, p, room))
    decreases |t| - p, 1
  {
    hide Members, GoesOn;
    SkipSpaceExtends(t, s, p + 1);
    var q := SkipSpace(t, p + 1);
    if q >= |t| {
      SpaceNeeds(t, s, p + 1);
      if s[SkipSpace(s, p + 1)] != RBRACE {
        FirstMember(s, SkipSpace(s, p + 1), room);
      }
      GoesOnAscii(t, s);
    } else {
      MembersNeed(t, s, q, room);
    }
  }

  lemma FirstMember(s: Text, p: nat, room: nat)
    requires p <= |s| && Members(s, p, room).Complete?
    ensures p < |s| && s[p] == QUOTE
  {
    hide StringBody, MemberTail, MembersTail;
    MembersStep(s, p, room);
    MemberStep(s, p, room);
  }

  lemma {:induction false} MembersNeed(t: Text, s: Text, p: nat, room: nat)
    requires t <= s && p <= |t| && Members(t, p, room).Incomplete? && Members(s, p, room).Complete?
    ensures GoesOn(t, s, OpenMembers(t, p, room))
    decreases |t| - p, 3
  {
    hide Member, MembersTail, Members, GoesOn;
    MembersStep(t, p, room);
    MembersStep(s, p, room);
    if Member(t, p, room).Incomplete? {
      MemberNeeds(t, s, p, room);
    } else {
      var e := Member(t, p, room).end;
      MemberGrows(t, s, p, room, e);
      if Member(s, p, room) == Complete(e) {
        MembersTailNeeds(t, s, e, room);
      } else {
        TailAtEnd(t, e, room);
        GoesOnAscii(t, s);
      }
    }
  }

  lemma MemberGrows(t: Text, s: Text, p: nat, room: nat, e: nat)
    requires t <= s && p <= |t| && Member(t, p, room) == Complete(e) && Member(s, p, room).Complete?
    ensures Member(s, p, room) == Complete(e) || (e == |t| < |s| && IsNumberByte(s[|t|]))
  {
    hide Value, String, SkipSpace, MemberTail, Member;
    StringExtends(t, s, p);
    MemberShape(t, p, room);
    MemberShape(s, p, room);
    SkipSpaceExtends(t, s, String(t, p).end);
    ElementGrows(t, s, SkipSpace(t, String(t, p).end) + 1, room, e);
  }

  lemma {:induction false} MembersTailNeeds(t: Text, s: Text, p: nat, room: nat)
    requires t <= s && p <= |t| && MembersTail(t, p, room).Incomplete? && MembersTail(s, p, room).Complete?
    ensures GoesOn(t, s, OpenMembersTail(t, p, room))
    decreases |t| - p, 4
  {
    hide Members, GoesOn;
    SkipSpaceExtends(t, s, p);
    var q := SkipSpace(t, p);
    if q >= |t| {
      SpaceNeeds(t, s, p);
      GoesOnAscii(t, s);
    } else {
      SkipSpaceExtends(t, s, q + 1);
      if SkipSpace(t, q + 1) >= |t| {
        SpaceNeeds(t, s, q + 1);
        FirstMember(s, SkipSpace(s, q + 1), room);
        GoesOnAscii(t, s);
      } else {
        MembersNeed(t, s, SkipSpace(t, q + 1), room);
      }
    }
  }

  lemma {:induction false} MemberNeeds(t: Text, s: Text, p: nat, room: nat)
    requires t <= s && p <= |t| && Member(t, p, room).Incomplete? && Member(s, p, room).Complete?
    ensures GoesOn(t, s, OpenMember(t, p, room))
    decreases |t| - p, 2
  {
    hide String, MemberTail, Member, GoesOn;
    MemberStep(t, p, room);
    MemberStep(s, p, room);
    StringExtends(t, s, p);
    if String(t, p).Incomplete? {
      StringNeeds(t, s, p);
    } else {
      MemberTailNeeds(t, s, String(t, p).end, room);
    }
  }

  lemma {:induction false} MemberTailNeeds(t: Text, s: Text, p: nat, room: nat)
    requires t <= s && p <= |t| && MemberTail(t, p, room).Incomplete? && MemberTail(s, p, room).Complete?
    ensures GoesOn(t, s, OpenMemberTail(t, p, room))
    decreases |t| - p, 3
  {
    hide Value, GoesOn, MemberTail;
    MemberTailStep(t, p, room);
    MemberTailStep(s, p, room);
    SkipSpaceExtends(t, s, p);
    var q := SkipSpace(t, p);
    if q >= |t| {
      SpaceNeeds(t, s, p);
      GoesOnAscii(t, s);
    } else {
      ValueNeeds(t, s, q + 1, room);
    }
  }

  // ---------------------------------------------------------------- the theorem

  /**
   * The value is what is unfinished, and the character at the end, if one is unfinished, has begun in a
   * way that can be completed: an escape as far as it goes, or, inside a string, a UTF-8 sequence.
   */
  predicate MayBecomeText(t: Text, depth: nat) {
    Value(t, 0, depth).Incomplete?
    && var b := OpenValue(t, 0, depth);
       if Utf8(t, 0).COMPLETE? then b.Some? && b.value < |t| ==> MayFinishEscape(t, b.value)
       else Utf8(t, 0).INCOMPLETE? && b == Some(|t|) && MayFinishSequence(t, OpenSequence(t, 0))
  }

  lemma ScanMeansValue(s: Text, depth: nat)
    requires s != [] && depth > 0
    ensures ScanText(s, depth).result.COMPLETE? <==>
      Utf8(s, 0).COMPLETE? && Value(s, 0, depth).Complete? && SkipSpace(s, Value(s, 0, depth).end) == |s|
    ensures ScanText(s, depth).result.INCOMPLETE? <==>
      Utf8(s, 0).INCOMPLETE? || (Utf8(s, 0).COMPLETE? && Value(s, 0, depth).Incomplete?)
  {
    hide Value, Utf8;
    ValueSkipsSpace(s, 0, depth);
  }

  lemma NothingIsIncomplete(depth: nat)
    ensures Value([], 0, depth).Incomplete? && OpenValue([], 0, depth) == None && Utf8([], 0).COMPLETE?
  {
  }

  /** If some longer text is acceptable the text may become one. */
  lemma ExtensionNeeds(t: Text, u: Text, depth: nat)
    requires depth > 0 && ScanText(t, depth).result.INCOMPLETE? && ScanText(t + u, depth).result.COMPLETE?
    ensures MayBecomeText(t, depth)
  {
    hide Value, Utf8, ScanText, MayFinishEscape, MayFinishSequence, StringBody, Escape, OpenValue;
    var s := t + u;
    assert t <= s;
    NothingIsIncomplete(depth);
    if t != [] {
      ScanMeansValue(t, depth);
      ScanMeansValue(s, depth);
      Utf8Extends(t, s, 0);
      ValueExtends(t, s, 0, depth);
      if Value(t, 0, depth).Complete? && |t| < |s| {
        ValueIsNotWhatLacks(t, s, depth);
      }
      ValueNeeds(t, s, 0, depth);
      var b := OpenValue(t, 0, depth);
      if b.Some? && b.value < |t| {
        OpenEscapeNeeds(t, s, b.value);
      }
      if Utf8(t, 0).INCOMPLETE? {
        SequenceNeeds(t, s, 0);
      }
    }
  }

  /** Behind a finished value no octet continues a UTF-8 sequence. */
  lemma ValueIsNotWhatLacks(t: Text, s: Text, depth: nat)
    requires t <= s && |t| < |s| && Value(t, 0, depth).Complete? && Value(s, 0, depth).Complete?
    requires SkipSpace(s, Value(s, 0, depth).end) == |s|
    ensures !IsContinuation(s[|t|])
  {
    hide Value;
    ValueExtends(t, s, 0, depth);
  }

  /** An escape that is open at the end is finished, and in ASCII. */
  lemma OpenEscapeNeeds(t: Text, s: Text, b: nat)
    requires t <= s && b < |t| && t[b] == BACKSLASH && Escape(t, b).Incomplete? && StringBody(s, b).Complete?
    ensures MayFinishEscape(t, b) && |t| < |s| && s[|t|] < 0x80
  {
    hide Escape;
    assert s[b] == t[b];
    EscapeNeeds(t, s, b);
  }

  /** High octets and a quote close an open string. */
  lemma {:induction false} HighOctetsClose(t: Text, c: Text, p: nat)
    requires |t| <= p <= |t| + |c| && forall k :: 0 <= k < |c| ==> c[k] >= 0x80
    ensures StringBody(t + c + [QUOTE], p) == Complete(|t| + |c| + 1)
    decreases |t| + |c| - p
  {
    var s := t + c + [QUOTE];
    if p < |t| + |c| {
      assert s[p] == c[p - |t|];
      HighOctetsClose(t, c, p + 1);
    }
  }

  /** The octets that close what is open in a text that may become acceptable. */
  lemma CloseString(t: Text, depth: nat) returns (s: Text)
    requires MayBecomeText(t, depth)
    ensures ClosesString(t, s, OpenValue(t, 0, depth)) && Utf8(s, 0).COMPLETE?
  {
    hide Value, Utf8, MayFinishEscape, MayFinishSequence, StringBody, Escape, OpenValue;
    var b := OpenValue(t, 0, depth);
    if b.None? {
      s := t;
    } else if b.value == |t| {
      var c := if Utf8(t, 0).COMPLETE? then [] else MissingOctets(t, OpenSequence(t, 0));
      s := t + c + [QUOTE];
      HighOctetsClose(t, c, |t|);
      assert Utf8(t + c, 0).COMPLETE? by {
        if !Utf8(t, 0).COMPLETE? {
          SequenceFinishes(t, 0);
        } else {
          assert t + c == t;
        }
      }
      AsciiAppends(t + c, [QUOTE]);
    } else {
      var w := FinishEscape(t, b.value);
      s := t + w + [QUOTE];
      EscapeCloses(t, w, b.value);
      AsciiAppends(t, w);
      AsciiAppends(t + w, [QUOTE]);
    }
  }

  lemma AsciiAppends(t: Text, w: Text)
    requires Utf8(t, 0).COMPLETE? && AllAscii(w)
    ensures Utf8(t + w, 0).COMPLETE?
  {
    AsciiRun(w, 0, |w|);
    ConcatIsUtf8(t, w);
  }

  lemma EscapeCloses(t: Text, w: Text, b: nat)
    requires b < |t| && t[b] == BACKSLASH && Escape(t + w, b) == Complete(|t + w|)
    ensures StringBody(t + w + [QUOTE], b) == Complete(|t + w + [QUOTE]|)
  {
    hide Escape;
    var s := t + w + [QUOTE];
    EscapeExtends(t + w, s, b);
    assert s[b] == t[b] && s[|t + w|] == QUOTE;
    assert StringBody(s, |t + w|) == Complete(|s|);
  }

  /** A text that may become acceptable does so with some octets more. */
  lemma ExtensionExists(t: Text, depth: nat) returns (u: Text)
    requires depth > 0 && MayBecomeText(t, depth)
    ensures ScanText(t + u, depth).result.COMPLETE?
  {
    hide Value, Utf8, ScanText, OpenValue, MayFinishEscape, MayFinishSequence;
    var s := CloseString(t, depth);
    ClosesMeans(t, s, OpenValue(t, 0, depth));
    var v := FinishValue(t, s, 0, depth);
    u := s[|t|..] + v;
    assert t + u == s + v;
    AsciiAppends(s, v);
    ScanMeansValue(s + v, depth);
  }

  lemma ClosesMeans(t: Text, s: Text, b: Option<nat>)
    requires IsOpen(t, b) && ClosesString(t, s, b)
    ensures t <= s
  {
  }

  /** Exactly which INCOMPLETE texts can still become acceptable. */
  lemma ExtensionDecided(t: Text, depth: nat)
    requires depth > 0 && ScanText(t, depth).result.INCOMPLETE?
    ensures (exists u: Text :: ScanText(t + u, depth).result.COMPLETE?) <==> MayBecomeText(t, depth)
  {
    hide ScanText, MayBecomeText;
    if MayBecomeText(t, depth) {
      var u := ExtensionExists(t, depth);
    }
    forall u: Text | ScanText(t + u, depth).result.COMPLETE? ensures MayBecomeText(t, depth) {
      ExtensionNeeds(t, u, depth);
    }
  }

  /** A string with an escape whose digits cannot be digits: the validator only counts them. */
  const HOPELESS: Text := [QUOTE, BACKSLASH, LOWER_U, 0x5A]

  lemma HopelessScans()
    ensures Utf8(HOPELESS, 0).COMPLETE? && Value(HOPELESS, 0, JSON_MAX_DEPTH).Incomplete?
    ensures OpenValue(HOPELESS, 0, JSON_MAX_DEPTH) == Some(1) && !MayFinishEscape(HOPELESS, 1)
  {
    var t := HOPELESS;
    AsciiRun(t, 0, |t|);
    assert Escape(t, 1).Incomplete? && StringBody(t, 1).Incomplete? && SkipSpace(t, 0) == 0;
    assert Value(t, 0, JSON_MAX_DEPTH) == String(t, 0) == StringBody(t, 1);
    assert OpenBody(t, 1) == 1;
    assert !IsHex(t[3]);
  }

  /** A channel may keep octets that nothing can make acceptable. */
  lemma HopelessIsKept()
    ensures ScanText(HOPELESS, JSON_MAX_DEPTH).result.INCOMPLETE?
    ensures Valid(IDLE) && Ingest(IDLE, HOPELESS).channel.buffer == HOPELESS && Ingest(IDLE, HOPELESS).status == Ok
    ensures forall u: Text :: !ScanText(HOPELESS + u, JSON_MAX_DEPTH).result.COMPLETE?
  {
    hide ScanText, Value, Utf8, OpenValue, MayFinishEscape, HandleComplete;
    var t := HOPELESS;
    HopelessScans();
    ScanMeansValue(t, JSON_MAX_DEPTH);
    assert t[..4] == t && [] + t == t;
    ExtensionDecided(t, JSON_MAX_DEPTH);
  }
}
