/** How the verdict on a text constrains the verdict on every extension of it. */
module JsonPrefix {
  import opened Bytes
  import opened JsonSyntax

  /** `cut` is the verdict on the first `n` octets, `whole` the one on the longer text. */
  ghost predicate Settles(cut: Outcome, whole: Outcome, n: nat) {
    (cut.Invalid? ==> whole.Invalid?)
    && (cut.Complete? ==> whole == cut)
    && (cut.Incomplete? && whole.Complete? ==> n < whole.end)
  }

  predicate IsNumberByte(b: byte) {
    IsDigit(b) || b == DOT || IsExponentMark(b) || IsSign(b)
  }

  /** As `Settles`, but a unit that reaches the cut may go on behind it. */
  ghost predicate Tends(cut: Outcome, whole: Outcome, n: nat) {
    (cut.Invalid? ==> whole.Invalid?)
    && (cut.Complete? && cut.end < n ==> whole == cut)
    && (cut.Complete? && cut.end >= n && whole.Complete? ==> n <= whole.end)
    && (cut.Incomplete? && whole.Complete? ==> n < whole.end)
  }

  /** Nothing that a number can contain stands right behind the cut. */
  ghost predicate Bounded(t: Text, s: Text)
    requires t <= s
  {
    |t| == |s| || !IsNumberByte(s[|t|])
  }

  lemma {:induction false} SkipSpaceExtends(t: Text, s: Text, p: nat)
    requires t <= s && p <= |t|
    ensures SkipSpace(t, p) < |t| ==> SkipSpace(s, p) == SkipSpace(t, p)
    ensures SkipSpace(t, p) <= SkipSpace(s, p)
    decreases |t| - p
  {
    if p < |t| && IsSpace(t[p]) {
      SkipSpaceExtends(t, s, p + 1);
    }
  }

  /** A run of digits up to its end. */
  lemma {:induction false} DigitRunEnds(s: Text, p: nat, e: nat)
    requires p <= e <= |s| && (forall i :: p <= i < e ==> IsDigit(s[i])) && (e < |s| ==> !IsDigit(s[e]))
    ensures SkipDigits(s, p) == e
    decreases e - p
  {
    if p < e {
      DigitRunEnds(s, p + 1, e);
    }
  }

  lemma NumberOctets(s: Text, p: nat)
    requires p < |s| && Number(s, p).Complete?
    ensures forall i :: p <= i < Number(s, p).end ==> IsNumberByte(s[i])
  {
  }

  /** Over ASCII octets the UTF-8 verdict does not change. */
  lemma {:induction false} AsciiRun(s: Text, p: nat, q: nat)
    requires p <= q <= |s| && forall i :: p <= i < q ==> s[i] < 0x80
    ensures Utf8(s, p) == Utf8(s, q)
    decreases q - p
  {
    if p < q {
      AsciiRun(s, p + 1, q);
    }
  }

  lemma EscapeExtends(t: Text, s: Text, p: nat)
    requires t <= s && p < |t|
    ensures Settles(Escape(t, p), Escape(s, p), |t|)
  {
  }

  lemma {:induction false} StringBodyExtends(t: Text, s: Text, p: nat)
    requires t <= s && p <= |t|
    ensures Settles(StringBody(t, p), StringBody(s, p), |t|)
    decreases |t| - p
  {
    if p < |t| && t[p] != QUOTE && t[p] >= 0x20 {
      if t[p] != BACKSLASH {
        StringBodyExtends(t, s, p + 1);
      } else {
        EscapeExtends(t, s, p);
        if Escape(t, p).Complete? {
          StringBodyExtends(t, s, Escape(t, p).end);
        }
      }
    }
  }

  lemma StringExtends(t: Text, s: Text, p: nat)
    requires t <= s && p <= |t|
    ensures Settles(String(t, p), String(s, p), |t|)
  {
    if p < |t| {
      StringBodyExtends(t, s, p + 1);
    }
  }

  lemma {:induction false} SkipDigitsExtends(t: Text, s: Text, p: nat)
    requires t <= s && p <= |t|
    ensures SkipDigits(t, p) < |t| ==> SkipDigits(s, p) == SkipDigits(t, p)
    ensures SkipDigits(t, p) <= SkipDigits(s, p)
    ensures Bounded(t, s) ==> SkipDigits(s, p) == SkipDigits(t, p)
    decreases |t| - p
  {
    if p < |t| && IsDigit(t[p]) {
      SkipDigitsExtends(t, s, p + 1);
    }
  }

  lemma DigitsExtends(t: Text, s: Text, p: nat)
    requires t <= s && p <= |t|
    ensures Tends(Digits(t, p), Digits(s, p), |t|)
    ensures Bounded(t, s) && Digits(t, p).Complete? ==> Digits(s, p) == Digits(t, p)
  {
    SkipDigitsExtends(t, s, p);
  }

  lemma ExponentExtends(t: Text, s: Text, p: nat)
    requires t <= s && p <= |t|
    ensures Tends(ExponentPart(t, p), ExponentPart(s, p), |t|)
    ensures Bounded(t, s) && ExponentPart(t, p).Complete? ==> ExponentPart(s, p) == ExponentPart(t, p)
  {
    if p < |t| && IsExponentMark(t[p]) {
      DigitsExtends(t, s, p + 1);
      if p + 1 < |t| && IsSign(t[p + 1]) {
        DigitsExtends(t, s, p + 2);
      }
    }
  }

  lemma FractionExtends(t: Text, s: Text, p: nat)
    requires t <= s && p <= |t|
    ensures Tends(FractionPart(t, p), FractionPart(s, p), |t|)
    ensures Bounded(t, s) && FractionPart(t, p).Complete? ==> FractionPart(s, p) == FractionPart(t, p)
  {
    if p < |t| && t[p] == DOT {
      DigitsExtends(t, s, p + 1);
    }
  }

  lemma IntegerExtends(t: Text, s: Text, p: nat)
    requires t <= s && p <= |t|
    ensures Tends(IntegerPart(t, p), IntegerPart(s, p), |t|)
    ensures Bounded(t, s) && IntegerPart(t, p).Complete? ==> IntegerPart(s, p) == IntegerPart(t, p)
  {
    DigitsExtends(t, s, p);
  }

  lemma NumberExtends(t: Text, s: Text, p: nat)
    requires t <= s && p < |t|
    ensures Tends(Number(t, p), Number(s, p), |t|)
    ensures Bounded(t, s) && Number(t, p).Complete? ==> Number(s, p) == Number(t, p)
  {
    var i := if t[p] == MINUS then p + 1 else p;
    IntegerExtends(t, s, i);
    if IntegerPart(t, i).Complete? {
      var a := IntegerPart(t, i).end;
      FractionExtends(t, s, a);
      if FractionPart(t, a).Complete? {
        ExponentExtends(t, s, FractionPart(t, a).end);
      }
    }
  }

  lemma LiteralExtends(t: Text, s: Text, p: nat, word: Text)
    requires t <= s && p <= |t|
    ensures Settles(Literal(t, p, word), Literal(s, p, word), |t|)
  {
    var n := |word|;
    if |t| - p >= n {
      assert t[p..p + n] == s[p..p + n];
    } else {
      var m := |t| - p;
      assert t[p..] == s[p..|t|];
      if |s| - p < n {
        assert s[p..][..m] == t[p..];
        assert word[..|s| - p][..m] == word[..m];
      } else {
        assert s[p..p + n][..m] == t[p..];
      }
    }
  }

  /** The root of a number text: only these can grow. */
  predicate StartsNumber(s: Text, p: nat)
    requires p <= |s|
  {
    RootKindAt(s, SkipSpace(s, p)).RootNumber?
  }

  lemma {:induction false} ValueExtends(t: Text, s: Text, p: nat, room: nat)
    requires t <= s && p <= |t|
    ensures Tends(Value(t, p, room), Value(s, p, room), |t|)
    ensures !StartsNumber(t, p) ==> Settles(Value(t, p, room), Value(s, p, room), |t|)
    ensures Bounded(t, s) && Value(t, p, room).Complete? ==> Value(s, p, room) == Value(t, p, room)
    decreases |t| - p, 2
  {
    SkipSpaceExtends(t, s, p);
    var q := SkipSpace(t, p);
    if q < |t| {
      if t[q] == LBRACE {
        if room > 0 {
          ObjectExtends(t, s, q, room - 1);
        }
      } else if t[q] == LBRACKET {
        if room > 0 {
          ArrayExtends(t, s, q, room - 1);
        }
      } else if t[q] == QUOTE {
        StringExtends(t, s, q);
      } else if t[q] == LOWER_T {
        LiteralExtends(t, s, q, TRUE);
      } else if t[q] == LOWER_F {
        LiteralExtends(t, s, q, FALSE);
      } else if t[q] == LOWER_N {
        LiteralExtends(t, s, q, NULL);
      } else {
        NumberExtends(t, s, q);
      }
    }
  }

  lemma {:induction false} ArrayExtends(t: Text, s: Text, p: nat, room: nat)
    requires t <= s && p < |t|
    ensures Settles(Array(t, p, room), Array(s, p, room), |t|)
    decreases |t| - p, 1
  {
    SkipSpaceExtends(t, s, p + 1);
    var q := SkipSpace(t, p + 1);
    if q < |t| && t[q] != RBRACKET {
      ElementsExtend(t, s, q, room);
    }
  }

  lemma {:induction false} ElementsExtend(t: Text, s: Text, p: nat, room: nat)
    requires t <= s && p <= |t|
    ensures Settles(Elements(t, p, room), Elements(s, p, room), |t|)
    decreases |t| - p, 3
  {
    ValueExtends(t, s, p, room);
    if Value(t, p, room).Complete? {
      ElementsTailExtends(t, s, Value(t, p, room).end, room);
    }
  }

  lemma {:induction false} ElementsTailExtends(t: Text, s: Text, p: nat, room: nat)
    requires t <= s && p <= |t|
    ensures Settles(ElementsTail(t, p, room), ElementsTail(s, p, room), |t|)
    decreases |t| - p, 4
  {
    SkipSpaceExtends(t, s, p);
    var q := SkipSpace(t, p);
    if q < |t| && t[q] == COMMA {
      SkipSpaceExtends(t, s, q + 1);
      var n := SkipSpace(t, q + 1);
      if n < |t| {
        ElementsExtend(t, s, n, room);
      }
    }
  }

  lemma {:induction false} ObjectExtends(t: Text, s: Text, p: nat, room: nat)
    requires t <= s && p < |t|
    ensures Settles(Object(t, p, room), Object(s, p, room), |t|)
    decreases |t| - p, 1
  {
    SkipSpaceExtends(t, s, p + 1);
    var q := SkipSpace(t, p + 1);
    if q < |t| && t[q] != RBRACE {
      MembersExtend(t, s, q, room);
    }
  }

  lemma {:induction false} MembersExtend(t: Text, s: Text, p: nat, room: nat)
    requires t <= s && p <= |t|
    ensures Settles(Members(t, p, room), Members(s, p, room), |t|)
    decreases |t| - p, 3
  {
    MemberExtends(t, s, p, room);
    if Member(t, p, room).Complete? {
      MembersTailExtends(t, s, Member(t, p, room).end, room);
    }
  }

  lemma {:induction false} MembersTailExtends(t: Text, s: Text, p: nat, room: nat)
    requires t <= s && p <= |t|
    ensures Settles(MembersTail(t, p, room), MembersTail(s, p, room), |t|)
    decreases |t| - p, 4
  {
    SkipSpaceExtends(t, s, p);
    var q := SkipSpace(t, p);
    if q < |t| && t[q] == COMMA {
      SkipSpaceExtends(t, s, q + 1);
      var n := SkipSpace(t, q + 1);
      if n < |t| {
        MembersExtend(t, s, n, room);
      }
    }
  }

  lemma {:induction false} MemberExtends(t: Text, s: Text, p: nat, room: nat)
    requires t <= s && p <= |t|
    ensures Tends(Member(t, p, room), Member(s, p, room), |t|)
    decreases |t| - p, 2
  {
    StringExtends(t, s, p);
    if String(t, p).Complete? {
      MemberTailExtends(t, s, String(t, p).end, room);
    }
  }

  lemma {:induction false} MemberTailExtends(t: Text, s: Text, p: nat, room: nat)
    requires t <= s && p <= |t|
    ensures Tends(MemberTail(t, p, room), MemberTail(s, p, room), |t|)
    decreases |t| - p, 3
  {
    hide Value, SkipSpace, MemberTail;
    SkipSpaceExtends(t, s, p);
    MemberTailStep(t, p, room);
    MemberTailStep(s, p, room);
    var q := SkipSpace(t, p);
    if q < |t| && t[q] == COLON {
      ValueExtends(t, s, q + 1, room);
    }
  }

  // ---------------------------------------------------------------- UTF-8

  /** A cut through well-formed UTF-8 is never INVALID, and INCOMPLETE only inside a sequence. */
  lemma {:induction false} Utf8Extends(t: Text, s: Text, p: nat)
    requires t <= s && p <= |t|
    ensures Utf8(t, p).INVALID? ==> Utf8(s, p).INVALID?
    ensures Utf8(t, p).COMPLETE? ==> Utf8(s, p) == Utf8(s, |t|)
    ensures Utf8(t, p).INCOMPLETE? && Utf8(s, p).COMPLETE? ==> |t| < |s| && IsContinuation(s[|t|])
    decreases |t| - p
  {
    if p < |t| {
      var n := SequenceLength(t[p]);
      if 0 < n <= |t| - p && SequenceAt(t, p) {
        Utf8Extends(t, s, p + n);
      }
    }
  }

  lemma {:induction false} SpaceIsUtf8(s: Text, p: nat)
    requires p <= |s| && forall i :: p <= i < |s| ==> IsSpace(s[i])
    ensures Utf8(s, p).COMPLETE?
    decreases |s| - p
  {
    if p < |s| {
      SpaceIsUtf8(s, p + 1);
    }
  }

  lemma {:induction false} AllSpace(s: Text, p: nat)
    requires p <= |s|
    ensures SkipSpace(s, p) == |s| <==> forall i :: p <= i < |s| ==> IsSpace(s[i])
    decreases |s| - p
  {
    if p < |s| && IsSpace(s[p]) {
      AllSpace(s, p + 1);
    }
  }

  // ---------------------------------------------------------------- the prefix theorem

  /**
   * A prefix of an acceptable text is never INVALID; before the end of a root that is not a number
   * it is INCOMPLETE; from the end of the root on it is COMPLETE with the same root.
   */
  lemma ScanPrefix(t: Text, s: Text, depth: nat)
    requires t <= s && ScanText(s, depth).result.COMPLETE?
    ensures var cut, whole := ScanText(t, depth), ScanText(s, depth);
      && !cut.result.INVALID?
      && (|t| < whole.valueEnd && !whole.rootKind.RootNumber? ==> cut.result.INCOMPLETE?)
      && (|t| < whole.valueEnd && cut.result.COMPLETE? ==> cut.valueEnd == |t| && cut.rootKind.RootNumber?)
      && (whole.valueEnd <= |t| ==> cut == whole)
      && (cut.rootKind.RootNumber? ==> whole.rootKind.RootNumber?)
  {
    if t != [] {
      Utf8Extends(t, s, 0);
      SkipSpaceExtends(t, s, 0);
      var p, q := SkipSpace(t, 0), SkipSpace(s, 0);
      var e := ScanText(s, depth).valueEnd;
      AllSpace(s, e);
      SkipSpaceTwice(s, 0);
      if |t| < |s| && e <= |t| {
        assert IsSpace(s[|t|]);
      }
      ValueExtends(t, s, p, depth);
      if p < |t| {
        SkipSpaceTwice(t, 0);
        if Value(t, p, depth).Complete? {
          AllSpace(t, Value(t, p, depth).end);
          if Value(t, p, depth).end < |t| || !StartsNumber(t, p) {
            assert Value(t, p, depth).end == e;
          }
        }
      } else {
        AllSpace(t, 0);
      }
    }
  }

  lemma {:induction false} SkipSpaceTwice(s: Text, p: nat)
    requires p <= |s|
    ensures SkipSpace(s, SkipSpace(s, p)) == SkipSpace(s, p)
    decreases |s| - p
  {
    if p < |s| && IsSpace(s[p]) {
      SkipSpaceTwice(s, p + 1);
    }
  }

  /** White space behind an acceptable text changes nothing. */
  lemma ScanThenSpace(t: Text, s: Text, depth: nat)
    requires t <= s && ScanText(t, depth).result.COMPLETE?
    requires forall i :: |t| <= i < |s| ==> IsSpace(s[i])
    ensures ScanText(s, depth) == ScanText(t, depth)
  {
    var p := SkipSpace(t, 0);
    var e := ScanText(t, depth).valueEnd;
    Utf8Extends(t, s, 0);
    SpaceIsUtf8(s, |t|);
    SkipSpaceExtends(t, s, 0);
    SkipSpaceTwice(t, 0);
    AllSpace(t, 0);
    AllSpace(t, e);
    AllSpace(s, e);
    ValueExtends(t, s, p, depth);
    assert forall i :: e <= i < |s| ==> IsSpace(s[i]) by {
      forall i | e <= i < |s| ensures IsSpace(s[i]) {
        if i < |t| {
          assert t[i] == s[i];
        }
      }
    }
  }
}
