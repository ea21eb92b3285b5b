/** Where an INCOMPLETE text stops, and which unfinished characters can be finished. */
module JsonUnfinished {
  import opened Bytes
  import opened JsonSyntax
  import opened JsonPrefix

  // ---------------------------------------------------------------- characters cut short

  predicate AllHex(s: Text, p: nat, e: nat) {
    forall i :: p <= i < e <= |s| ==> IsHex(s[i])
  }

  /** The first digits of a low surrogate. */
  predicate StartsLow(s: Text, p: nat) {
    (p < |s| ==> HexValue(s[p]) == 13) && (p + 1 < |s| ==> HexValue(s[p + 1]) >= 12)
  }

  /** The octets of an unfinished escape at `p` are the beginning of one that the validator takes. */
  predicate MayFinishEscape(s: Text, p: nat)
    requires p < |s|
  {
    if |s| - p < 6 then
      AllHex(s, p + 2, |s|) && !(|s| - p >= 4 && StartsLow(s, p + 2))
    else
      (p + 6 < |s| ==> s[p + 6] == BACKSLASH) && (p + 7 < |s| ==> s[p + 7] == LOWER_U)
      && AllHex(s, p + 8, |s|) && StartsLow(s, p + 8)
  }

  /** A longer text finishes the escape only if its octets so far allow it. */
  lemma EscapeNeeds(t: Text, s: Text, p: nat)
    requires t <= s && p < |t| && t[p] == BACKSLASH && Escape(t, p).Incomplete? && Escape(s, p).Complete?
    ensures MayFinishEscape(t, p) && Escape(s, p).end > |t|
    ensures forall i :: p <= i < Escape(s, p).end ==> s[i] < 0x80
  {
    hide LowHalf, Hex4Value;
    var n := |t| - p;
    assert forall i :: p <= i < |t| ==> s[i] == t[i];
    if n >= 6 {
      PairNeeds(t, s, p);
    } else if s[p + 1] == LOWER_U {
      assert FourHex(s, p + 2);
      if n >= 4 && StartsLow(t, p + 2) {
        StartsLow4(s, p + 2);
      }
      if Escape(s, p).end > p + 6 {
        LowHalfIsAscii(s, p + 6);
      }
    }
  }

  lemma LowHalfIsAscii(s: Text, p: nat)
    requires p <= |s| && LowHalf(s, p).Complete?
    ensures LowHalf(s, p).end == p + 6 && forall i :: p <= i < p + 6 ==> s[i] < 0x80
  {
  }

  lemma PairNeeds(t: Text, s: Text, p: nat)
    requires t <= s && p + 6 <= |t| && t[p] == BACKSLASH && Escape(t, p).Incomplete? && Escape(s, p).Complete?
    ensures MayFinishEscape(t, p) && Escape(s, p).end > |t|
    ensures forall i :: p <= i < Escape(s, p).end ==> s[i] < 0x80
  {
    assert forall i :: p <= i < |t| ==> s[i] == t[i];
    assert FourHex(t, p + 2) && FourHex(s, p + 2) && Hex4Value(t, p + 2) == Hex4Value(s, p + 2);
    assert LowHalf(s, p + 6).Complete?;
    LowHalfIsAscii(s, p + 6);
    LowDigits(s, p + 8);
  }

  lemma LowDigits(s: Text, p: nat)
    requires p + 4 <= |s| && FourHex(s, p) && IsLowSurrogate(Hex4Value(s, p))
    ensures HexValue(s[p]) == 13 && HexValue(s[p + 1]) >= 12
  {
  }

  lemma StartsLow4(s: Text, p: nat)
    requires p + 4 <= |s| && FourHex(s, p) && HexValue(s[p]) == 13 && HexValue(s[p + 1]) >= 12
    ensures IsLowSurrogate(Hex4Value(s, p))
  {
  }

  const LOW_HALF: Text := [BACKSLASH, LOWER_U, 0x44, 0x43, 0x30, 0x30]

  /** Octets that finish an escape. */
  lemma FinishEscape(t: Text, p: nat) returns (w: Text)
    requires p < |t| && t[p] == BACKSLASH && Escape(t, p).Incomplete? && MayFinishEscape(t, p)
    ensures AllAscii(w) && Escape(t + w, p) == Complete(|t + w|)
  {
    hide LowHalf;
    var n := |t| - p;
    if n == 1 {
      w := [LOWER_N];
    } else if n < 6 {
      w := FinishFirstHalf(t, p);
    } else {
      UnfinishedIsHigh(t, p);
      w := LOW_HALF[n - 6..];
      FinishLowHalf(t, p + 6, w);
      EscapeWithHalf(t, w, p);
    }
  }

  lemma UnfinishedIsHigh(t: Text, p: nat)
    requires p + 6 <= |t| && Escape(t, p).Incomplete?
    ensures t[p + 1] == LOWER_U && FourHex(t, p + 2) && IsHighSurrogate(Hex4Value(t, p + 2)) && |t| < p + 12
  {
  }

  /** The digits that are there, followed by zeros, are no low surrogate. */
  lemma ZerosFollow(t: Text, p: nat, zeros: Text)
    requires p + 2 <= |t| < p + 6 && Escape(t, p).Incomplete? && MayFinishEscape(t, p)
    requires zeros == [ZERO, ZERO, ZERO, ZERO][|t| - p - 2..]
    ensures var s := t + zeros;
      |s| == p + 6 && s[p + 1] == LOWER_U && FourHex(s, p + 2) && !IsLowSurrogate(Hex4Value(s, p + 2))
  {
    hide LowHalf, Hex4Value;
    var s := t + zeros;
    assert s[p + 1] == t[p + 1] == LOWER_U;
    assert forall i :: p <= i < |t| ==> s[i] == t[i];
    assert forall i :: |t| <= i < |s| ==> s[i] == ZERO;
    if IsLowSurrogate(Hex4Value(s, p + 2)) {
      LowDigits(s, p + 2);
    }
  }

  /** Zeros finish the four digits; a high surrogate needs its other half besides. */
  lemma FinishFirstHalf(t: Text, p: nat) returns (w: Text)
    requires p + 2 <= |t| < p + 6 && Escape(t, p).Incomplete? && MayFinishEscape(t, p)
    ensures AllAscii(w) && Escape(t + w, p) == Complete(|t + w|)
  {
    hide Escape, LowHalf, Hex4Value, FourHex, MayFinishEscape;
    var zeros: Text := [ZERO, ZERO, ZERO, ZERO][|t| - p - 2..];
    var s := t + zeros;
    ZerosFollow(t, p, zeros);
    if IsHighSurrogate(Hex4Value(s, p + 2)) {
      w := zeros + LOW_HALF;
      FinishLowHalf(s, p + 6, LOW_HALF);
      assert t + w == s + LOW_HALF;
      EscapeWithHalf(s, LOW_HALF, p);
    } else {
      w := zeros;
      EscapeOfFour(s, p);
    }
  }

  lemma EscapeOfFour(s: Text, p: nat)
    requires |s| == p + 6 && s[p + 1] == LOWER_U && FourHex(s, p + 2)
    requires !IsLowSurrogate(Hex4Value(s, p + 2)) && !IsHighSurrogate(Hex4Value(s, p + 2))
    ensures Escape(s, p) == Complete(|s|)
  {
  }

  predicate AllAscii(w: Text) {
    forall i :: 0 <= i < |w| ==> w[i] < 0x80
  }

  lemma FinishLowHalf(t: Text, p: nat, w: Text)
    requires p <= |t| < p + 6 && w == LOW_HALF[|t| - p..]
    requires (p < |t| ==> t[p] == BACKSLASH) && (p + 1 < |t| ==> t[p + 1] == LOWER_U)
    requires AllHex(t, p + 2, |t|) && StartsLow(t, p + 2)
    ensures LowHalf(t + w, p) == Complete(|t + w|) && |t + w| == p + 6
  {
    var s := t + w;
    assert forall i :: p <= i < |t| ==> s[i] == t[i];
    assert forall i :: |t| <= i < p + 6 ==> s[i] == LOW_HALF[i - p];
    assert s[p] == BACKSLASH && s[p + 1] == LOWER_U && FourHex(s, p + 2);
    StartsLow4(s, p + 2);
  }

  lemma EscapeWithHalf(t: Text, w: Text, p: nat)
    requires p + 6 <= |t| && t[p + 1] == LOWER_U && FourHex(t, p + 2) && IsHighSurrogate(Hex4Value(t, p + 2))
    ensures Escape(t + w, p) == LowHalf(t + w, p + 6)
  {
    var s := t + w;
    assert forall i :: p <= i < p + 6 ==> s[i] == t[i];
    assert FourHex(s, p + 2) && Hex4Value(s, p + 2) == Hex4Value(t, p + 2);
  }

  /** Where the UTF-8 sequence starts that a text cuts short. */
  function OpenSequence(s: Text, p: nat): (i: nat)
    requires p <= |s| && Utf8(s, p).INCOMPLETE?
    ensures p <= i < |s| && |s| - i < SequenceLength(s[i])
    decreases |s| - p
  {
    var n := SequenceLength(s[p]);
    if |s| - p < n then p else OpenSequence(s, p + n)
  }

  /** The octets of an unfinished sequence at `i` are the beginning of one. */
  predicate MayFinishSequence(s: Text, i: nat)
    requires i < |s|
  {
    (i + 1 < |s| ==> SecondMin(s[i]) <= s[i + 1] <= SecondMax(s[i])) && (i + 2 < |s| ==> IsContinuation(s[i + 2]))
  }

  /** The octets that such a sequence lacks. */
  function MissingOctets(s: Text, i: nat): (c: Text)
    requires i < |s| && |s| - i < SequenceLength(s[i])
    ensures 0 < |c| <= 3 && forall k :: 0 <= k < |c| ==> 0x80 <= c[k] <= 0xBF
  {
    var rest: Text := [SecondMin(s[i]), 0x80, 0x80];
    rest[|s| - i - 1..SequenceLength(s[i]) - 1]
  }

  lemma SequenceIsKept(t: Text, s: Text, p: nat)
    requires t <= s && p < |t| && 1 <= SequenceLength(t[p]) <= |t| - p
    ensures s[p] == t[p] && (SequenceAt(s, p) <==> SequenceAt(t, p))
  {
    var n := SequenceLength(t[p]);
    assert s[p] == t[p];
    assert n >= 2 ==> s[p + 1] == t[p + 1];
    assert n >= 3 ==> s[p + 2] == t[p + 2];
    assert n >= 4 ==> s[p + 3] == t[p + 3];
  }

  lemma {:induction false} SequenceNeeds(t: Text, s: Text, p: nat)
    requires t <= s && p <= |t| && Utf8(t, p).INCOMPLETE? && Utf8(s, p).COMPLETE?
    ensures MayFinishSequence(t, OpenSequence(t, p))
    decreases |t| - p
  {
    hide SequenceAt;
    var n := SequenceLength(t[p]);
    assert s[p] == t[p];
    if |t| - p >= n {
      SequenceIsKept(t, s, p);
      SequenceNeeds(t, s, p + n);
    } else {
      LastNeeds(t, s, p);
    }
  }

  lemma LastNeeds(t: Text, s: Text, p: nat)
    requires t <= s && p < |t| && |t| - p < SequenceLength(t[p]) && Utf8(s, p).COMPLETE?
    ensures MayFinishSequence(t, p)
  {
    assert s[p] == t[p];
    assert p + 1 < |t| ==> s[p + 1] == t[p + 1];
    assert p + 2 < |t| ==> s[p + 2] == t[p + 2];
  }

  lemma {:induction false} SequenceFinishes(t: Text, p: nat)
    requires p <= |t| && Utf8(t, p).INCOMPLETE? && MayFinishSequence(t, OpenSequence(t, p))
    ensures Utf8(t + MissingOctets(t, OpenSequence(t, p)), p).COMPLETE?
    decreases |t| - p
  {
    hide SequenceAt, MayFinishSequence, MissingOctets;
    var n := SequenceLength(t[p]);
    if |t| - p >= n {
      SequenceIsKept(t, t + MissingOctets(t, OpenSequence(t, p)), p);
      SequenceFinishes(t, p + n);
    } else {
      LastSequence(t, p);
    }
  }

  lemma LastSequence(t: Text, p: nat)
    requires p < |t| && |t| - p < SequenceLength(t[p]) && MayFinishSequence(t, p)
    ensures Utf8(t + MissingOctets(t, p), p).COMPLETE?
  {
    var c := MissingOctets(t, p);
    var s, n, m := t + c, SequenceLength(t[p]), |t| - p;
    var rest: Text := [SecondMin(t[p]), 0x80, 0x80];
    assert |s| == p + n && s[p] == t[p] && c == rest[m - 1..n - 1];
    assert n >= 2 ==> s[p + 1] == if m > 1 then t[p + 1] else rest[0];
    assert n >= 3 ==> s[p + 2] == if m > 2 then t[p + 2] else rest[1];
    assert n >= 4 ==> s[p + 3] == rest[2];
    assert SequenceAt(s, p);
  }

  // ---------------------------------------------------------------- where an incomplete text stops

  // In an open string the position of the last character that has begun; otherwise nothing. The position
  // is the end of the text, unless an escape is unfinished.

  function OpenBody(s: Text, p: nat): (b: nat)
    requires p <= |s| && StringBody(s, p).Incomplete?
    ensures p <= b <= |s| && (b < |s| ==> s[b] == BACKSLASH && Escape(s, b).Incomplete?)
    decreases |s| - p
  {
    if p >= |s| then p
    else if s[p] != BACKSLASH then OpenBody(s, p + 1)
    else if Escape(s, p).Complete? then OpenBody(s, Escape(s, p).end)
    else p
  }

  function OpenString(s: Text, p: nat): (b: Option<nat>)
    requires p <= |s| && String(s, p).Incomplete?
    ensures b.Some? ==> b.value <= |s| && (b.value < |s| ==> s[b.value] == BACKSLASH && Escape(s, b.value).Incomplete?)
  {
    if p >= |s| then None else Some(OpenBody(s, p + 1))
  }

  predicate IsOpen(s: Text, b: Option<nat>) {
    b.Some? ==> b.value <= |s| && (b.value < |s| ==> s[b.value] == BACKSLASH && Escape(s, b.value).Incomplete?)
  }

  function OpenValue(s: Text, p: nat, room: nat): (b: Option<nat>)
    requires p <= |s| && Value(s, p, room).Incomplete?
    ensures IsOpen(s, b)
    decreases |s| - p, 2
  {
    var q := SkipSpace(s, p);
    if q >= |s| then None
    else if s[q] == LBRACE then OpenObject(s, q, room - 1)
    else if s[q] == LBRACKET then OpenArray(s, q, room - 1)
    else if s[q] == QUOTE then OpenString(s, q)
    else None
  }

  function OpenArray(s: Text, p: nat, room: nat): (b: Option<nat>)
    requires p < |s| && Array(s, p, room).Incomplete?
    ensures IsOpen(s, b)
    decreases |s| - p, 1
  {
    var q := SkipSpace(s, p + 1);
    if q >= |s| then None else OpenElements(s, q, room)
  }

  function OpenElements(s: Text, p: nat, room: nat): (b: Option<nat>)
    requires p <= |s| && Elements(s, p, room).Incomplete?
    ensures IsOpen(s, b)
    decreases |s| - p, 3
  {
    if Value(s, p, room).Incomplete? then OpenValue(s, p, room)
    else OpenElementsTail(s, Value(s, p, room).end, room)
  }

  function OpenElementsTail(s: Text, p: nat, room: nat): (b: Option<nat>)
    requires p <= |s| && ElementsTail(s, p, room).Incomplete?
    ensures IsOpen(s, b)
    decreases |s| - p, 4
  {
    var q := SkipSpace(s, p);
    if q >= |s| || SkipSpace(s, q + 1) >= |s| then None else OpenElements(s, SkipSpace(s, q + 1), room)
  }

  function OpenObject(s: Text, p: nat, room: nat): (b: Option<nat>)
    requires p < |s| && Object(s, p, room).Incomplete?
    ensures IsOpen(s, b)
    decreases |s| - p, 1
  {
    var q := SkipSpace(s, p + 1);
    if q >= |s| then None else OpenMembers(s, q, room)
  }

  function OpenMembers(s: Text, p: nat, room: nat): (b: Option<nat>)
    requires p <= |s| && Members(s, p, room).Incomplete?
    ensures IsOpen(s, b)
    decreases |s| - p, 3
  {
    if Member(s, p, room).Incomplete? then OpenMember(s, p, room)
    else OpenMembersTail(s, Member(s, p, room).end, room)
  }

  function OpenMembersTail(s: Text, p: nat, room: nat): (b: Option<nat>)
    requires p <= |s| && MembersTail(s, p, room).Incomplete?
    ensures IsOpen(s, b)
    decreases |s| - p, 4
  {
    var q := SkipSpace(s, p);
    if q >= |s| || SkipSpace(s, q + 1) >= |s| then None else OpenMembers(s, SkipSpace(s, q + 1), room)
  }

  function OpenMember(s: Text, p: nat, room: nat): (b: Option<nat>)
    requires p <= |s| && Member(s, p, room).Incomplete?
    ensures IsOpen(s, b)
    decreases |s| - p, 2
  {
    if String(s, p).Incomplete? then OpenString(s, p) else OpenMemberTail(s, String(s, p).end, room)
  }

  function OpenMemberTail(s: Text, p: nat, room: nat): (b: Option<nat>)
    requires p <= |s| && MemberTail(s, p, room).Incomplete?
    ensures IsOpen(s, b)
    decreases |s| - p, 3
  {
    var q := SkipSpace(s, p);
    if q >= |s| then None else OpenValue(s, q + 1, room)
  }

  lemma {:induction false} BodyResumes(t: Text, s: Text, p: nat)
    requires t <= s && p <= |t| && StringBody(t, p).Incomplete?
    ensures StringBody(s, p) == StringBody(s, OpenBody(t, p))
    decreases |t| - p
  {
    hide Escape;
    if p < |t| {
      assert s[p] == t[p];
      if t[p] != BACKSLASH {
        BodyResumes(t, s, p + 1);
      } else {
        EscapeExtends(t, s, p);
        if Escape(t, p).Complete? {
          BodyResumes(t, s, Escape(t, p).end);
        }
      }
    }
  }
}
