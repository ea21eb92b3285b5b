/** UTF-8 as RFC 3629, section 3 defines it, and the theorem that the validator accepts exactly that. */
module Unicode {
  import opened Bytes
  import opened JsonSyntax

  /** A Unicode scalar value: any code point but a surrogate. */
  predicate IsScalar(c: nat) {
    c < 0xD800 || 0xE000 <= c <= 0x10FFFF
  }

  function Encode(c: nat): (s: Text)
    requires IsScalar(c)
    ensures 1 <= |s| <= 4
  {
    if c < 0x80 then [c]
    else if c < 0x800 then [0xC0 + c / 64, 0x80 + c % 64]
    else
      var high := c / 64;
      if c < 0x1_0000 then [0xE0 + high / 64, 0x80 + high % 64, 0x80 + c % 64]
      else
        var top := high / 64;
        [0xF0 + top / 64, 0x80 + top % 64, 0x80 + high % 64, 0x80 + c % 64]
  }

  predicate AllScalars(cs: seq<nat>) {
    forall i :: 0 <= i < |cs| ==> IsScalar(cs[i])
  }

  function EncodeAll(cs: seq<nat>): Text
    requires AllScalars(cs)
  {
    if cs == [] then [] else Encode(cs[0]) + EncodeAll(cs[1..])
  }

  /** A whole UTF-8 sequence stands at `p`. */
  predicate WholeSequenceAt(s: Text, p: nat) {
    p < |s| && 1 <= SequenceLength(s[p]) <= |s| - p && SequenceAt(s, p)
  }

  function Low(b: byte, modulus: nat): (v: nat)
    requires modulus > 0
  {
    (b as int) % modulus
  }

  /** The payload bits of the sequence at `p`, as the decoders of the C code gather them. */
  function CodePointAt(s: Text, p: nat): (c: nat)
    requires WholeSequenceAt(s, p)
  {
    var n := SequenceLength(s[p]);
    if n == 1 then s[p]
    else if n == 2 then Low(s[p], 64) * 64 + Low(s[p + 1], 64)
    else if n == 3 then (Low(s[p], 32) * 64 + Low(s[p + 1], 64)) * 64 + Low(s[p + 2], 64)
    else ((Low(s[p], 16) * 64 + Low(s[p + 1], 64)) * 64 + Low(s[p + 2], 64)) * 64 + Low(s[p + 3], 64)
  }

  /** Division undoes the shift by six bits. */
  lemma Shift6(high: nat, low: nat)
    requires low < 64
    ensures (high * 64 + low) / 64 == high && (high * 64 + low) % 64 == low
  {
  }

  lemma LowOfContinuation(b: byte)
    ensures IsContinuation(b) ==> Low(b, 64) == b - 0x80
    ensures SequenceLength(b) == 2 ==> Low(b, 64) == b - 0xC0
    ensures SequenceLength(b) == 3 ==> Low(b, 32) == b - 0xE0
    ensures SequenceLength(b) == 4 ==> Low(b, 16) == b - 0xF0
  {
  }

  lemma EncodeTwo(a: nat, b: nat)
    requires 2 <= a < 32 && b < 64
    ensures Encode(a * 64 + b) == [0xC0 + a, 0x80 + b]
  {
    Shift6(a, b);
  }

  lemma EncodeThree(a: nat, b: nat, c: nat)
    requires a < 16 && b < 64 && c < 64 && (a == 0 ==> b >= 32) && (a == 13 ==> b < 32)
    ensures IsScalar((a * 64 + b) * 64 + c)
    ensures Encode((a * 64 + b) * 64 + c) == [0xE0 + a, 0x80 + b, 0x80 + c]
  {
    Shift6(a * 64 + b, c);
    Shift6(a, b);
  }

  lemma EncodeFour(a: nat, b: nat, c: nat, d: nat)
    requires a < 5 && b < 64 && c < 64 && d < 64 && (a == 0 ==> b >= 16) && (a == 4 ==> b < 16)
    ensures IsScalar(((a * 64 + b) * 64 + c) * 64 + d)
    ensures Encode(((a * 64 + b) * 64 + c) * 64 + d) == [0xF0 + a, 0x80 + b, 0x80 + c, 0x80 + d]
  {
    Shift6((a * 64 + b) * 64 + c, d);
    Shift6(a * 64 + b, c);
    Shift6(a, b);
  }

  lemma DecodedIsScalar(s: Text, p: nat)
    requires WholeSequenceAt(s, p)
    ensures IsScalar(CodePointAt(s, p))
    ensures s[p..p + SequenceLength(s[p])] == Encode(CodePointAt(s, p))
  {
    hide CodePointAt, Encode;
    var n := SequenceLength(s[p]);
    if n == 1 {
      DecodedOne(s, p);
    } else if n == 2 {
      DecodedTwo(s, p);
    } else if n == 3 {
      DecodedThree(s, p);
    } else {
      DecodedFour(s, p);
    }
  }

  lemma DecodedOne(s: Text, p: nat)
    requires WholeSequenceAt(s, p) && SequenceLength(s[p]) == 1
    ensures IsScalar(CodePointAt(s, p)) && s[p..p + 1] == Encode(CodePointAt(s, p))
  {
  }

  lemma DecodedTwo(s: Text, p: nat)
    requires WholeSequenceAt(s, p) && SequenceLength(s[p]) == 2
    ensures IsScalar(CodePointAt(s, p)) && s[p..p + 2] == Encode(CodePointAt(s, p))
  {
    hide Encode, Low;
    LowOfContinuation(s[p]);
    LowOfContinuation(s[p + 1]);
    EncodeTwo(Low(s[p], 64), Low(s[p + 1], 64));
  }

  lemma DecodedThree(s: Text, p: nat)
    requires WholeSequenceAt(s, p) && SequenceLength(s[p]) == 3
    ensures IsScalar(CodePointAt(s, p)) && s[p..p + 3] == Encode(CodePointAt(s, p))
  {
    hide Encode, Low;
    LowOfContinuation(s[p]);
    LowOfContinuation(s[p + 1]);
    LowOfContinuation(s[p + 2]);
    EncodeThree(Low(s[p], 32), Low(s[p + 1], 64), Low(s[p + 2], 64));
  }

  lemma DecodedFour(s: Text, p: nat)
    requires WholeSequenceAt(s, p) && SequenceLength(s[p]) == 4
    ensures IsScalar(CodePointAt(s, p)) && s[p..p + 4] == Encode(CodePointAt(s, p))
  {
    hide Encode, Low;
    LowOfContinuation(s[p]);
    LowOfContinuation(s[p + 1]);
    LowOfContinuation(s[p + 2]);
    LowOfContinuation(s[p + 3]);
    EncodeFour(Low(s[p], 16), Low(s[p + 1], 64), Low(s[p + 2], 64), Low(s[p + 3], 64));
  }

  /** The first `|e|` octets from `p` on are `e`. */
  lemma SliceAt(s: Text, p: nat, e: Text)
    requires p + |e| <= |s| && s[p..p + |e|] == e
    ensures forall i :: 0 <= i < |e| ==> s[p + i] == e[i]
  {
    forall i | 0 <= i < |e| ensures s[p + i] == e[i] {
      assert s[p..p + |e|][i] == e[i];
    }
  }

  lemma EncodedIsWhole(s: Text, p: nat, c: nat)
    requires IsScalar(c) && p + |Encode(c)| <= |s| && s[p..p + |Encode(c)|] == Encode(c)
    ensures WholeSequenceAt(s, p) && SequenceLength(s[p]) == |Encode(c)| && CodePointAt(s, p) == c
  {
    var e := Encode(c);
    SliceAt(s, p, e);
    assert s[p] == s[p + 0] == e[0];
    LowOfContinuation(e[0]);
    if |e| >= 2 { LowOfContinuation(e[1]); }
    if |e| >= 3 { LowOfContinuation(e[2]); }
    if |e| >= 4 { LowOfContinuation(e[3]); }
  }

  /** The code points of a well-formed text. */
  function CodePoints(s: Text, p: nat): (cs: seq<nat>)
    requires p <= |s| && Utf8(s, p).COMPLETE?
    decreases |s| - p
  {
    if p == |s| then [] else [CodePointAt(s, p)] + CodePoints(s, p + SequenceLength(s[p]))
  }

  lemma {:induction false} CodePointsEncode(s: Text, p: nat)
    requires p <= |s| && Utf8(s, p).COMPLETE?
    ensures AllScalars(CodePoints(s, p)) && EncodeAll(CodePoints(s, p)) == s[p..]
    decreases |s| - p
  {
    hide CodePointAt, Encode, SequenceAt;
    if p < |s| {
      var n := SequenceLength(s[p]);
      DecodedIsScalar(s, p);
      CodePointsEncode(s, p + n);
      assert s[p..] == s[p..p + n] + s[p + n..];
    }
  }

  lemma SplitFirst(s: Text, p: nat, cs: seq<nat>)
    requires AllScalars(cs) && cs != [] && p <= |s| && s[p..] == EncodeAll(cs)
    ensures var e := Encode(cs[0]);
      (p + |e| <= |s| && s[p..p + |e|] == e && s[p + |e|..] == EncodeAll(cs[1..]))
  {
    hide Encode;
    var e := Encode(cs[0]);
    assert s[p..p + |e|] == s[p..][..|e|];
    assert s[p + |e|..] == s[p..][|e|..];
  }

  lemma FirstSequence(s: Text, p: nat)
    requires WholeSequenceAt(s, p)
    ensures Utf8(s, p) == Utf8(s, p + SequenceLength(s[p]))
    ensures Utf8(s, p).COMPLETE? ==> CodePoints(s, p) == [CodePointAt(s, p)] + CodePoints(s, p + SequenceLength(s[p]))
  {
    hide CodePointAt, SequenceAt;
  }

  lemma NoSequence(s: Text)
    ensures Utf8(s, |s|).COMPLETE? && CodePoints(s, |s|) == []
  {
  }

  lemma {:induction false} EncodeDecodes(s: Text, p: nat, cs: seq<nat>)
    requires AllScalars(cs) && p <= |s| && s[p..] == EncodeAll(cs)
    ensures Utf8(s, p).COMPLETE? && CodePoints(s, p) == cs
    decreases |cs|
  {
    hide Encode, CodePointAt, SequenceAt, Utf8, CodePoints, WholeSequenceAt;
    if cs != [] {
      var n := |Encode(cs[0])|;
      SplitFirst(s, p, cs);
      EncodedIsWhole(s, p, cs[0]);
      EncodeDecodes(s, p + n, cs[1..]);
      FirstSequence(s, p);
    } else {
      NoSequence(s);
    }
  }

  /** The validator accepts exactly the encodings of sequences of scalar values. */
  lemma ValidatorDecidesUtf8(s: Text)
    ensures Utf8(s, 0).COMPLETE? <==> exists cs :: AllScalars(cs) && EncodeAll(cs) == s
  {
    assert s[0..] == s;
    if Utf8(s, 0).COMPLETE? {
      CodePointsEncode(s, 0);
    }
    if cs :| AllScalars(cs) && EncodeAll(cs) == s {
      EncodeDecodes(s, 0, cs);
    }
  }

}
