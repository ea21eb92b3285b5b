/** The meaning of JSON strings, the decoders of src/protocol/rpc.c and src/lighting/model.c, and the writer. */
module JsonString {
  import opened Bytes
  import opened JsonSyntax
  import opened JsonPrefix
  import opened Unicode

  // ---------------------------------------------------------------- the meaning of a string

  /** A position between two characters of a string body of well-formed UTF-8. */
  predicate AtCharacter(s: Text, p: nat) {
    p < |s| && StringBody(s, p).Complete? && Utf8(s, p).COMPLETE?
  }

  /** The code point that an escape stands for, section 7 of RFC 8259. */
  function EscapeMeaning(s: Text, p: nat): nat
    requires p < |s| && Escape(s, p).Complete?
  {
    var c := s[p + 1];
    if c == LOWER_B then 0x08
    else if c == LOWER_F then 0x0C
    else if c == LOWER_N then 0x0A
    else if c == LOWER_R then 0x0D
    else if c == LOWER_T then 0x09
    else if c != LOWER_U then c
    else
      var first := Hex4Value(s, p + 2);
      if IsHighSurrogate(first) then 0x1_0000 + (first - 0xD800) * 0x400 + (Hex4Value(s, p + 8) - 0xDC00)
      else first
  }

  lemma EscapeIsAscii(s: Text, p: nat)
    requires p < |s| && s[p] == BACKSLASH && Escape(s, p).Complete?
    ensures forall i :: p <= i < Escape(s, p).end ==> s[i] < 0x80
  {
    hide Hex4Value;
  }

  /** The octets of a UTF-8 sequence mean nothing to the scanner of strings. */
  lemma SequenceIsSkipped(s: Text, p: nat)
    requires AtCharacter(s, p) && s[p] >= 0x80
    ensures WholeSequenceAt(s, p) && StringBody(s, p) == StringBody(s, p + SequenceLength(s[p]))
    ensures Utf8(s, p + SequenceLength(s[p])).COMPLETE?
  {
    hide Escape;
    var n := SequenceLength(s[p]);
    assert StringBody(s, p) == StringBody(s, p + 1);
    assert StringBody(s, p + 1) == StringBody(s, p + 2);
    if n >= 3 { assert StringBody(s, p + 2) == StringBody(s, p + 3); }
    if n >= 4 { assert StringBody(s, p + 3) == StringBody(s, p + 4); }
  }

  /** The position behind the character at `p`. */
  function AfterCharacter(s: Text, p: nat): (q: nat)
    requires AtCharacter(s, p) && s[p] != QUOTE
    ensures p < q && AtCharacter(s, q) && StringBody(s, q) == StringBody(s, p)
  {
    if s[p] == BACKSLASH then
      EscapeIsAscii(s, p);
      AsciiRun(s, p, Escape(s, p).end);
      Escape(s, p).end
    else if s[p] < 0x80 then p + 1
    else
      SequenceIsSkipped(s, p);
      p + SequenceLength(s[p])
  }

  function CharacterAt(s: Text, p: nat): nat
    requires AtCharacter(s, p) && s[p] != QUOTE
  {
    if s[p] == BACKSLASH then EscapeMeaning(s, p)
    else if s[p] < 0x80 then s[p]
    else
      SequenceIsSkipped(s, p);
      CodePointAt(s, p)
  }

  /** The code points of a string from a position in its body on. */
  function Meaning(s: Text, p: nat): seq<nat>
    requires AtCharacter(s, p)
    decreases |s| - p
  {
    if s[p] == QUOTE then [] else [CharacterAt(s, p)] + Meaning(s, AfterCharacter(s, p))
  }

  /** A string token on its own. */
  predicate IsToken(t: Text) {
    String(t, 0) == Complete(|t|) && Utf8(t, 0).COMPLETE?
  }

  lemma TokenBodyIsAtCharacter(t: Text)
    requires IsToken(t)
    ensures AtCharacter(t, 1) && StringBody(t, 1) == Complete(|t|)
  {
  }

  function Decoded(t: Text): seq<nat>
    requires IsToken(t)
  {
    TokenBodyIsAtCharacter(t);
    Meaning(t, 1)
  }

  // ---------------------------------------------------------------- the decoding loops

  /** `hex_value` of the decoders, which does not check its argument. */
  function UncheckedHex(b: byte): int {
    if 0x30 <= b <= 0x39 then b - 0x30
    else if 0x61 <= b <= 0x66 then b - 0x61 + 10
    else b - 0x41 + 10
  }

  method DecodeHex4(t: Text, start: nat) returns (value: nat)
    requires start + 4 <= |t| && FourHex(t, start)
    ensures value == Hex4Value(t, start)
  {
    value := 0;
    var i := 0;
    while i < 4
      invariant 0 <= i <= 4
      invariant i == 0 ==> value == 0
      invariant i == 1 ==> value == HexValue(t[start])
      invariant i == 2 ==> value == HexValue(t[start]) * 16 + HexValue(t[start + 1])
      invariant i == 3 ==> value == (HexValue(t[start]) * 16 + HexValue(t[start + 1])) * 16 + HexValue(t[start + 2])
      invariant i == 4 ==> value == Hex4Value(t, start)
    {
      assert i == 0 || i == 1 || i == 2 || i == 3;
      assert IsHex(t[start + i]);
      value := value * 16 + UncheckedHex(t[start + i]);
      i := i + 1;
    }
  }

  /**
   * `next_string_codepoint`: without a look at any length but that of the token it reads exactly the
   * next character of a validated token, and reports the end exactly at the closing quote.
   */
  method NextCodepoint(t: Text, pos: nat) returns (has: bool, codepoint: nat, next: nat)
    requires AtCharacter(t, pos) && StringBody(t, pos) == Complete(|t|)
    ensures AtCharacter(t, next) && StringBody(t, next) == Complete(|t|)
    ensures has <==> t[pos] != QUOTE
    ensures has ==> next == AfterCharacter(t, pos) && codepoint == CharacterAt(t, pos)
    ensures !has ==> next == pos
  {
    codepoint, next := 0, pos;
    if pos >= |t| - 1 {
      return false, codepoint, next;
    }
    var b := t[next];
    next := next + 1;
    if b == BACKSLASH {
      var escape := t[next];
      next := next + 1;
      assert AfterCharacter(t, pos) == Escape(t, pos).end && CharacterAt(t, pos) == EscapeMeaning(t, pos);
      if escape == QUOTE || escape == BACKSLASH || escape == SLASH {
        assert Escape(t, pos) == Complete(pos + 2) && EscapeMeaning(t, pos) == escape;
        return true, escape, next;
      } else if escape == LOWER_B {
        return true, 0x08, next;
      } else if escape == LOWER_F {
        return true, 0x0C, next;
      } else if escape == LOWER_N {
        return true, 0x0A, next;
      } else if escape == LOWER_R {
        return true, 0x0D, next;
      } else if escape == LOWER_T {
        return true, 0x09, next;
      }
      var first := DecodeHex4(t, next);
      next := next + 4;
      if IsHighSurrogate(first) {
        next := next + 2;
        var second := DecodeHex4(t, next);
        next := next + 4;
        codepoint := 0x1_0000 + (first - 0xD800) * 0x400 + (second - 0xDC00);
      } else {
        codepoint := first;
      }
      assert Escape(t, pos) == Complete(next) && EscapeMeaning(t, pos) == codepoint;
      return true, codepoint, next;
    }
    if b < 0x80 {
      return true, b, next;
    }
    SequenceIsSkipped(t, pos);
    var continuationCount := if b < 0xE0 then 1 else if b < 0xF0 then 2 else 3;
    var value: nat := if continuationCount == 1 then Low(b, 64) else if continuationCount == 2 then Low(b, 32) else Low(b, 16);
    var i := 0;
    while i < continuationCount
      invariant 0 <= i <= continuationCount && next == pos + 1 + i
      invariant i == 0 ==> value == if continuationCount == 1 then Low(b, 64) else if continuationCount == 2 then Low(b, 32) else Low(b, 16)
      invariant continuationCount == 1 && i == 1 ==> value == CodePointAt(t, pos)
      invariant continuationCount == 2 && i == 1 ==> value == Low(b, 32) * 64 + Low(t[pos + 1], 64)
      invariant continuationCount == 2 && i == 2 ==> value == CodePointAt(t, pos)
      invariant continuationCount == 3 && i == 1 ==> value == Low(b, 16) * 64 + Low(t[pos + 1], 64)
      invariant continuationCount == 3 && i == 2 ==> value == (Low(b, 16) * 64 + Low(t[pos + 1], 64)) * 64 + Low(t[pos + 2], 64)
      invariant continuationCount == 3 && i == 3 ==> value == CodePointAt(t, pos)
    {
      value := value * 64 + Low(t[next], 64);
      next := next + 1;
      i := i + 1;
    }
    return true, value, next;
  }

  /** `strings_equal`: equality of what the tokens mean, however they are escaped. */
  method StringsEqual(left: Text, right: Text) returns (equal: bool)
    requires IsToken(left) && IsToken(right)
    ensures equal <==> Decoded(left) == Decoded(right)
  {
    hide StringBody, Utf8, String, AfterCharacter, CharacterAt, Meaning;
    TokenBodyIsAtCharacter(left);
    TokenBodyIsAtCharacter(right);
    var leftPos, rightPos := 1, 1;
    while true
      invariant AtCharacter(left, leftPos) && StringBody(left, leftPos) == Complete(|left|)
      invariant AtCharacter(right, rightPos) && StringBody(right, rightPos) == Complete(|right|)
      invariant Decoded(left) == Decoded(right) <==> Meaning(left, leftPos) == Meaning(right, rightPos)
      decreases |left| - leftPos
    {
      var hasLeft, leftCodepoint, leftNext := NextCodepoint(left, leftPos);
      var hasRight, rightCodepoint, rightNext := NextCodepoint(right, rightPos);
      MeaningStep(left, leftPos);
      MeaningStep(right, rightPos);
      if !hasLeft || !hasRight {
        return hasLeft == hasRight;
      }
      if leftCodepoint != rightCodepoint {
        return false;
      }
      assert Meaning(left, leftPos)[1..] == Meaning(left, leftNext);
      assert Meaning(right, rightPos)[1..] == Meaning(right, rightNext);
      leftPos, rightPos := leftNext, rightNext;
    }
  }

  lemma MeaningStep(s: Text, p: nat)
    requires AtCharacter(s, p)
    ensures p < |s|
    ensures if s[p] == QUOTE then Meaning(s, p) == []
            else |Meaning(s, p)| > 0 && Meaning(s, p)[0] == CharacterAt(s, p)
                 && AfterCharacter(s, p) <= |s| && Meaning(s, p)[1..] == Meaning(s, AfterCharacter(s, p))
  {
  }

  /** The code points of an ASCII literal. */
  function Codes(literal: Text): (c: seq<nat>)
    ensures |c| == |literal| && forall i :: 0 <= i < |c| ==> c[i] == literal[i]
  {
    seq(|literal|, i requires 0 <= i < |literal| => literal[i])
  }

  predicate IsQuoted(t: Text) {
    |t| >= 2 && t[0] == QUOTE && t[|t| - 1] == QUOTE
  }

  /** `string_equals_literal`, for a token or a text that is no string; the literal is a C string. */
  method EqualsLiteral(t: Text, literal: Text) returns (equal: bool)
    requires IsToken(t) || (t != [] && t[0] != QUOTE)
    ensures equal <==> IsToken(t) && Decoded(t) == Codes(literal)
  {
    hide StringBody, Utf8, String, AfterCharacter, CharacterAt, Meaning;
    if |t| < 2 || t[0] != QUOTE || t[|t| - 1] != QUOTE {
      if IsToken(t) {
        TokenIsQuoted(t);
      }
      return false;
    }
    TokenBodyIsAtCharacter(t);
    var pos, literalPos := 1, 0;
    var has, codepoint, next := NextCodepoint(t, pos);
    MeaningStep(t, pos);
    while has
      invariant AtCharacter(t, pos) && StringBody(t, pos) == Complete(|t|)
      invariant AtCharacter(t, next) && StringBody(t, next) == Complete(|t|)
      invariant literalPos <= |literal|
      invariant Decoded(t) == Codes(literal)[..literalPos] + Meaning(t, pos)
      invariant has ==> |Meaning(t, pos)| > 0 && Meaning(t, pos)[0] == codepoint && Meaning(t, pos)[1..] == Meaning(t, next)
      invariant has ==> pos < next
      invariant !has ==> Meaning(t, pos) == []
      decreases |t| - pos, has
    {
      assert Decoded(t)[literalPos] == codepoint;
      if codepoint > 0xFF || literalPos == |literal| || codepoint != literal[literalPos] {
        return false;
      }
      assert Codes(literal)[..literalPos + 1] == Codes(literal)[..literalPos] + [codepoint];
      assert Meaning(t, pos) == [codepoint] + Meaning(t, next);
      literalPos := literalPos + 1;
      pos := next;
      has, codepoint, next := NextCodepoint(t, pos);
      MeaningStep(t, pos);
    }
    assert Decoded(t) == Codes(literal)[..literalPos];
    return literalPos == |literal|;
  }

  lemma TokenIsQuoted(t: Text)
    requires IsToken(t)
    ensures IsQuoted(t)
  {
    StringEndsInQuote(t, 1);
  }

  lemma {:induction false} StringEndsInQuote(s: Text, p: nat)
    requires p <= |s| && StringBody(s, p).Complete?
    ensures s[StringBody(s, p).end - 1] == QUOTE
    decreases |s| - p
  {
    if s[p] != QUOTE {
      StringEndsInQuote(s, if s[p] != BACKSLASH then p + 1 else Escape(s, p).end);
    }
  }

  // ---------------------------------------------------------------- printing

  function HexDigit(n: nat): byte
    requires n < 16
  {
    if n < 10 then 0x30 + n else 0x61 + n - 10
  }

  /** What `write_json_string` writes for one octet. */
  function EscapeOctet(b: byte): (e: Text)
    ensures 1 <= |e| <= 6
  {
    if b == QUOTE then [BACKSLASH, QUOTE]
    else if b == BACKSLASH then [BACKSLASH, BACKSLASH]
    else if b == 0x08 then [BACKSLASH, LOWER_B]
    else if b == 0x0C then [BACKSLASH, LOWER_F]
    else if b == 0x0A then [BACKSLASH, LOWER_N]
    else if b == 0x0D then [BACKSLASH, LOWER_R]
    else if b == 0x09 then [BACKSLASH, LOWER_T]
    else if b < 0x20 then [BACKSLASH, LOWER_U, ZERO, ZERO, HexDigit(b / 16), HexDigit(b % 16)]
    else [b]
  }

  function Escaped(v: Text): Text {
    if v == [] then [] else EscapeOctet(v[0]) + Escaped(v[1..])
  }

  function Printed(v: Text): Text {
    [QUOTE] + Escaped(v) + [QUOTE]
  }

  /** The next octets of `s` are `e`. */
  ghost predicate StartsAt(s: Text, p: nat, e: Text) {
    p + |e| <= |s| && s[p..p + |e|] == e
  }

  lemma StartsSplit(s: Text, p: nat, a: Text, b: Text)
    requires StartsAt(s, p, a + b)
    ensures StartsAt(s, p, a) && StartsAt(s, p + |a|, b)
    ensures forall i :: 0 <= i < |a| ==> s[p + i] == a[i]
  {
    assert s[p..p + |a|] == s[p..p + |a + b|][..|a|];
    assert s[p + |a|..p + |a| + |b|] == s[p..p + |a + b|][|a|..];
    SliceAt(s, p, a);
  }

  lemma EscapeReads(s: Text, p: nat, b: byte)
    requires b < 0x80 && StartsAt(s, p, EscapeOctet(b)) && EscapeOctet(b)[0] == BACKSLASH
    ensures p < |s| && s[p] == BACKSLASH && Escape(s, p) == Complete(p + |EscapeOctet(b)|) && EscapeMeaning(s, p) == b
  {
    var e := EscapeOctet(b);
    SliceAt(s, p, e);
    assert s[p + 0] == e[0] && s[p + 1] == e[1];
    if |e| == 6 {
      assert s[p + 2] == e[2] && s[p + 3] == e[3] && s[p + 4] == e[4] && s[p + 5] == e[5];
      assert HexValue(HexDigit(b / 16)) == b / 16 && HexValue(HexDigit(b % 16)) == b % 16;
    }
  }

  lemma HighOctet(b: byte)
    requires b >= 0x80
    ensures EscapeOctet(b) == [b]
  {
  }

  lemma {:induction false} VerbatimOctets(v: Text, n: nat)
    requires n <= |v| && forall i :: 0 <= i < n ==> v[i] >= 0x80
    ensures Escaped(v) == v[..n] + Escaped(v[n..])
  {
    hide EscapeOctet;
    if n > 0 {
      HighOctet(v[0]);
      var rest := v[1..];
      VerbatimOctets(rest, n - 1);
      assert rest[n - 1..] == v[n..];
      assert v[..n] == [v[0]] + rest[..n - 1];
      assert ([v[0]] + rest[..n - 1]) + Escaped(v[n..]) == [v[0]] + (rest[..n - 1] + Escaped(v[n..]));
    } else {
      assert v[0..] == v;
    }
  }

  /** Texts that agree from two positions on agree about the sequence there and behind it. */
  lemma SameSequence(s: Text, p: nat, t: Text, q: nat)
    requires p < |s| && q < |t| && s[p..] == t[q..]
    ensures s[p] == t[q] && |s| - p == |t| - q
    ensures var n := SequenceLength(s[p]); n <= |s| - p ==> s[p + n..] == t[q + n..]
    ensures 0 < SequenceLength(s[p]) <= |s| - p ==> SequenceAt(s, p) == SequenceAt(t, q)
    ensures WholeSequenceAt(s, p) ==> WholeSequenceAt(t, q) && CodePointAt(s, p) == CodePointAt(t, q)
  {
    assert |s| - p == |s[p..]| == |t| - q;
    assert s[p] == s[p..][0] && t[q] == t[q..][0];
    var n := SequenceLength(s[p]);
    if n <= |s| - p {
      assert s[p + n..] == s[p..][n..] && t[q + n..] == t[q..][n..];
    }
    if 2 <= n <= |s| - p { assert s[p + 1] == s[p..][1] && t[q + 1] == t[q..][1]; }
    if 3 <= n <= |s| - p { assert s[p + 2] == s[p..][2] && t[q + 2] == t[q..][2]; }
    if 4 <= n <= |s| - p { assert s[p + 3] == s[p..][3] && t[q + 3] == t[q..][3]; }
  }

  lemma {:induction false} Utf8Shift(s: Text, p: nat, t: Text, q: nat)
    requires p <= |s| && q <= |t| && s[p..] == t[q..]
    ensures Utf8(s, p) == Utf8(t, q)
    decreases |s| - p
  {
    hide SequenceAt, CodePointAt, WholeSequenceAt;
    if p < |s| {
      assert |s[p..]| == |t[q..]|;
      SameSequence(s, p, t, q);
      var n := SequenceLength(s[p]);
      if 0 < n <= |s| - p {
        Utf8Shift(s, p + n, t, q + n);
      }
    } else {
      assert |s[p..]| == |t[q..]|;
    }
  }

  lemma AsciiPart(s: Text, p: nat, v: Text)
    requires Utf8(v, 0).COMPLETE? && v != [] && v[0] < 0x80 && StartsAt(s, p, Escaped(v) + [QUOTE])
    ensures var e := EscapeOctet(v[0]);
      StartsAt(s, p, e) && StartsAt(s, p + |e|, Escaped(v[1..]) + [QUOTE])
      && |Escaped(v)| == |e| + |Escaped(v[1..])|
      && Utf8(v[1..], 0).COMPLETE? && CodePoints(v, 0) == [v[0]] + CodePoints(v[1..], 0)
  {
    hide EscapeOctet, StartsAt, Utf8;
    var e := EscapeOctet(v[0]);
    assert Escaped(v) + [QUOTE] == e + (Escaped(v[1..]) + [QUOTE]);
    StartsSplit(s, p, e, Escaped(v[1..]) + [QUOTE]);
    CodePointsShift(v, 1);
  }

  lemma SequencePart(s: Text, p: nat, v: Text)
    requires Utf8(v, 0).COMPLETE? && v != [] && v[0] >= 0x80 && StartsAt(s, p, Escaped(v) + [QUOTE])
    ensures var n := SequenceLength(v[0]);
      2 <= n <= |v| && StartsAt(s, p, v[..n]) && StartsAt(s, p + n, Escaped(v[n..]) + [QUOTE])
      && |Escaped(v)| == n + |Escaped(v[n..])|
      && WholeSequenceAt(v, 0)
      && Utf8(v[n..], 0).COMPLETE? && CodePoints(v, 0) == [CodePointAt(v, 0)] + CodePoints(v[n..], 0)
  {
    hide EscapeOctet, CodePointAt;
    var n := SequenceLength(v[0]);
    SequenceBytesAreHigh(v);
    VerbatimOctets(v, n);
    assert Escaped(v) + [QUOTE] == v[..n] + (Escaped(v[n..]) + [QUOTE]);
    StartsSplit(s, p, v[..n], Escaped(v[n..]) + [QUOTE]);
    CodePointsShift(v, n);
  }

  /**
   * A printed body is read back: the scanner ends at the closing quote, UTF-8 goes on behind it as it
   * would without the string, and the meaning is the code points that were printed.
   */
  lemma {:induction false} PrintedBodyReads(s: Text, p: nat, v: Text)
    requires Utf8(v, 0).COMPLETE? && StartsAt(s, p, Escaped(v) + [QUOTE])
    requires Utf8(s, p + |Escaped(v)| + 1).COMPLETE?
    ensures AtCharacter(s, p) && StringBody(s, p) == Complete(p + |Escaped(v)| + 1)
    ensures Meaning(s, p) == CodePoints(v, 0)
    decreases |v|
  {
    hide EscapeOctet, Escape, EscapeMeaning, CharacterAt, AfterCharacter, StartsAt;
    if v == [] {
      EmptyBodyReads(s, p);
    } else if v[0] < 0x80 {
      var n := |EscapeOctet(v[0])|;
      AsciiPart(s, p, v);
      PrintedBodyReads(s, p + n, v[1..]);
      AsciiCharacterReads(s, p, v[0]);
    } else {
      var n := SequenceLength(v[0]);
      SequencePart(s, p, v);
      PrintedBodyReads(s, p + n, v[n..]);
      SequenceReads(s, p, v, n);
    }
  }

  lemma EmptyBodyReads(s: Text, p: nat)
    requires StartsAt(s, p, Escaped([]) + [QUOTE]) && Utf8(s, p + 1).COMPLETE?
    ensures AtCharacter(s, p) && StringBody(s, p) == Complete(p + 1) && Meaning(s, p) == []
  {
    assert Escaped([]) + [QUOTE] == [QUOTE];
    SliceAt(s, p, [QUOTE]);
    assert s[p + 0] == QUOTE;
  }

  lemma SequenceBytesAreHigh(v: Text)
    requires v != [] && v[0] >= 0x80 && Utf8(v, 0).COMPLETE?
    ensures 2 <= SequenceLength(v[0]) <= |v| && forall i :: 0 <= i < SequenceLength(v[0]) ==> v[i] >= 0x80
  {
  }

  lemma CodePointsShift(v: Text, n: nat)
    requires v != [] && Utf8(v, 0).COMPLETE? && n == SequenceLength(v[0])
    ensures n <= |v| && Utf8(v[n..], 0).COMPLETE?
    ensures CodePoints(v, 0) == [CodePointAt(v, 0)] + CodePoints(v[n..], 0)
  {
    Utf8Shift(v, n, v[n..], 0);
    CodePointsOfShift(v, n, v[n..], 0);
  }

  lemma {:induction false} CodePointsOfShift(s: Text, p: nat, t: Text, q: nat)
    requires p <= |s| && q <= |t| && s[p..] == t[q..] && Utf8(s, p).COMPLETE?
    ensures Utf8(t, q).COMPLETE? && CodePoints(s, p) == CodePoints(t, q)
    decreases |s| - p
  {
    hide CodePointAt, SequenceAt;
    Utf8Shift(s, p, t, q);
    assert |s[p..]| == |t[q..]|;
    if p < |s| {
      SameSequence(s, p, t, q);
      CodePointsOfShift(s, p + SequenceLength(s[p]), t, q + SequenceLength(s[p]));
    }
  }

  lemma AsciiCharacterReads(s: Text, p: nat, b: byte)
    requires b < 0x80 && StartsAt(s, p, EscapeOctet(b)) && AtCharacter(s, p + |EscapeOctet(b)|)
    ensures AtCharacter(s, p) && StringBody(s, p) == StringBody(s, p + |EscapeOctet(b)|)
    ensures s[p] != QUOTE && CharacterAt(s, p) == b && AfterCharacter(s, p) == p + |EscapeOctet(b)|
  {
    hide Escape, EscapeMeaning;
    var e := EscapeOctet(b);
    SliceAt(s, p, e);
    assert s[p + 0] == e[0];
    if e[0] == BACKSLASH {
      EscapeReads(s, p, b);
      EscapeIsAscii(s, p);
      AsciiRun(s, p, p + |e|);
    } else {
      assert e == [b];
      AsciiRun(s, p, p + 1);
    }
  }

  lemma SequenceReads(s: Text, p: nat, v: Text, n: nat)
    requires v != [] && WholeSequenceAt(v, 0) && n == SequenceLength(v[0]) && n >= 2
    requires StartsAt(s, p, v[..n]) && AtCharacter(s, p + n)
    ensures AtCharacter(s, p) && StringBody(s, p) == StringBody(s, p + n)
    ensures s[p] >= 0x80 && CharacterAt(s, p) == CodePointAt(v, 0) && AfterCharacter(s, p) == p + n
  {
    hide Escape;
    SliceAt(s, p, v[..n]);
    assert s[p + 0] == v[..n][0] && s[p + 1] == v[..n][1];
    if n >= 3 { assert s[p + 2] == v[..n][2]; }
    if n >= 4 { assert s[p + 3] == v[..n][3]; }
    assert WholeSequenceAt(s, p);
    assert StringBody(s, p) == StringBody(s, p + 1) == StringBody(s, p + 2);
    if n >= 3 { assert StringBody(s, p + 2) == StringBody(s, p + 3); }
    if n >= 4 { assert StringBody(s, p + 3) == StringBody(s, p + 4); }
  }

  /** Printing and decoding are inverse, for every well-formed UTF-8 text. */
  lemma PrintedDecodes(v: Text)
    requires Utf8(v, 0).COMPLETE?
    ensures IsToken(Printed(v)) && Decoded(Printed(v)) == CodePoints(v, 0)
  {
    var s := Printed(v);
    assert s[1..1 + |Escaped(v) + [QUOTE]|] == Escaped(v) + [QUOTE];
    PrintedBodyReads(s, 1, v);
    AsciiRun(s, 0, 1);
  }

  /** Two texts print to tokens that compare equal exactly if they are the same text. */
  lemma PrintingIsInjective(v: Text, w: Text)
    requires Utf8(v, 0).COMPLETE? && Utf8(w, 0).COMPLETE?
    ensures IsToken(Printed(v)) && IsToken(Printed(w))
    ensures Decoded(Printed(v)) == Decoded(Printed(w)) <==> v == w
  {
    PrintedDecodes(v);
    PrintedDecodes(w);
    CodePointsEncode(v, 0);
    CodePointsEncode(w, 0);
    assert v[0..] == v && w[0..] == w;
  }
}
