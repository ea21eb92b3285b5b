/** How a string may be spelled: RFC 8259, section 7, from the code points to the octets. */
module Spelling {
  import opened Bytes
  import opened JsonSyntax
  import opened JsonPrefix
  import opened Unicode
  import opened JsonString

  // ---------------------------------------------------------------- the spellings of a code point

  /** A hexadecimal digit in either case. */
  predicate IsDigitFor(b: byte, v: nat) {
    (v < 10 && b == 0x30 + v) || (10 <= v < 16 && (b == 0x61 + v - 10 || b == 0x41 + v - 10))
  }

  /** A backslash, a u, and the four digits of a UTF-16 unit. */
  predicate SpellsUnit(e: Text, unit: nat) {
    |e| == 6 && e[0] == 0x5C && e[1] == 0x75 && unit < 0x1_0000
    && IsDigitFor(e[2], unit / 0x1000) && IsDigitFor(e[3], unit / 0x100 % 16)
    && IsDigitFor(e[4], unit / 0x10 % 16) && IsDigitFor(e[5], unit % 16)
  }

  /** The units of UTF-16, section 2.1 of RFC 2781. */
  function FirstUnit(c: nat): nat
    requires 0x1_0000 <= c < 0x11_0000
  {
    0xD800 + (c - 0x1_0000) / 0x400
  }

  function SecondUnit(c: nat): nat
    requires 0x1_0000 <= c < 0x11_0000
  {
    0xDC00 + (c - 0x1_0000) % 0x400
  }

  predicate SpellsEscaped(e: Text, c: nat)
    requires IsScalar(c)
  {
    if c < 0x1_0000 then SpellsUnit(e, c)
    else |e| == 12 && SpellsUnit(e[..6], FirstUnit(c)) && SpellsUnit(e[6..], SecondUnit(c))
  }

  predicate SpellsShort(e: Text, c: nat) {
    |e| == 2 && e[0] == 0x5C
    && (e[1], c) in {(0x22, 0x22), (0x5C, 0x5C), (0x2F, 0x2F), (0x62, 0x08), (0x66, 0x0C), (0x6E, 0x0A), (0x72, 0x0D), (0x74, 0x09)}
  }

  /** In UTF-8; not a control octet, a quotation mark or a backslash. */
  predicate SpellsPlain(e: Text, c: nat)
    requires IsScalar(c)
  {
    c >= 0x20 && c != 0x22 && c != 0x5C && e == Encode(c)
  }

  predicate Spells(e: Text, c: nat) {
    IsScalar(c) && (SpellsPlain(e, c) || SpellsShort(e, c) || SpellsEscaped(e, c))
  }

  predicate AreSpelled(pieces: seq<Text>, cs: seq<nat>) {
    |pieces| == |cs| && forall i :: 0 <= i < |cs| ==> Spells(pieces[i], cs[i])
  }

  function Joined(pieces: seq<Text>): Text {
    if pieces == [] then [] else pieces[0] + Joined(pieces[1..])
  }

  function InQuotes(pieces: seq<Text>): Text {
    [QUOTE] + (Joined(pieces) + [QUOTE])
  }

  // ---------------------------------------------------------------- every spelling is read

  lemma DigitReads(b: byte, v: nat)
    ensures IsDigitFor(b, v) <==> HexValue(b) == v
  {
  }

  lemma UnitReads(s: Text, p: nat, e: Text, unit: nat)
    requires StartsAt(s, p, e) && SpellsUnit(e, unit)
    ensures |e| == 6 && p + 6 <= |s| && s[p] == BACKSLASH && s[p + 1] == LOWER_U
    ensures FourHex(s, p + 2) && Hex4Value(s, p + 2) == unit
  {
    hide IsDigitFor, HexValue;
    SliceAt(s, p, e);
    assert s[p + 0] == e[0] && s[p + 1] == e[1] && s[p + 2] == e[2] && s[p + 3] == e[3] && s[p + 4] == e[4] && s[p + 5] == e[5];
    DigitReads(e[2], unit / 0x1000);
    DigitReads(e[3], unit / 0x100 % 16);
    DigitReads(e[4], unit / 0x10 % 16);
    DigitReads(e[5], unit % 16);
    FourDigits(unit);
  }

  lemma FourDigits(unit: nat)
    ensures ((unit / 0x1000 * 16 + unit / 0x100 % 16) * 16 + unit / 0x10 % 16) * 16 + unit % 16 == unit
  {
    assert unit / 0x100 == unit / 0x10 / 16 && unit / 0x1000 == unit / 0x100 / 16;
  }

  lemma HalvesMeet(c: nat)
    requires 0x1_0000 <= c < 0x11_0000
    ensures IsHighSurrogate(FirstUnit(c)) && IsLowSurrogate(SecondUnit(c))
    ensures 0x1_0000 + (FirstUnit(c) - 0xD800) * 0x400 + (SecondUnit(c) - 0xDC00) == c
  {
  }

  lemma ShortReads(s: Text, p: nat, e: Text, c: nat)
    requires StartsAt(s, p, e) && SpellsShort(e, c)
    ensures p < |s| && s[p] == BACKSLASH && Escape(s, p) == Complete(p + |e|) && EscapeMeaning(s, p) == c
  {
    SliceAt(s, p, e);
    assert s[p + 0] == e[0] && s[p + 1] == e[1];
  }

  lemma EscapedReads(s: Text, p: nat, e: Text, c: nat)
    requires StartsAt(s, p, e) && IsScalar(c) && SpellsEscaped(e, c)
    ensures p < |s| && s[p] == BACKSLASH && Escape(s, p) == Complete(p + |e|) && EscapeMeaning(s, p) == c
  {
    hide SpellsUnit, FourHex, Hex4Value, FirstUnit, SecondUnit;
    if c < 0x1_0000 {
      UnitReads(s, p, e, c);
    } else {
      assert e == e[..6] + e[6..];
      StartsSplit(s, p, e[..6], e[6..]);
      UnitReads(s, p, e[..6], FirstUnit(c));
      UnitReads(s, p + 6, e[6..], SecondUnit(c));
      HalvesMeet(c);
    }
  }

  lemma EscapeIsCharacter(s: Text, p: nat, n: nat, c: nat)
    requires p < |s| && s[p] == BACKSLASH && Escape(s, p) == Complete(p + n) && EscapeMeaning(s, p) == c && AtCharacter(s, p + n)
    ensures AtCharacter(s, p) && StringBody(s, p) == StringBody(s, p + n)
    ensures s[p] != QUOTE && CharacterAt(s, p) == c && AfterCharacter(s, p) == p + n
  {
    hide Escape, EscapeMeaning;
    EscapeIsAscii(s, p);
    AsciiRun(s, p, p + n);
  }

  lemma PlainIsCharacter(s: Text, p: nat, e: Text, c: nat)
    requires StartsAt(s, p, e) && IsScalar(c) && SpellsPlain(e, c) && AtCharacter(s, p + |e|)
    ensures AtCharacter(s, p) && StringBody(s, p) == StringBody(s, p + |e|)
    ensures s[p] != QUOTE && CharacterAt(s, p) == c && AfterCharacter(s, p) == p + |e|
  {
    hide Escape, EscapeMeaning, CodePointAt;
    if c < 0x80 {
      SliceAt(s, p, e);
      assert s[p + 0] == e[0];
      AsciiRun(s, p, p + 1);
    } else {
      assert e[0..0 + |e|] == e && e[..|e|] == e;
      EncodedIsWhole(e, 0, c);
      SequenceReads(s, p, e, |e|);
    }
  }

  lemma PieceReads(s: Text, p: nat, e: Text, c: nat)
    requires StartsAt(s, p, e) && Spells(e, c) && AtCharacter(s, p + |e|)
    ensures AtCharacter(s, p) && StringBody(s, p) == StringBody(s, p + |e|)
    ensures s[p] != QUOTE && CharacterAt(s, p) == c && AfterCharacter(s, p) == p + |e|
  {
    hide StartsAt, AtCharacter, SpellsPlain, SpellsShort, SpellsEscaped, CharacterAt, AfterCharacter, Escape, EscapeMeaning, StringBody;
    if SpellsPlain(e, c) {
      PlainIsCharacter(s, p, e, c);
    } else {
      if SpellsShort(e, c) {
        ShortReads(s, p, e, c);
      } else {
        EscapedReads(s, p, e, c);
      }
      EscapeIsCharacter(s, p, |e|, c);
    }
  }

  lemma {:induction false} PiecesRead(s: Text, p: nat, pieces: seq<Text>, cs: seq<nat>)
    requires AreSpelled(pieces, cs) && StartsAt(s, p, Joined(pieces) + [QUOTE])
    requires Utf8(s, p + |Joined(pieces)| + 1).COMPLETE?
    ensures AtCharacter(s, p) && StringBody(s, p) == Complete(p + |Joined(pieces)| + 1) && Meaning(s, p) == cs
    decreases |pieces|
  {
    hide Spells, StartsAt, AtCharacter, CharacterAt, AfterCharacter, StringBody, Meaning, Utf8;
    if pieces == [] {
      assert Joined(pieces) + [QUOTE] == Escaped([]) + [QUOTE];
      EmptyBodyReads(s, p);
      assert cs == [];
    } else {
      var e, rest := pieces[0], pieces[1..];
      assert Joined(pieces) + [QUOTE] == e + (Joined(rest) + [QUOTE]);
      StartsSplit(s, p, e, Joined(rest) + [QUOTE]);
      PiecesRead(s, p + |e|, rest, cs[1..]);
      PieceReads(s, p, e, cs[0]);
      MeaningGoesOn(s, p);
      assert cs == [cs[0]] + cs[1..];
    }
  }

  lemma MeaningGoesOn(s: Text, p: nat)
    requires AtCharacter(s, p) && s[p] != QUOTE
    ensures Meaning(s, p) == [CharacterAt(s, p)] + Meaning(s, AfterCharacter(s, p))
  {
  }

  /** However a string is spelled, it is a token, and it means the code points that were spelled. */
  lemma SpellingDecodes(pieces: seq<Text>, cs: seq<nat>)
    requires AreSpelled(pieces, cs)
    ensures IsToken(InQuotes(pieces)) && Decoded(InQuotes(pieces)) == cs
  {
    hide AreSpelled, AtCharacter, Meaning, StringBody;
    var t, body := InQuotes(pieces), Joined(pieces) + [QUOTE];
    assert t[1..1 + |body|] == body;
    EndIsComplete(t);
    PiecesRead(t, 1, pieces, cs);
    TokenIsWhole(t);
  }

  lemma EndIsComplete(s: Text)
    ensures Utf8(s, |s|).COMPLETE?
  {
  }

  lemma TokenIsWhole(t: Text)
    requires t != [] && t[0] == QUOTE && AtCharacter(t, 1) && StringBody(t, 1) == Complete(|t|)
    ensures IsToken(t) && Decoded(t) == Meaning(t, 1)
  {
    hide StringBody, Meaning;
    AsciiRun(t, 0, 1);
  }

  // ---------------------------------------------------------------- nothing else is a token

  /** The character at a position is spelled by its octets. */
  lemma CharacterIsSpelled(s: Text, p: nat)
    requires AtCharacter(s, p) && s[p] != QUOTE
    ensures AfterCharacter(s, p) <= |s| && Spells(s[p..AfterCharacter(s, p)], CharacterAt(s, p))
  {
    hide StringBody, Utf8, SpellsEscaped, CodePointAt, Encode;
    if s[p] == BACKSLASH {
      BodyEscapes(s, p);
      EscapeIsSpelled(s, p);
    } else if s[p] < 0x80 {
      PlainOctet(s, p);
    } else {
      SequenceIsSkipped(s, p);
      DecodedIsScalar(s, p);
      HighIsPlain(s, p);
    }
  }

  lemma BodyEscapes(s: Text, p: nat)
    requires AtCharacter(s, p) && s[p] == BACKSLASH
    ensures Escape(s, p).Complete?
  {
    hide Escape;
  }

  lemma PlainOctet(s: Text, p: nat)
    requires AtCharacter(s, p) && s[p] != QUOTE && s[p] != BACKSLASH && s[p] < 0x80
    ensures Spells(s[p..p + 1], s[p])
  {
    assert s[p..p + 1] == [s[p]];
    assert s[p] >= 0x20;
  }

  lemma HighIsPlain(s: Text, p: nat)
    requires WholeSequenceAt(s, p) && s[p] >= 0x80
    ensures CodePointAt(s, p) >= 0x80
  {
    hide Encode;
    DecodedIsScalar(s, p);
    assert s[p..p + SequenceLength(s[p])][0] == s[p];
    if CodePointAt(s, p) < 0x80 {
      LowEncodes(CodePointAt(s, p));
    }
  }

  lemma LowEncodes(c: nat)
    requires c < 0x80
    ensures Encode(c) == [c]
  {
  }

  lemma EscapeIsSpelled(s: Text, p: nat)
    requires p < |s| && s[p] == BACKSLASH && Escape(s, p).Complete?
    ensures Spells(s[p..Escape(s, p).end], EscapeMeaning(s, p))
  {
    hide FourHex, Hex4Value, SpellsUnit, Encode, FirstUnit, SecondUnit;
    var e := s[p..Escape(s, p).end];
    if s[p + 1] == LOWER_U {
      UnitIsSpelled(s, p);
      var first := Hex4Value(s, p + 2);
      if IsHighSurrogate(first) {
        UnitIsSpelled(s, p + 6);
        PairMeets(first, Hex4Value(s, p + 8));
        assert e[..6] == s[p..p + 6] && e[6..] == s[p + 6..p + 12];
      }
    } else {
      assert e == [s[p], s[p + 1]];
      assert SpellsShort(e, EscapeMeaning(s, p));
    }
  }

  lemma UnitIsSpelled(s: Text, p: nat)
    requires p + 6 <= |s| && s[p] == BACKSLASH && s[p + 1] == LOWER_U && FourHex(s, p + 2)
    ensures SpellsUnit(s[p..p + 6], Hex4Value(s, p + 2))
  {
    hide IsDigitFor, HexValue;
    var a, b, c, d := HexValue(s[p + 2]), HexValue(s[p + 3]), HexValue(s[p + 4]), HexValue(s[p + 5]);
    DigitsOfUnit(a, b, c, d);
    DigitReads(s[p + 2], a);
    DigitReads(s[p + 3], b);
    DigitReads(s[p + 4], c);
    DigitReads(s[p + 5], d);
  }

  lemma DigitsOfUnit(a: nat, b: nat, c: nat, d: nat)
    requires a < 16 && b < 16 && c < 16 && d < 16
    ensures var unit := ((a * 16 + b) * 16 + c) * 16 + d;
      unit / 0x1000 == a && unit / 0x100 % 16 == b && unit / 0x10 % 16 == c && unit % 16 == d
  {
  }

  lemma PairMeets(first: nat, second: nat)
    requires IsHighSurrogate(first) && IsLowSurrogate(second)
    ensures var c := 0x1_0000 + (first - 0xD800) * 0x400 + (second - 0xDC00);
      0x1_0000 <= c < 0x11_0000 && FirstUnit(c) == first && SecondUnit(c) == second
  {
  }

  lemma {:induction false} BodyIsSpelled(s: Text, p: nat) returns (pieces: seq<Text>)
    requires AtCharacter(s, p) && StringBody(s, p) == Complete(|s|)
    ensures AreSpelled(pieces, Meaning(s, p)) && s[p..] == Joined(pieces) + [QUOTE]
    decreases |s| - p
  {
    hide Spells, CharacterAt, AfterCharacter, AtCharacter;
    if s[p] == QUOTE {
      pieces := [];
      assert s[p..] == [QUOTE];
    } else {
      var q := AfterCharacter(s, p);
      CharacterIsSpelled(s, p);
      var rest := BodyIsSpelled(s, q);
      pieces := [s[p..q]] + rest;
      MeaningGoesOn(s, p);
      assert pieces[1..] == rest;
      assert s[p..] == s[p..q] + s[q..];
    }
  }

  /** Every token is a spelling of what it means. */
  lemma EveryTokenIsSpelled(t: Text) returns (pieces: seq<Text>)
    requires IsToken(t)
    ensures AreSpelled(pieces, Decoded(t)) && t == InQuotes(pieces)
  {
    hide AtCharacter, StringBody, Meaning, AreSpelled;
    TokenBodyIsAtCharacter(t);
    pieces := BodyIsSpelled(t, 1);
    assert t == [t[0]] + t[1..];
    TokenStarts(t);
  }

  lemma TokenStarts(t: Text)
    requires IsToken(t)
    ensures t[0] == QUOTE
  {
  }

  /** One code point in any two spellings compares equal: a surrogate pair with its UTF-8, an escaped slash with a plain one. */
  lemma SpellingsAgree(e: Text, c: nat, f: Text, d: nat)
    requires Spells(e, c) && Spells(f, d)
    ensures IsToken(InQuotes([e])) && IsToken(InQuotes([f]))
    ensures Decoded(InQuotes([e])) == [c] && (Decoded(InQuotes([e])) == Decoded(InQuotes([f])) <==> c == d)
  {
    hide Spells;
    SpellingDecodes([e], [c]);
    SpellingDecodes([f], [d]);
    assert [c] == [d] <==> c == d by { assert [c][0] == c && [d][0] == d; }
  }

  // ---------------------------------------------------------------- the spelling of the writer

  /** The writer spells every octet of ASCII as short as it can be spelled, and digits in lower case. */
  lemma PrintedIsShortest(b: byte, other: Text)
    requires b < 0x80 && Spells(other, b)
    ensures Spells(EscapeOctet(b), b) && |EscapeOctet(b)| <= |other|
    ensures forall i :: 0 <= i < |EscapeOctet(b)| && |EscapeOctet(b)| == 6 ==> !(0x41 <= EscapeOctet(b)[i] <= 0x5A)
  {
    var e := EscapeOctet(b);
    if |e| == 6 {
      assert b / 0x1000 == 0 && b / 0x100 == 0 && b / 0x10 % 16 == b / 16;
    }
  }

  // ---------------------------------------------------------------- literals

  /** Code points that spell a literal. */
  predicate IsLiteral(name: seq<nat>, literal: string) {
    |name| == |literal| && forall i :: 0 <= i < |name| ==> name[i] == literal[i] as int
  }

  /** A string token that means the literal. */
  predicate TextReads(v: Text, literal: string) {
    IsToken(v) && IsLiteral(Decoded(v), literal)
  }

  lemma LiteralIsCodes(name: seq<nat>, literal: string)
    requires forall i :: 0 <= i < |literal| ==> literal[i] as int < 128
    ensures IsLiteral(name, literal) <==> name == Codes(Ascii(literal))
  {
  }
}
