/** The validator of src/protocol/json_value.c: a cursor that loops and recursive descent advance. */
module JsonParser {
  import opened Bytes
  import opened JsonSyntax

  /** The result and the cursor that a parsing method leaves, against the verdict of its function. */
  ghost predicate Reports(outcome: Outcome, result: Verdict, pos: nat) {
    match outcome
    case Invalid => result.INVALID?
    case Incomplete => result.INCOMPLETE?
    case Complete(end) => result.COMPLETE? && pos == end
  }

  method ValidateUtf8(data: Text) returns (result: Verdict)
    ensures result == Utf8(data, 0)
  {
    var i := 0;
    while i < |data|
      invariant i <= |data|
      invariant Utf8(data, i) == Utf8(data, 0)
      decreases |data| - i
    {
      var start := i;
      var first := data[i];
      i := i + 1;
      var continuationCount;
      var secondMin, secondMax: byte := 0x80, 0xBF;
      if first <= 0x7F {
        continue;
      }
      if 0xC2 <= first <= 0xDF {
        continuationCount := 1;
      } else if 0xE0 <= first <= 0xEF {
        continuationCount := 2;
        if first == 0xE0 {
          secondMin := 0xA0;
        } else if first == 0xED {
          secondMax := 0x9F;
        }
      } else if 0xF0 <= first <= 0xF4 {
        continuationCount := 3;
        if first == 0xF0 {
          secondMin := 0x90;
        } else if first == 0xF4 {
          secondMax := 0x8F;
        }
      } else {
        return INVALID;
      }
      if |data| - i < continuationCount {
        return INCOMPLETE;
      }
      if data[i] < secondMin || data[i] > secondMax {
        return INVALID;
      }
      var j := 1;
      while j < continuationCount
        invariant 1 <= j <= continuationCount
        invariant forall k :: i + 1 <= k < i + j ==> IsContinuation(data[k])
      {
        if !IsContinuation(data[i + j]) {
          assert !SequenceAt(data, start);
          return INVALID;
        }
        j := j + 1;
      }
      assert continuationCount >= 2 ==> IsContinuation(data[i + 1]);
      assert continuationCount >= 3 ==> IsContinuation(data[i + 2]);
      assert SequenceAt(data, start);
      i := i + continuationCount;
    }
    return COMPLETE;
  }

  class Parser {
    const data: Text
    const maximumDepth: nat
    var pos: nat

    constructor (data: Text, maximumDepth: nat)
      ensures this.data == data && this.maximumDepth == maximumDepth && pos == 0
    {
      this.data := data;
      this.maximumDepth := maximumDepth;
      pos := 0;
    }

    method SkipSpaces()
      requires pos <= |data|
      modifies `pos
      ensures pos == SkipSpace(data, old(pos))
    {
      while pos < |data| && IsSpace(data[pos])
        invariant old(pos) <= pos <= |data|
        invariant SkipSpace(data, pos) == SkipSpace(data, old(pos))
      {
        pos := pos + 1;
      }
    }

    method ParseHex4() returns (result: Verdict, value: nat)
      requires pos <= |data|
      modifies `pos
      ensures old(pos) <= pos <= |data|
      ensures Reports(Hex4(data, old(pos)), result, pos)
      ensures result.COMPLETE? ==> value == Hex4Value(data, old(pos))
    {
      ghost var start := pos;
      value := 0;
      if |data| - pos < 4 {
        return INCOMPLETE, value;
      }
      var i := 0;
      while i < 4
        invariant 0 <= i <= 4 && pos == start + i
        invariant forall k :: start <= k < pos ==> IsHex(data[k])
        invariant i == 0 ==> value == 0
        invariant i == 1 ==> value == HexValue(data[start])
        invariant i == 2 ==> value == HexValue(data[start]) * 16 + HexValue(data[start + 1])
        invariant i == 3 ==>
          value == (HexValue(data[start]) * 16 + HexValue(data[start + 1])) * 16 + HexValue(data[start + 2])
        invariant i == 4 ==> FourHex(data, start) && value == Hex4Value(data, start)
      {
        var digit := HexValue(data[pos]);
        pos := pos + 1;
        if digit < 0 {
          assert !IsHex(data[start + i]);
          return INVALID, value;
        }
        assert IsHex(data[start + i]);
        value := value * 16 + digit;
        i := i + 1;
      }
      return COMPLETE, value;
    }

    /** The part of `parse_string` behind a backslash. */
    method ParseEscape() returns (result: Verdict)
      requires 0 < pos <= |data|
      modifies `pos
      ensures old(pos) <= pos <= |data|
      ensures Reports(Escape(data, old(pos) - 1), result, pos)
    {
      if pos >= |data| {
        return INCOMPLETE;
      }
      var b := data[pos];
      pos := pos + 1;
      if IsSimpleEscape(b) {
        return COMPLETE;
      }
      if b != LOWER_U {
        return INVALID;
      }
      var first;
      result, first := ParseHex4();
      if !result.COMPLETE? {
        return;
      }
      if IsLowSurrogate(first) {
        return INVALID;
      }
      if IsHighSurrogate(first) {
        if |data| - pos < 2 {
          return INCOMPLETE;
        }
        if data[pos] != BACKSLASH || data[pos + 1] != LOWER_U {
          return INVALID;
        }
        pos := pos + 2;
        var second;
        result, second := ParseHex4();
        if !result.COMPLETE? {
          return;
        }
        if !IsLowSurrogate(second) {
          return INVALID;
        }
      }
      return COMPLETE;
    }

    method ParseString() returns (result: Verdict)
      requires pos <= |data|
      modifies `pos
      ensures old(pos) <= pos <= |data|
      ensures Reports(String(data, old(pos)), result, pos)
    {
      hide Escape;
      if pos >= |data| {
        return INCOMPLETE;
      }
      pos := pos + 1;
      if data[pos - 1] != QUOTE {
        return INVALID;
      }
      while pos < |data|
        invariant old(pos) < pos <= |data|
        invariant StringBody(data, pos) == String(data, old(pos))
        decreases |data| - pos
      {
        var b := data[pos];
        pos := pos + 1;
        if b == QUOTE {
          return COMPLETE;
        }
        if b < 0x20 {
          return INVALID;
        }
        if b != BACKSLASH {
          continue;
        }
        result := ParseEscape();
        if !result.COMPLETE? {
          return;
        }
      }
      return INCOMPLETE;
    }

    method ParseArray(depth: nat) returns (result: Verdict)
      requires 1 <= depth <= maximumDepth + 1
      requires pos < |data| && data[pos] == LBRACKET
      modifies `pos
      ensures old(pos) <= pos <= |data|
      ensures Reports(if depth > maximumDepth then Invalid else Array(data, old(pos), maximumDepth - depth), result, pos)
      decreases maximumDepth + 1 - depth, 1
    {
      hide Value, String, SkipSpace, Elements, ElementsTail, Members, MembersTail, Member, MemberTail;
      if depth > maximumDepth {
        return INVALID;
      }
      ghost var room := maximumDepth - depth;
      ghost var goal := Array(data, pos, room);
      pos := pos + 1;
      SkipSpaces();
      if pos >= |data| {
        return INCOMPLETE;
      }
      if data[pos] == RBRACKET {
        pos := pos + 1;
        return COMPLETE;
      }
      while true
        invariant old(pos) < pos < |data|
        invariant Elements(data, pos, room) == goal
        decreases |data| - pos
      {
        ghost var start := pos;
        result := ParseValue(depth);
        ElementsStep(data, start, room);
        if !result.COMPLETE? {
          return;
        }
        ElementsTailStep(data, pos, room);
        SkipSpaces();
        if pos >= |data| {
          return INCOMPLETE;
        }
        if data[pos] == RBRACKET {
          pos := pos + 1;
          return COMPLETE;
        }
        pos := pos + 1;
        if data[pos - 1] != COMMA {
          return INVALID;
        }
        SkipSpaces();
        if pos >= |data| {
          return INCOMPLETE;
        }
      }
    }

    method ParseObject(depth: nat) returns (result: Verdict)
      requires 1 <= depth <= maximumDepth + 1
      requires pos < |data| && data[pos] == LBRACE
      modifies `pos
      ensures old(pos) <= pos <= |data|
      ensures Reports(if depth > maximumDepth then Invalid else Object(data, old(pos), maximumDepth - depth), result, pos)
      decreases maximumDepth + 1 - depth, 2
    {
      hide Value, String, SkipSpace, Elements, ElementsTail, Members, MembersTail, Member, MemberTail;
      if depth > maximumDepth {
        return INVALID;
      }
      ghost var room := maximumDepth - depth;
      ghost var goal := Object(data, pos, room);
      pos := pos + 1;
      SkipSpaces();
      if pos >= |data| {
        return INCOMPLETE;
      }
      if data[pos] == RBRACE {
        pos := pos + 1;
        return COMPLETE;
      }
      while true
        invariant old(pos) < pos < |data|
        invariant Members(data, pos, room) == goal
        decreases |data| - pos
      {
        ghost var start := pos;
        MembersStep(data, start, room);
        result := ParseMember(depth);
        if !result.COMPLETE? {
          return;
        }
        MembersTailStep(data, pos, room);
        SkipSpaces();
        if pos >= |data| {
          return INCOMPLETE;
        }
        if data[pos] == RBRACE {
          pos := pos + 1;
          return COMPLETE;
        }
        pos := pos + 1;
        if data[pos - 1] != COMMA {
          return INVALID;
        }
        SkipSpaces();
        if pos >= |data| {
          return INCOMPLETE;
        }
      }
    }

    /** The key, the colon and the value in the loop of `parse_object`. */
    method ParseMember(depth: nat) returns (result: Verdict)
      requires 1 <= depth <= maximumDepth && pos < |data|
      modifies `pos
      ensures old(pos) <= pos <= |data|
      ensures Reports(Member(data, old(pos), maximumDepth - depth), result, pos)
      decreases maximumDepth + 1 - depth, 1
    {
      hide Value, String, SkipSpace, Member, MemberTail;
      ghost var room := maximumDepth - depth;
      MemberStep(data, pos, room);
      result := ParseString();
      if !result.COMPLETE? {
        return;
      }
      MemberTailStep(data, pos, room);
      SkipSpaces();
      if pos >= |data| {
        return INCOMPLETE;
      }
      pos := pos + 1;
      if data[pos - 1] != COLON {
        return INVALID;
      }
      result := ParseValue(depth);
    }

    method ParseLiteral(literal: Text) returns (result: Verdict)
      requires pos <= |data|
      modifies `pos
      ensures old(pos) <= pos <= |data|
      ensures Reports(Literal(data, old(pos), literal), result, pos)
    {
      var available := |data| - pos;
      var compareLen := if available < |literal| then available else |literal|;
      var i := 0;
      while i < compareLen
        invariant 0 <= i <= compareLen
        invariant data[pos..pos + i] == literal[..i]
      {
        if data[pos + i] != literal[i] {
          assert data[pos..pos + compareLen][i] != literal[..compareLen][i];
          assert data[pos..][..compareLen] == data[pos..pos + compareLen];
          assert available < |literal| ==> data[pos..] == data[pos..pos + compareLen];
          return INVALID;
        }
        assert data[pos..pos + i + 1] == data[pos..pos + i] + [data[pos + i]];
        assert literal[..i + 1] == literal[..i] + [literal[i]];
        i := i + 1;
      }
      assert available < |literal| ==> data[pos..] == data[pos..pos + compareLen];
      assert literal == literal[..|literal|];
      if available < |literal| {
        pos := |data|;
        return INCOMPLETE;
      }
      pos := pos + |literal|;
      return COMPLETE;
    }

    method SkipDigitRun()
      requires pos < |data| && IsDigit(data[pos])
      modifies `pos
      ensures pos == SkipDigits(data, old(pos)) && old(pos) < pos
    {
      pos := pos + 1;
      while pos < |data| && IsDigit(data[pos])
        invariant old(pos) < pos <= |data|
        invariant SkipDigits(data, pos) == SkipDigits(data, old(pos))
      {
        pos := pos + 1;
      }
    }

    // parse_number, one method for each of the three parts of its body.

    method ParseIntegerPart() returns (result: Verdict)
      requires pos < |data|
      modifies `pos
      ensures old(pos) <= pos <= |data|
      ensures Reports(IntegerPart(data, if data[old(pos)] == MINUS then old(pos) + 1 else old(pos)), result, pos)
    {
      hide SkipDigits;
      if data[pos] == MINUS {
        pos := pos + 1;
        if pos >= |data| {
          return INCOMPLETE;
        }
      }
      if data[pos] == ZERO {
        pos := pos + 1;
        if pos < |data| && IsDigit(data[pos]) {
          return INVALID;
        }
      } else if 0x31 <= data[pos] <= 0x39 {
        SkipDigitRun();
      } else {
        return INVALID;
      }
      return COMPLETE;
    }

    method ParseFractionPart() returns (result: Verdict)
      requires pos <= |data|
      modifies `pos
      ensures old(pos) <= pos <= |data|
      ensures Reports(FractionPart(data, old(pos)), result, pos)
    {
      hide SkipDigits;
      if pos < |data| && data[pos] == DOT {
        pos := pos + 1;
        if pos >= |data| {
          return INCOMPLETE;
        }
        if !IsDigit(data[pos]) {
          return INVALID;
        }
        SkipDigitRun();
      }
      return COMPLETE;
    }

    method ParseExponentPart() returns (result: Verdict)
      requires pos <= |data|
      modifies `pos
      ensures old(pos) <= pos <= |data|
      ensures Reports(ExponentPart(data, old(pos)), result, pos)
    {
      hide SkipDigits;
      if pos < |data| && IsExponentMark(data[pos]) {
        pos := pos + 1;
        if pos >= |data| {
          return INCOMPLETE;
        }
        if IsSign(data[pos]) {
          pos := pos + 1;
          if pos >= |data| {
            return INCOMPLETE;
          }
        }
        if !IsDigit(data[pos]) {
          return INVALID;
        }
        SkipDigitRun();
      }
      return COMPLETE;
    }

    method ParseNumber() returns (result: Verdict)
      requires pos < |data|
      modifies `pos
      ensures old(pos) <= pos <= |data|
      ensures Reports(Number(data, old(pos)), result, pos)
    {
      hide IntegerPart, FractionPart, ExponentPart;
      result := ParseIntegerPart();
      if result.COMPLETE? {
        result := ParseFractionPart();
        if result.COMPLETE? {
          result := ParseExponentPart();
        }
      }
    }

    // The depth that remains is the termination measure: the recursion is never deeper than the limit.
    method ParseValue(depth: nat) returns (result: Verdict)
      requires depth <= maximumDepth && pos <= |data|
      modifies `pos
      ensures old(pos) <= pos <= |data|
      ensures Reports(Value(data, old(pos), maximumDepth - depth), result, pos)
      decreases maximumDepth + 1 - depth, 0
    {
      SkipSpaces();
      if pos >= |data| {
        return INCOMPLETE;
      }
      var b := data[pos];
      if b == LBRACE {
        result := ParseObject(depth + 1);
      } else if b == LBRACKET {
        result := ParseArray(depth + 1);
      } else if b == QUOTE {
        result := ParseString();
      } else if b == LOWER_T {
        result := ParseLiteral(TRUE);
      } else if b == LOWER_F {
        result := ParseLiteral(FALSE);
      } else if b == LOWER_N {
        result := ParseLiteral(NULL);
      } else {
        result := ParseNumber();
      }
    }
  }

  method ScanValue(data: Text, maximumDepth: nat) returns (scan: Scan)
    ensures scan == ScanText(data, maximumDepth)
  {
    scan := Scan(INVALID, RootOther, 0);
    if |data| == 0 || maximumDepth == 0 {
      return scan.(result := if |data| == 0 then INCOMPLETE else INVALID);
    }
    var result := ValidateUtf8(data);
    if !result.COMPLETE? {
      return scan.(result := result);
    }
    var parser := new Parser(data, maximumDepth);
    parser.SkipSpaces();
    if parser.pos < |data| && (data[parser.pos] == MINUS || IsDigit(data[parser.pos])) {
      scan := scan.(rootKind := RootNumber);
    }
    result := parser.ParseValue(0);
    if !result.COMPLETE? {
      return scan.(result := result);
    }
    scan := scan.(valueEnd := parser.pos);
    parser.SkipSpaces();
    return scan.(result := if parser.pos == |data| then COMPLETE else INVALID);
  }
}
