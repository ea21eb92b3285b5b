/** What src/protocol/json_value.c accepts, as functions from a text and a position to a verdict. */
module JsonSyntax {
  import opened Bytes

  /** The verdict on one syntactic unit; `end` is the position after it. */
  datatype Outcome = Invalid | Incomplete | Complete(end: nat)

  // ---------------------------------------------------------------- white space

  function SkipSpace(s: Text, p: nat): (q: nat)
    requires p <= |s|
    ensures p <= q <= |s|
    ensures forall i :: p <= i < q ==> IsSpace(s[i])
    ensures q < |s| ==> !IsSpace(s[q])
    decreases |s| - p
  {
    if p < |s| && IsSpace(s[p]) then SkipSpace(s, p + 1) else p
  }

  // ---------------------------------------------------------------- strings

  predicate IsSimpleEscape(b: byte) {
    b == QUOTE || b == BACKSLASH || b == SLASH || b == LOWER_B || b == LOWER_F
    || b == LOWER_N || b == LOWER_R || b == LOWER_T
  }

  predicate IsHighSurrogate(u: int) { 0xD800 <= u <= 0xDBFF }

  predicate IsLowSurrogate(u: int) { 0xDC00 <= u <= 0xDFFF }

  predicate FourHex(s: Text, p: nat)
    requires p + 4 <= |s|
  {
    IsHex(s[p]) && IsHex(s[p + 1]) && IsHex(s[p + 2]) && IsHex(s[p + 3])
  }

  function Hex4(s: Text, p: nat): Outcome
    requires p <= |s|
  {
    if |s| - p < 4 then Incomplete
    else if FourHex(s, p) then Complete(p + 4)
    else Invalid
  }

  function Hex4Value(s: Text, p: nat): (v: nat)
    requires p + 4 <= |s| && FourHex(s, p)
    ensures v < 0x1_0000
  {
    ((HexValue(s[p]) * 16 + HexValue(s[p + 1])) * 16 + HexValue(s[p + 2])) * 16 + HexValue(s[p + 3])
  }

  /** An escape sequence whose backslash stands at `p`; a surrogate pair is one escape. */
  function Escape(s: Text, p: nat): (r: Outcome)
    requires p < |s|
    ensures r.Complete? ==> p + 2 <= r.end <= |s|
  {
    if p + 1 >= |s| then Incomplete
    else if IsSimpleEscape(s[p + 1]) then Complete(p + 2)
    else if s[p + 1] != LOWER_U then Invalid
    else
      match Hex4(s, p + 2)
      case Invalid => Invalid
      case Incomplete => Incomplete
      case Complete(q) =>
        var first := Hex4Value(s, p + 2);
        if IsLowSurrogate(first) then Invalid
        else if IsHighSurrogate(first) then LowHalf(s, q)
        else Complete(q)
  }

  /** The second half of a surrogate pair. */
  function LowHalf(s: Text, p: nat): (r: Outcome)
    requires p <= |s|
    ensures r.Complete? ==> r.end == p + 6 <= |s|
  {
    if |s| - p < 2 then Incomplete
    else if s[p] != BACKSLASH || s[p + 1] != LOWER_U then Invalid
    else
      match Hex4(s, p + 2)
      case Invalid => Invalid
      case Incomplete => Incomplete
      case Complete(q) => if IsLowSurrogate(Hex4Value(s, p + 2)) then Complete(q) else Invalid
  }

  /** The rest of a string, from a position after its opening quote. */
  function StringBody(s: Text, p: nat): (r: Outcome)
    requires p <= |s|
    ensures r.Complete? ==> p < r.end <= |s|
    decreases |s| - p
  {
    if p >= |s| then Incomplete
    else if s[p] == QUOTE then Complete(p + 1)
    else if s[p] < 0x20 then Invalid
    else if s[p] != BACKSLASH then StringBody(s, p + 1)
    else
      match Escape(s, p)
      case Invalid => Invalid
      case Incomplete => Incomplete
      case Complete(q) => StringBody(s, q)
  }

  function String(s: Text, p: nat): (r: Outcome)
    requires p <= |s|
    ensures r.Complete? ==> p + 1 < r.end <= |s| && s[p] == QUOTE
  {
    if p >= |s| then Incomplete
    else if s[p] != QUOTE then Invalid
    else StringBody(s, p + 1)
  }

  // ---------------------------------------------------------------- numbers and literals

  function SkipDigits(s: Text, p: nat): (q: nat)
    requires p <= |s|
    ensures p <= q <= |s|
    ensures forall i :: p <= i < q ==> IsDigit(s[i])
    ensures q < |s| ==> !IsDigit(s[q])
    decreases |s| - p
  {
    if p < |s| && IsDigit(s[p]) then SkipDigits(s, p + 1) else p
  }

  /** At least one digit. */
  function Digits(s: Text, p: nat): (r: Outcome)
    requires p <= |s|
    ensures r.Complete? ==> p < r.end <= |s|
  {
    if p >= |s| then Incomplete
    else if !IsDigit(s[p]) then Invalid
    else Complete(SkipDigits(s, p))
  }

  function IntegerPart(s: Text, p: nat): (r: Outcome)
    requires p <= |s|
    ensures r.Complete? ==> p < r.end <= |s|
  {
    if p >= |s| then Incomplete
    else if s[p] == ZERO then
      if p + 1 < |s| && IsDigit(s[p + 1]) then Invalid else Complete(p + 1)
    else Digits(s, p)
  }

  function FractionPart(s: Text, p: nat): (r: Outcome)
    requires p <= |s|
    ensures r.Complete? ==> p <= r.end <= |s|
  {
    if p < |s| && s[p] == DOT then Digits(s, p + 1) else Complete(p)
  }

  predicate IsExponentMark(b: byte) { b == LOWER_E || b == UPPER_E }

  predicate IsSign(b: byte) { b == PLUS || b == MINUS }

  function ExponentPart(s: Text, p: nat): (r: Outcome)
    requires p <= |s|
    ensures r.Complete? ==> p <= r.end <= |s|
  {
    if p < |s| && IsExponentMark(s[p]) then
      if p + 1 < |s| && IsSign(s[p + 1]) then Digits(s, p + 2) else Digits(s, p + 1)
    else Complete(p)
  }

  function Number(s: Text, p: nat): (r: Outcome)
    requires p < |s|
    ensures r.Complete? ==> p < r.end <= |s|
  {
    match IntegerPart(s, if s[p] == MINUS then p + 1 else p)
    case Invalid => Invalid
    case Incomplete => Incomplete
    case Complete(a) => AfterInteger(s, a)
  }

  function AfterInteger(s: Text, p: nat): (r: Outcome)
    requires p <= |s|
    ensures r.Complete? ==> p <= r.end <= |s|
  {
    match FractionPart(s, p)
    case Invalid => Invalid
    case Incomplete => Incomplete
    case Complete(b) => ExponentPart(s, b)
  }

  const TRUE: Text := [0x74, 0x72, 0x75, 0x65]
  const FALSE: Text := [0x66, 0x61, 0x6C, 0x73, 0x65]
  const NULL: Text := [0x6E, 0x75, 0x6C, 0x6C]

  function Literal(s: Text, p: nat, word: Text): (r: Outcome)
    requires p <= |s|
    ensures r.Complete? ==> r.end == p + |word| <= |s|
  {
    if |s| - p < |word| then
      if s[p..] == word[..|s| - p] then Incomplete else Invalid
    else if s[p..p + |word|] == word then Complete(p + |word|)
    else Invalid
  }

  // ---------------------------------------------------------------- values

  /** A value with at most `room` further levels of nesting, after optional white space. */
  function Value(s: Text, p: nat, room: nat): (r: Outcome)
    requires p <= |s|
    ensures r.Complete? ==> p < r.end <= |s|
    decreases |s| - p, 2
  {
    var q := SkipSpace(s, p);
    if q >= |s| then Incomplete
    else if s[q] == LBRACE then
      if room == 0 then Invalid else Object(s, q, room - 1)
    else if s[q] == LBRACKET then
      if room == 0 then Invalid else Array(s, q, room - 1)
    else if s[q] == QUOTE then String(s, q)
    else if s[q] == LOWER_T then Literal(s, q, TRUE)
    else if s[q] == LOWER_F then Literal(s, q, FALSE)
    else if s[q] == LOWER_N then Literal(s, q, NULL)
    else Number(s, q)
  }

  function Array(s: Text, p: nat, room: nat): (r: Outcome)
    requires p < |s|
    ensures r.Complete? ==> p < r.end <= |s|
    decreases |s| - p, 1
  {
    var q := SkipSpace(s, p + 1);
    if q >= |s| then Incomplete
    else if s[q] == RBRACKET then Complete(q + 1)
    else Elements(s, q, room)
  }

  function Elements(s: Text, p: nat, room: nat): (r: Outcome)
    requires p <= |s|
    ensures r.Complete? ==> p < r.end <= |s|
    decreases |s| - p, 3
  {
    match Value(s, p, room)
    case Invalid => Invalid
    case Incomplete => Incomplete
    case Complete(a) => ElementsTail(s, a, room)
  }

  /** What follows an element that ends at `p`. */
  function ElementsTail(s: Text, p: nat, room: nat): (r: Outcome)
    requires p <= |s|
    ensures r.Complete? ==> p < r.end <= |s|
    decreases |s| - p, 4
  {
    var q := SkipSpace(s, p);
    if q >= |s| then Incomplete
    else if s[q] == RBRACKET then Complete(q + 1)
    else if s[q] != COMMA then Invalid
    else
      var n := SkipSpace(s, q + 1);
      if n >= |s| then Incomplete else Elements(s, n, room)
  }

  function Object(s: Text, p: nat, room: nat): (r: Outcome)
    requires p < |s|
    ensures r.Complete? ==> p < r.end <= |s|
    decreases |s| - p, 1
  {
    var q := SkipSpace(s, p + 1);
    if q >= |s| then Incomplete
    else if s[q] == RBRACE then Complete(q + 1)
    else Members(s, q, room)
  }

  function Members(s: Text, p: nat, room: nat): (r: Outcome)
    requires p <= |s|
    ensures r.Complete? ==> p < r.end <= |s|
    decreases |s| - p, 3
  {
    match Member(s, p, room)
    case Invalid => Invalid
    case Incomplete => Incomplete
    case Complete(a) => MembersTail(s, a, room)
  }

  /** What follows a member whose value ends at `p`. */
  function MembersTail(s: Text, p: nat, room: nat): (r: Outcome)
    requires p <= |s|
    ensures r.Complete? ==> p < r.end <= |s|
    decreases |s| - p, 4
  {
    var q := SkipSpace(s, p);
    if q >= |s| then Incomplete
    else if s[q] == RBRACE then Complete(q + 1)
    else if s[q] != COMMA then Invalid
    else
      var n := SkipSpace(s, q + 1);
      if n >= |s| then Incomplete else Members(s, n, room)
  }

  /** A key, its colon and its value; the result is the end of the value. */
  function Member(s: Text, p: nat, room: nat): (r: Outcome)
    requires p <= |s|
    ensures r.Complete? ==> p < r.end <= |s|
    decreases |s| - p, 2
  {
    match String(s, p)
    case Invalid => Invalid
    case Incomplete => Incomplete
    case Complete(a) => MemberTail(s, a, room)
  }

  /** What follows a key that ends at `p`. */
  function MemberTail(s: Text, p: nat, room: nat): (r: Outcome)
    requires p <= |s|
    ensures r.Complete? ==> p < r.end <= |s|
    decreases |s| - p, 3
  {
    var q := SkipSpace(s, p);
    if q >= |s| then Incomplete
    else if s[q] != COLON then Invalid
    else Value(s, q + 1, room)
  }

  // ---------------------------------------------------------------- UTF-8

  datatype Verdict = INVALID | INCOMPLETE | COMPLETE

  /** The number of octets of the UTF-8 sequence that `first` starts, or 0. */
  function SequenceLength(first: byte): (n: nat)
    ensures n <= 4
  {
    if first <= 0x7F then 1
    else if 0xC2 <= first <= 0xDF then 2
    else if 0xE0 <= first <= 0xEF then 3
    else if 0xF0 <= first <= 0xF4 then 4
    else 0
  }

  function SecondMin(first: byte): byte {
    if first == 0xE0 then 0xA0 else if first == 0xF0 then 0x90 else 0x80
  }

  function SecondMax(first: byte): byte {
    if first == 0xED then 0x9F else if first == 0xF4 then 0x8F else 0xBF
  }

  predicate IsContinuation(b: byte) { 0x80 <= b <= 0xBF }

  predicate SequenceAt(s: Text, p: nat)
    requires p < |s| && 1 <= SequenceLength(s[p]) <= |s| - p
  {
    var n := SequenceLength(s[p]);
    (n >= 2 ==> SecondMin(s[p]) <= s[p + 1] <= SecondMax(s[p]))
    && (n >= 3 ==> IsContinuation(s[p + 2]))
    && (n >= 4 ==> IsContinuation(s[p + 3]))
  }

  function Utf8(s: Text, p: nat): Verdict
    requires p <= |s|
    decreases |s| - p
  {
    if p == |s| then COMPLETE
    else
      var n := SequenceLength(s[p]);
      if n == 0 then INVALID
      else if |s| - p < n then INCOMPLETE
      else if SequenceAt(s, p) then Utf8(s, p + n)
      else INVALID
  }

  // ---------------------------------------------------------------- whole texts

  datatype RootKind = RootOther | RootNumber

  datatype Scan = Scan(result: Verdict, rootKind: RootKind, valueEnd: nat)

  function RootKindAt(s: Text, p: nat): RootKind
    requires p <= |s|
  {
    if p < |s| && (s[p] == MINUS || IsDigit(s[p])) then RootNumber else RootOther
  }

  /** `codex_json_value_scan` on a non-null text. */
  function ScanText(s: Text, maximumDepth: nat): (r: Scan)
    ensures r.result.COMPLETE? ==> 0 < r.valueEnd <= |s|
  {
    if s == [] then Scan(INCOMPLETE, RootOther, 0)
    else if maximumDepth == 0 then Scan(INVALID, RootOther, 0)
    else if !Utf8(s, 0).COMPLETE? then Scan(Utf8(s, 0), RootOther, 0)
    else
      var p := SkipSpace(s, 0);
      match Value(s, p, maximumDepth)
      case Invalid => Scan(INVALID, RootKindAt(s, p), 0)
      case Incomplete => Scan(INCOMPLETE, RootKindAt(s, p), 0)
      case Complete(e) =>
        Scan(if SkipSpace(s, e) == |s| then COMPLETE else INVALID, RootKindAt(s, p), e)
  }

  // ---------------------------------------------------------------- unfolding

  // One step of the mutually recursive functions, as an equation for a given position.

  lemma ElementsStep(s: Text, p: nat, room: nat)
    requires p <= |s|
    ensures Elements(s, p, room) ==
      if Value(s, p, room).Complete? then ElementsTail(s, Value(s, p, room).end, room) else Value(s, p, room)
  {
  }

  lemma ElementsTailStep(s: Text, p: nat, room: nat)
    requires p <= |s|
    ensures var q := SkipSpace(s, p);
      (ElementsTail(s, p, room) ==
       if q >= |s| then Incomplete
       else if s[q] == RBRACKET then Complete(q + 1)
       else if s[q] != COMMA then Invalid
       else if SkipSpace(s, q + 1) >= |s| then Incomplete
       else Elements(s, SkipSpace(s, q + 1), room))
  {
  }

  lemma MembersStep(s: Text, p: nat, room: nat)
    requires p <= |s|
    ensures Members(s, p, room) ==
      if Member(s, p, room).Complete? then MembersTail(s, Member(s, p, room).end, room) else Member(s, p, room)
  {
  }

  lemma MemberStep(s: Text, p: nat, room: nat)
    requires p <= |s|
    ensures Member(s, p, room) ==
      if String(s, p).Complete? then MemberTail(s, String(s, p).end, room) else String(s, p)
  {
  }

  lemma MemberTailStep(s: Text, p: nat, room: nat)
    requires p <= |s|
    ensures var q := SkipSpace(s, p);
      (MemberTail(s, p, room) ==
       if q >= |s| then Incomplete else if s[q] != COLON then Invalid else Value(s, q + 1, room))
  {
  }

  lemma MembersTailStep(s: Text, p: nat, room: nat)
    requires p <= |s|
    ensures var q := SkipSpace(s, p);
      (MembersTail(s, p, room) ==
       if q >= |s| then Incomplete
       else if s[q] == RBRACE then Complete(q + 1)
       else if s[q] != COMMA then Invalid
       else if SkipSpace(s, q + 1) >= |s| then Incomplete
       else Members(s, SkipSpace(s, q + 1), room))
  {
  }
}
