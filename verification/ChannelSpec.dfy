/** One reassembly channel of src/protocol/framing.c as a function from its state and a fragment. */
module ChannelSpec {
  import opened Bytes
  import opened JsonSyntax
  import opened JsonPrefix

  const FRAGMENT_MAX: nat := 61
  const JSON_MAX_SIZE: nat := 1024
  const JSON_MAX_DEPTH: nat := 32

  /** `buffer` is the filled part of the channel's 1024 octets. */
  datatype Channel = Channel(
    buffer: Text,
    numberWaiting: bool,
    pendingCr: bool,
    pendingHasDelivery: bool,
    pendingLen: nat)

  const IDLE: Channel := Channel([], false, false, false, 0)

  // ---------------------------------------------------------------- what follows a value

  predicate IsBlank(b: byte) { b == SPACE || b == TAB }

  function SkipBlanks(s: Text, p: nat): (q: nat)
    requires p <= |s|
    ensures p <= q <= |s|
    ensures forall i :: p <= i < q ==> IsBlank(s[i])
    ensures q < |s| ==> !IsBlank(s[q])
    decreases |s| - p
  {
    if p < |s| && IsBlank(s[p]) then SkipBlanks(s, p + 1) else p
  }

  datatype Trailing =
    | JsonWhitespace(deliveryLen: nat)
    | ProtocolTerminator(deliveryLen: nat)
    | PendingCr(deliveryLen: nat)
    | InvalidTrailing

  function AnalyzeTrailing(s: Text, valueEnd: nat): (t: Trailing)
    requires valueEnd <= |s|
    ensures !t.InvalidTrailing? ==> valueEnd <= t.deliveryLen <= |s|
  {
    var cursor := SkipBlanks(s, valueEnd);
    if cursor == |s| then JsonWhitespace(|s|)
    else if s[cursor] == LF && cursor + 1 == |s| then ProtocolTerminator(cursor)
    else if s[cursor] == CR && cursor + 1 == |s| then PendingCr(cursor)
    else if s[cursor] == CR && cursor + 2 == |s| && s[cursor + 1] == LF then ProtocolTerminator(cursor)
    else InvalidTrailing
  }

  // ---------------------------------------------------------------- one fragment

  datatype Step = Step(channel: Channel, delivered: Option<Text>, status: Status)

  predicate Valid(ch: Channel) {
    |ch.buffer| <= JSON_MAX_SIZE && (ch.pendingCr && ch.pendingHasDelivery ==> ch.pendingLen <= |ch.buffer|)
  }

  function Emit(ch: Channel, len: nat): Step
    requires len <= |ch.buffer|
  {
    Step(IDLE, Some(ch.buffer[..len]), Ok)
  }

  function Fail(status: Status): Step {
    Step(IDLE, None, status)
  }

  function AwaitLf(ch: Channel, len: nat): Step
    requires len <= |ch.buffer|
  {
    Step(ch.(buffer := ch.buffer[..len], pendingCr := true, pendingHasDelivery := true, pendingLen := len), None, Ok)
  }

  function HandleComplete(ch: Channel, scan: Scan, fragmentLen: nat): Step
    requires scan.valueEnd <= |ch.buffer|
  {
    match AnalyzeTrailing(ch.buffer, scan.valueEnd)
    case InvalidTrailing => Fail(InvalidInput)
    case ProtocolTerminator(len) => Emit(ch, len)
    case PendingCr(len) => AwaitLf(ch, len)
    case JsonWhitespace(len) =>
      if len > scan.valueEnd then
        if fragmentLen == FRAGMENT_MAX then Step(ch, None, Ok) else Emit(ch, len)
      else if !scan.rootKind.RootNumber? then Emit(ch, scan.valueEnd)
      else if !ch.numberWaiting && fragmentLen < FRAGMENT_MAX then Emit(ch, scan.valueEnd)
      else Step(ch.(numberWaiting := true), None, Ok)
  }

  /** The buffer is full and `leftover` did not fit: only a line terminator may stick out. */
  function HandleOverflow(ch: Channel, scan: Scan, leftover: Text): Step
    requires scan.result.COMPLETE? ==> scan.valueEnd <= |ch.buffer|
  {
    if !scan.result.COMPLETE? then Fail(TooLong)
    else
      match AnalyzeTrailing(ch.buffer, scan.valueEnd)
      case JsonWhitespace(len) =>
        if leftover == [CR] then AwaitLf(ch, len)
        else if leftover == [LF] || leftover == [CR, LF] then Emit(ch, len)
        else Fail(TooLong)
      case PendingCr(len) => if leftover == [LF] then Emit(ch, len) else Fail(TooLong)
      case _ => Fail(TooLong)
  }

  /** A fragment of length 0 delimits a value that waits for more. */
  function Flush(ch: Channel): Step {
    var scan := ScanText(ch.buffer, JSON_MAX_DEPTH);
    if scan.result.COMPLETE? then
      match AnalyzeTrailing(ch.buffer, scan.valueEnd)
      case JsonWhitespace(len) =>
        if len > scan.valueEnd || (scan.rootKind.RootNumber? && ch.numberWaiting) then Emit(ch, len)
        else Fail(InvalidInput)
      case _ => Fail(InvalidInput)
    else Fail(InvalidInput)
  }

  function Append(ch: Channel, fragment: Text): Step
    requires Valid(ch)
  {
    var available := JSON_MAX_SIZE - |ch.buffer|;
    var copied := if |fragment| < available then |fragment| else available;
    var grown := ch.(buffer := ch.buffer + fragment[..copied]);
    var scan := ScanText(grown.buffer, JSON_MAX_DEPTH);
    if copied < |fragment| then HandleOverflow(grown, scan, fragment[copied..])
    else
      match scan.result
      case INVALID => Fail(InvalidInput)
      case INCOMPLETE => Step(grown.(numberWaiting := ch.numberWaiting || scan.rootKind.RootNumber?), None, Ok)
      case COMPLETE => HandleComplete(grown, scan, |fragment|)
  }

  /** `codex_framing_ingest` from the channel on, for a well-formed payload. */
  function Ingest(ch: Channel, fragment: Text): Step
    requires Valid(ch)
  {
    if ch.pendingCr then
      if fragment != [LF] then Fail(InvalidInput)
      else if ch.pendingHasDelivery then Emit(ch, ch.pendingLen)
      else Step(IDLE, None, Ok)
    else if |ch.buffer| == 0 && !ch.numberWaiting && (fragment == [LF] || fragment == [CR, LF]) then
      Step(ch, None, Ok)
    else if |ch.buffer| == 0 && !ch.numberWaiting && fragment == [CR] then
      Step(ch.(pendingCr := true, pendingHasDelivery := false, pendingLen := 0), None, Ok)
    else if fragment == [] then Flush(ch)
    else Append(ch, fragment)
  }

  // ---------------------------------------------------------------- the invariant

  /** Acceptable, and behind its value only spaces and tabs. */
  predicate Deliverable(s: Text) {
    var scan := ScanText(s, JSON_MAX_DEPTH);
    |s| <= JSON_MAX_SIZE && scan.result.COMPLETE? && AnalyzeTrailing(s, scan.valueEnd) == JsonWhitespace(|s|)
  }

  /** Why a channel keeps an acceptable text instead of delivering it. */
  predicate MayGoOn(ch: Channel) {
    var scan := ScanText(ch.buffer, JSON_MAX_DEPTH);
    Deliverable(ch.buffer) && (|ch.buffer| > scan.valueEnd || (scan.rootKind.RootNumber? && ch.numberWaiting))
  }

  /** What holds of a channel between two fragments. */
  predicate Inv(ch: Channel) {
    |ch.buffer| <= JSON_MAX_SIZE
    && (!ch.pendingCr ==>
        !ch.pendingHasDelivery && ch.pendingLen == 0
        && if ch.buffer == [] then !ch.numberWaiting
           else ScanText(ch.buffer, JSON_MAX_DEPTH).result.INCOMPLETE? || MayGoOn(ch))
    && (ch.pendingCr ==>
        ch.pendingLen == |ch.buffer|
        && if ch.pendingHasDelivery then Deliverable(ch.buffer) else ch.buffer == [] && !ch.numberWaiting)
  }

  /** The octets a channel has taken since it was last idle. */
  function Received(ch: Channel): Text {
    ch.buffer + if ch.pendingCr then [CR] else []
  }

  predicate IsTerminator(t: Text) { t == [] || t == [LF] || t == [CR, LF] }

  lemma {:induction false} SkipBlanksTo(s: Text, p: nat, e: nat)
    requires p <= e <= |s| && (forall i :: p <= i < e ==> IsBlank(s[i])) && (e < |s| ==> !IsBlank(s[e]))
    ensures SkipBlanks(s, p) == e
    decreases e - p
  {
    if p < e {
      SkipBlanksTo(s, p + 1, e);
    }
  }

  /** An acceptable text without its line terminator is deliverable. */
  lemma CutIsDeliverable(s: Text, n: nat)
    requires |s| <= JSON_MAX_SIZE && ScanText(s, JSON_MAX_DEPTH).result.COMPLETE?
    requires ScanText(s, JSON_MAX_DEPTH).valueEnd <= n == SkipBlanks(s, ScanText(s, JSON_MAX_DEPTH).valueEnd)
    ensures Deliverable(s[..n]) && ScanText(s[..n], JSON_MAX_DEPTH) == ScanText(s, JSON_MAX_DEPTH)
  {
    ScanPrefix(s[..n], s, JSON_MAX_DEPTH);
    SkipBlanksTo(s[..n], ScanText(s, JSON_MAX_DEPTH).valueEnd, n);
  }

  /** What a step may do with the octets `taken` that the channel has now received. */
  ghost predicate Accounts(step: Step, taken: Text) {
    Inv(step.channel)
    && (step.status != Ok ==> step.channel == IDLE && step.delivered.None?)
    && (step.delivered.Some? ==>
        step.channel == IDLE && Deliverable(step.delivered.value)
        && step.delivered.value <= taken && IsTerminator(taken[|step.delivered.value|..]))
    && (step.delivered.None? && step.status == Ok ==>
        if step.channel == IDLE then IsTerminator(taken) else Received(step.channel) == taken)
  }

  lemma EmitAccounts(ch: Channel, len: nat)
    requires len <= |ch.buffer| && Deliverable(ch.buffer[..len]) && IsTerminator(ch.buffer[len..])
    ensures Accounts(Emit(ch, len), ch.buffer)
  {
    hide Deliverable;
    assert ch.buffer == ch.buffer[..len] + ch.buffer[len..];
    IdleIsSound();
  }

  lemma AwaitAccounts(ch: Channel, len: nat)
    requires |ch.buffer| <= JSON_MAX_SIZE && len + 1 == |ch.buffer| && ch.buffer[len] == CR && Deliverable(ch.buffer[..len])
    ensures Accounts(AwaitLf(ch, len), ch.buffer)
  {
    hide ScanText, AnalyzeTrailing;
    assert ch.buffer == ch.buffer[..len] + [CR];
    DeliverableIsComplete(ch.buffer[..len]);
  }

  lemma DeliverableIsComplete(s: Text)
    requires Deliverable(s)
    ensures s != [] && ScanText(s, JSON_MAX_DEPTH).result.COMPLETE?
  {
  }

  lemma KeepAccounts(ch: Channel, waiting: bool)
    requires |ch.buffer| <= JSON_MAX_SIZE && !ch.pendingCr && !ch.pendingHasDelivery && ch.pendingLen == 0
    requires MayGoOn(ch.(numberWaiting := waiting)) && ScanText(ch.buffer, JSON_MAX_DEPTH).result.COMPLETE?
    ensures Accounts(Step(ch.(numberWaiting := waiting), None, Ok), ch.buffer)
  {
    hide ScanText, MayGoOn;
    EmptyIsIncomplete();
  }

  lemma IdleIsSound()
    ensures Inv(IDLE)
  {
  }

  lemma FailAccounts(status: Status, taken: Text)
    requires status != Ok
    ensures Accounts(Fail(status), taken)
  {
    hide Inv;
    IdleIsSound();
  }

  lemma CompleteAccounts(ch: Channel, fragmentLen: nat)
    requires |ch.buffer| <= JSON_MAX_SIZE && !ch.pendingCr && !ch.pendingHasDelivery && ch.pendingLen == 0
    requires ScanText(ch.buffer, JSON_MAX_DEPTH).result.COMPLETE?
    ensures Accounts(HandleComplete(ch, ScanText(ch.buffer, JSON_MAX_DEPTH), fragmentLen), ch.buffer)
  {
    hide ScanText, SkipBlanks, Accounts, Deliverable, Emit, AwaitLf, Fail;
    var scan := ScanText(ch.buffer, JSON_MAX_DEPTH);
    var n := SkipBlanks(ch.buffer, scan.valueEnd);
    CutIsDeliverable(ch.buffer, n);
    match AnalyzeTrailing(ch.buffer, scan.valueEnd)
    case InvalidTrailing =>
      FailAccounts(InvalidInput, ch.buffer);
    case ProtocolTerminator(len) =>
      EmitAccounts(ch, len);
    case PendingCr(len) =>
      AwaitAccounts(ch, len);
    case JsonWhitespace(len) =>
      assert ch.buffer[..len] == ch.buffer && ch.buffer[len..] == [];
      EmitAccounts(ch, len);
      if len > scan.valueEnd {
        if fragmentLen == FRAGMENT_MAX {
          KeepAccounts(ch, ch.numberWaiting);
          assert ch.(numberWaiting := ch.numberWaiting) == ch;
        }
      } else if scan.rootKind.RootNumber? && !(!ch.numberWaiting && fragmentLen < FRAGMENT_MAX) {
        KeepAccounts(ch, true);
      }
  }

  lemma OverflowAccounts(ch: Channel, leftover: Text)
    requires |ch.buffer| == JSON_MAX_SIZE && !ch.pendingCr && !ch.pendingHasDelivery && ch.pendingLen == 0
    ensures Accounts(HandleOverflow(ch, ScanText(ch.buffer, JSON_MAX_DEPTH), leftover), ch.buffer + leftover)
  {
    hide ScanText;
    var scan := ScanText(ch.buffer, JSON_MAX_DEPTH);
    if scan.result.COMPLETE? {
      CutIsDeliverable(ch.buffer, SkipBlanks(ch.buffer, scan.valueEnd));
      var t := AnalyzeTrailing(ch.buffer, scan.valueEnd);
      assert ch.buffer[..|ch.buffer|] == ch.buffer;
      if t.PendingCr? {
        assert ch.buffer == ch.buffer[..t.deliveryLen] + [CR];
      }
    }
  }

  lemma AppendAccounts(ch: Channel, fragment: Text)
    requires Inv(ch) && !ch.pendingCr && fragment != []
    ensures Accounts(Append(ch, fragment), ch.buffer + fragment)
  {
    hide ScanText;
    var available := JSON_MAX_SIZE - |ch.buffer|;
    var copied := if |fragment| < available then |fragment| else available;
    var grown := ch.(buffer := ch.buffer + fragment[..copied]);
    if copied < |fragment| {
      OverflowAccounts(grown, fragment[copied..]);
      assert grown.buffer + fragment[copied..] == ch.buffer + fragment;
    } else {
      assert grown.buffer == ch.buffer + fragment;
      if ScanText(grown.buffer, JSON_MAX_DEPTH).result.COMPLETE? {
        CompleteAccounts(grown, |fragment|);
      }
    }
  }

  lemma FlushAccounts(ch: Channel)
    requires Inv(ch) && !ch.pendingCr
    ensures Accounts(Flush(ch), ch.buffer)
  {
    hide ScanText;
    assert ch.buffer[..|ch.buffer|] == ch.buffer;
  }

  /**
   * Every step keeps the invariant and accounts for every octet: it delivers at most one value,
   * which is acceptable and ends in its root and blanks; together with the terminator that it
   * drops the value is what the channel has received since it was idle; otherwise the channel
   * keeps it all, or the octets were a stray terminator, or an error drops them.
   */
  lemma IngestAccounts(ch: Channel, fragment: Text)
    requires Inv(ch)
    ensures Accounts(Ingest(ch, fragment), Received(ch) + fragment)
  {
    hide ScanText, Append, Flush;
    var taken := Received(ch) + fragment;
    if ch.pendingCr {
      if fragment == [LF] {
        assert ch.buffer[..ch.pendingLen] == ch.buffer;
        assert taken == ch.buffer + [CR, LF];
      }
    } else {
      assert Received(ch) == ch.buffer;
      if |ch.buffer| == 0 && !ch.numberWaiting && (fragment == [LF] || fragment == [CR, LF] || fragment == [CR]) {
        assert taken == fragment;
      } else if fragment == [] {
        assert taken == ch.buffer;
        FlushAccounts(ch);
      } else {
        AppendAccounts(ch, fragment);
      }
    }
  }

  /** What a channel keeps never scans INVALID; which of it can become acceptable is in JsonExtension. */
  lemma RetainedIsNeverInvalid(ch: Channel, fragment: Text)
    requires Inv(ch)
    ensures !ScanText(Ingest(ch, fragment).channel.buffer, JSON_MAX_DEPTH).result.INVALID?
  {
    hide ScanText;
    IngestAccounts(ch, fragment);
    EmptyIsIncomplete();
  }

  lemma EmptyIsIncomplete()
    ensures ScanText([], JSON_MAX_DEPTH) == Scan(INCOMPLETE, RootOther, 0)
  {
  }
}
