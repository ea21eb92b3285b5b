/** The state that src/protocol/framing.c updates in place, and its reassembling and encoding methods. */
module FramingState {
  import opened Bytes
  import opened JsonSyntax
  import JsonParser
  import opened ChannelSpec
  import opened FramingSpec
  import opened Encoding

  class ChannelState {
    const buffer: array<byte>
    var len: nat
    var numberWaitingDelimiter: bool
    var pendingProtocolCr: bool
    var pendingCrHasDelivery: bool
    var pendingDeliveryLen: nat

    ghost predicate Sized()
      reads this
    {
      buffer.Length == JSON_MAX_SIZE && len <= JSON_MAX_SIZE
    }

    ghost function Abs(): Channel
      requires Sized()
      reads this, buffer
    {
      Channel(buffer[..len], numberWaitingDelimiter, pendingProtocolCr, pendingCrHasDelivery, pendingDeliveryLen)
    }

    ghost predicate Valid()
      reads this, buffer
    {
      Sized() && Inv(Abs())
    }

    constructor ()
      ensures Valid() && Abs() == IDLE && fresh(buffer)
    {
      buffer := new byte[JSON_MAX_SIZE];
      len, numberWaitingDelimiter, pendingProtocolCr, pendingCrHasDelivery, pendingDeliveryLen :=
        0, false, false, false, 0;
    }

    method ResetChannel()
      requires Sized()
      modifies this
      ensures Sized() && Abs() == IDLE
    {
      len := 0;
      numberWaitingDelimiter := false;
      pendingProtocolCr := false;
      pendingCrHasDelivery := false;
      pendingDeliveryLen := 0;
    }

    /** The value that the callback gets. */
    method EmitAndReset(valueLen: nat) returns (json: Text)
      requires Sized() && valueLen <= len
      modifies this
      ensures Sized() && Step(Abs(), Some(json), Ok) == Emit(old(Abs()), valueLen)
    {
      json := buffer[..valueLen];
      assert json == buffer[..len][..valueLen];
      ResetChannel();
    }

    method AnalyzeTrail(valueEnd: nat) returns (trailing: Trailing)
      requires Sized() && valueEnd <= len
      ensures trailing == AnalyzeTrailing(buffer[..len], valueEnd)
    {
      var cursor := valueEnd;
      ghost var s := buffer[..len];
      while cursor < len && (buffer[cursor] == SPACE || buffer[cursor] == TAB)
        invariant valueEnd <= cursor <= len
        invariant SkipBlanks(s, cursor) == SkipBlanks(s, valueEnd)
      {
        cursor := cursor + 1;
      }
      assert cursor == SkipBlanks(s, valueEnd);
      if cursor == len {
        return JsonWhitespace(len);
      }
      assert s[cursor] == buffer[cursor];
      assert cursor + 1 < len ==> s[cursor + 1] == buffer[cursor + 1];
      if buffer[cursor] == LF && cursor + 1 == len {
        return ProtocolTerminator(cursor);
      }
      if buffer[cursor] == CR {
        if cursor + 1 == len {
          return PendingCr(cursor);
        }
        if cursor + 2 == len && buffer[cursor + 1] == LF {
          return ProtocolTerminator(cursor);
        }
      }
      return InvalidTrailing;
    }

    method HandleCompleteValue(scan: Scan, fragmentLen: nat) returns (delivered: Option<Text>, status: Status)
      requires Sized() && scan.valueEnd <= len
      modifies this
      ensures Sized() && Step(Abs(), delivered, status) == HandleComplete(old(Abs()), scan, fragmentLen)
    {
      var trailing := AnalyzeTrail(scan.valueEnd);
      var json;
      match trailing {
        case InvalidTrailing =>
          ResetChannel();
          return None, InvalidInput;
        case ProtocolTerminator(deliveryLen) =>
          json := EmitAndReset(deliveryLen);
          return Some(json), Ok;
        case PendingCr(deliveryLen) =>
          assert buffer[..len][..deliveryLen] == buffer[..deliveryLen];
          len := deliveryLen;
          pendingProtocolCr := true;
          pendingCrHasDelivery := true;
          pendingDeliveryLen := deliveryLen;
          return None, Ok;
        case JsonWhitespace(deliveryLen) =>
          if deliveryLen > scan.valueEnd {
            if fragmentLen == FRAGMENT_MAX {
              return None, Ok;
            }
            json := EmitAndReset(deliveryLen);
            return Some(json), Ok;
          }
      }
      if !scan.rootKind.RootNumber? {
        json := EmitAndReset(scan.valueEnd);
        return Some(json), Ok;
      }
      if !numberWaitingDelimiter && fragmentLen < FRAGMENT_MAX {
        json := EmitAndReset(scan.valueEnd);
        return Some(json), Ok;
      }
      numberWaitingDelimiter := true;
      return None, Ok;
    }

    method HandleLeftover(scan: Scan, overflow: Text) returns (delivered: Option<Text>, status: Status)
      requires Sized() && (scan.result.COMPLETE? ==> scan.valueEnd <= len)
      modifies this
      ensures Sized() && Step(Abs(), delivered, status) == HandleOverflow(old(Abs()), scan, overflow)
    {
      if !scan.result.COMPLETE? {
        ResetChannel();
        return None, TooLong;
      }
      var trailing := AnalyzeTrail(scan.valueEnd);
      var json;
      if trailing.JsonWhitespace? {
        if overflow == [CR] {
          assert buffer[..len][..trailing.deliveryLen] == buffer[..len];
          pendingProtocolCr := true;
          pendingCrHasDelivery := true;
          pendingDeliveryLen := trailing.deliveryLen;
          return None, Ok;
        }
        if overflow == [LF] {
          json := EmitAndReset(trailing.deliveryLen);
          return Some(json), Ok;
        }
        if overflow == [CR, LF] {
          json := EmitAndReset(trailing.deliveryLen);
          return Some(json), Ok;
        }
      } else if trailing.PendingCr? && overflow == [LF] {
        json := EmitAndReset(trailing.deliveryLen);
        return Some(json), Ok;
      }
      ResetChannel();
      return None, TooLong;
    }

    method FlushValue() returns (delivered: Option<Text>, status: Status)
      requires Sized()
      modifies this
      ensures Sized() && Step(Abs(), delivered, status) == Flush(old(Abs()))
    {
      var scan := JsonParser.ScanValue(buffer[..len], JSON_MAX_DEPTH);
      if scan.result.COMPLETE? {
        var trailing := AnalyzeTrail(scan.valueEnd);
        if trailing.JsonWhitespace?
           && (trailing.deliveryLen > scan.valueEnd || (scan.rootKind.RootNumber? && numberWaitingDelimiter)) {
          var json := EmitAndReset(trailing.deliveryLen);
          return Some(json), Ok;
        }
      }
      ResetChannel();
      return None, InvalidInput;
    }

    /** The copy into the buffer, `memcpy` in the source. */
    method Copy(octets: Text)
      requires Sized() && len + |octets| <= JSON_MAX_SIZE
      modifies this`len, buffer
      ensures Sized() && buffer[..len] == old(buffer[..len]) + octets
    {
      forall i | 0 <= i < |octets| {
        buffer[len + i] := octets[i];
      }
      len := len + |octets|;
    }

    method AppendFragment(fragment: Text) returns (delivered: Option<Text>, status: Status)
      requires Valid()
      modifies this, buffer
      ensures Sized() && Step(Abs(), delivered, status) == Append(old(Abs()), fragment)
    {
      hide Inv, ScanText;
      var available := JSON_MAX_SIZE - len;
      var copied := if |fragment| < available then |fragment| else available;
      Copy(fragment[..copied]);
      var scan := JsonParser.ScanValue(buffer[..len], JSON_MAX_DEPTH);
      if copied < |fragment| {
        delivered, status := HandleLeftover(scan, fragment[copied..]);
        return;
      }
      if scan.result.INVALID? {
        ResetChannel();
        return None, InvalidInput;
      }
      if scan.rootKind.RootNumber? && scan.result.INCOMPLETE? {
        numberWaitingDelimiter := true;
      }
      if scan.result.INCOMPLETE? {
        return None, Ok;
      }
      delivered, status := HandleCompleteValue(scan, |fragment|);
    }

    static method CheckPadding(payload: Payload, len: nat) returns (zero: bool)
      requires len <= FRAGMENT_MAX
      ensures zero == PaddingIsZero(payload, len)
    {
      var i := 2 + len;
      while i < PAYLOAD_SIZE
        invariant 2 + len <= i <= PAYLOAD_SIZE
        invariant forall k :: 2 + len <= k < i ==> payload[k] == 0
      {
        if payload[i] != 0 {
          return false;
        }
        i := i + 1;
      }
      return true;
    }

    static lemma BlankFragments(payload: Payload, len: nat)
      requires len <= FRAGMENT_MAX
      ensures var fragment := payload[2..2 + len];
        (fragment == [LF] <==> len == 1 && payload[2] == LF)
        && (fragment == [CR] <==> len == 1 && payload[2] == CR)
        && (fragment == [CR, LF] <==> len == 2 && payload[2] == CR && payload[3] == LF)
    {
      var fragment := payload[2..2 + len];
      if len == 1 {
        assert fragment == [payload[2]];
      } else if len == 2 {
        assert fragment == [payload[2], payload[3]];
      }
    }

    /** `codex_framing_ingest` from the choice of the channel on. */
    method IngestPayload(payload: Payload) returns (delivered: Option<Text>, status: Status)
      requires Valid()
      modifies this, buffer
      ensures Valid() && Step(Abs(), delivered, status) == Deliver(old(Abs()), payload)
    {
      hide ScanText, Append, Flush;
      ghost var before := Abs();
      var fragmentLen := payload[1];
      var padded := false;
      if fragmentLen <= FRAGMENT_MAX {
        padded := CheckPadding(payload, fragmentLen);
      }
      if fragmentLen > FRAGMENT_MAX || !padded {
        ResetChannel();
        return None, InvalidInput;
      }
      var fragment := payload[2..2 + fragmentLen];
      assert WellFormed(payload) && fragment == FragmentOf(payload);
      BlankFragments(payload, fragmentLen);
      IngestAccounts(before, fragment);
      if pendingProtocolCr {
        if fragmentLen == 1 && payload[2] == LF {
          if pendingCrHasDelivery {
            var json := EmitAndReset(pendingDeliveryLen);
            return Some(json), Ok;
          }
          ResetChannel();
          return None, Ok;
        }
        ResetChannel();
        return None, InvalidInput;
      }
      if len == 0 && !numberWaitingDelimiter {
        if fragmentLen == 1 && payload[2] == LF {
          return None, Ok;
        }
        if fragmentLen == 2 && payload[2] == CR && payload[3] == LF {
          return None, Ok;
        }
        if fragmentLen == 1 && payload[2] == CR {
          pendingProtocolCr := true;
          pendingCrHasDelivery := false;
          pendingDeliveryLen := 0;
          return None, Ok;
        }
      }
      if fragmentLen == 0 {
        delivered, status := FlushValue();
      } else {
        delivered, status := AppendFragment(fragment);
      }
    }
  }

  class TransportState {
    const debug: ChannelState
    const rpc: ChannelState
    var generation: u32
    var generationValid: bool

    ghost predicate Separate() {
      debug != rpc && debug.buffer != rpc.buffer
    }

    ghost predicate Valid()
      reads Footprint()
    {
      Separate() && debug.Valid() && rpc.Valid()
    }

    ghost function Abs(): Transport
      requires Valid()
      reads Footprint()
    {
      Transport(debug.Abs(), rpc.Abs(), generation, generationValid)
    }

    ghost function Footprint(): set<object> {
      {this, debug, debug.buffer, rpc, rpc.buffer}
    }

    constructor ()
      ensures Valid() && Abs() == BLANK && fresh(Footprint())
    {
      debug := new ChannelState();
      rpc := new ChannelState();
      generation := 0;
      generationValid := false;
    }

    /** `codex_framing_reset_transport`. */
    method Reset()
      requires Valid()
      modifies Footprint()
      ensures Valid() && Abs() == BLANK
    {
      debug.ResetChannel();
      rpc.ResetChannel();
      generation := 0;
      generationValid := false;
    }

    method Accept(incoming: u32) returns (status: Status)
      requires Valid()
      modifies Footprint()
      ensures Valid() && (Abs(), status) == AcceptGeneration(old(Abs()), incoming)
    {
      if !generationValid {
        debug.ResetChannel();
        rpc.ResetChannel();
        generation := incoming;
        generationValid := true;
        return Ok;
      }
      var difference := Difference(incoming, generation);
      if difference == 0 {
        return Ok;
      }
      if difference >= HALF {
        return Stale;
      }
      debug.ResetChannel();
      rpc.ResetChannel();
      generation := incoming;
      return Ok;
    }

    method Ingest(payload: Payload, connectionGeneration: u32)
      returns (delivered: Option<(ChannelId, Text)>, status: Status)
      requires Valid()
      modifies Footprint()
      ensures Valid() && Received(Abs(), delivered, status) == IngestReport(old(Abs()), payload, connectionGeneration)
    {
      hide Inv, Deliver, WellFormed;
      delivered := None;
      status := Accept(connectionGeneration);
      if status != Ok {
        return;
      }
      var id := ChannelOf(payload[0]);
      if id.None? {
        status := InvalidInput;
        return;
      }
      var value;
      if id.value == Debug {
        value, status := debug.IngestPayload(payload);
      } else {
        value, status := rpc.IngestPayload(payload);
      }
      if value.Some? {
        delivered := Some((id.value, value.value));
      }
    }
  }

  // ---------------------------------------------------------------- encoding

  /** The link takes the first reports up to this many, for `n` reports in all. */
  ghost predicate TakesFirst(takes: nat -> bool, k: nat, n: nat) {
    k <= n && (forall i :: 0 <= i < k ==> takes(i)) && (k < n ==> !takes(k))
  }

  /** The fragment at an offset, and the fragments behind it, within the list of all. */
  lemma FragmentAt(json: Text, i: nat, offset: nat)
    requires offset < |json| && i <= |Fragments(json, 0)| && Fragments(json, 0)[i..] == Fragments(json, offset)
    ensures var all, remaining := Fragments(json, 0), |json| - offset;
      i < |all|
      && if remaining + 2 > FRAGMENT_MAX then
           i + 1 < |all|
           && all[i] == json[offset..offset + Chunk(remaining)]
           && all[i + 1..] == Fragments(json, offset + Chunk(remaining))
         else |all| == i + 1 && all[i] == json[offset..] + [CR, LF]
  {
    var f := Fragments(json, offset);
    assert f[0] == Fragments(json, 0)[i];
    assert Fragments(json, 0)[i + 1..] == f[1..];
  }

  /**
   * `codex_framing_encode`: `takes(i)` is what the emitter answers for report number `i`. The text is
   * checked before anything is sent; the reports go out in order up to the first that is refused.
   */
  method Encode(channel: ChannelId, json: Text, takes: nat -> bool) returns (sent: seq<Payload>, status: Status)
    ensures !Encodable(json) ==> sent == [] && status == if |json| > JSON_MAX_SIZE then TooLong else InvalidInput
    ensures Encodable(json) ==>
      TakesFirst(takes, |sent|, |Reports(channel, json)|)
      && sent == Reports(channel, json)[..|sent|]
      && status == if |sent| == |Reports(channel, json)| then Ok else SendFailed
  {
    hide ScanText, Fragments, PayloadOf, Reports;
    sent := [];
    if |json| == 0 {
      return [], InvalidInput;
    }
    if |json| > JSON_MAX_SIZE {
      return [], TooLong;
    }
    var scan := JsonParser.ScanValue(json, JSON_MAX_DEPTH);
    if !scan.result.COMPLETE? {
      return [], InvalidInput;
    }
    ghost var all := Reports(channel, json);
    var offset := 0;
    while |json| - offset + 2 > FRAGMENT_MAX
      invariant offset < |json| && |sent| < |all|
      invariant forall i :: 0 <= i < |sent| ==> takes(i)
      invariant sent == all[..|sent|]
      invariant Fragments(json, 0)[|sent|..] == Fragments(json, offset)
      decreases |json| - offset
    {
      var remaining := |json| - offset;
      var chunk := if remaining > FRAGMENT_MAX then FRAGMENT_MAX else remaining - 1;
      var payload := Pack(channel, json[offset..offset + chunk]);
      FragmentAt(json, |sent|, offset);
      assert payload == all[|sent|];
      if !takes(|sent|) {
        return sent, SendFailed;
      }
      sent := sent + [payload];
      offset := offset + chunk;
    }
    var payload := Pack(channel, json[offset..] + [CR, LF]);
    FragmentAt(json, |sent|, offset);
    assert payload == all[|sent|];
    if !takes(|sent|) {
      return sent, SendFailed;
    }
    return sent + [payload], Ok;
  }

  /** A zeroed report filled with channel, length and octets. */
  method Pack(channel: ChannelId, octets: Text) returns (payload: Payload)
    requires |octets| <= FRAGMENT_MAX
    ensures payload == PayloadOf(channel, octets)
  {
    var report := new byte[PAYLOAD_SIZE](_ => 0);
    report[0] := CodeOf(channel);
    report[1] := |octets|;
    forall i | 0 <= i < |octets| {
      report[2 + i] := octets[i];
    }
    payload := report[..];
  }
}
