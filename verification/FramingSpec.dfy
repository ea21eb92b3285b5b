/** The framing layer: two transports with a generation each, two channels per transport. */
module FramingSpec {
  import opened Bytes
  import opened ChannelSpec
  import opened ChannelRuns
  import opened Encoding

  const PAYLOAD_SIZE: nat := 63

  datatype ChannelId = Debug | Rpc

  datatype Source = Usb | Ble

  /** A vendor report: channel, length, up to 61 octets, zero padding. */
  type Payload = p: Text | |p| == PAYLOAD_SIZE witness seq(63, _ => 0)

  function ChannelOf(code: byte): Option<ChannelId> {
    if code == 0x01 then Some(Debug) else if code == 0x02 then Some(Rpc) else None
  }

  function CodeOf(channel: ChannelId): byte {
    match channel case Debug => 0x01 case Rpc => 0x02
  }

  predicate PaddingIsZero(payload: Payload, len: nat)
    requires len <= FRAGMENT_MAX
  {
    forall i :: 2 + len <= i < PAYLOAD_SIZE ==> payload[i] == 0
  }

  predicate WellFormed(payload: Payload) {
    payload[1] <= FRAGMENT_MAX && PaddingIsZero(payload, payload[1])
  }

  function FragmentOf(payload: Payload): (f: Text)
    requires WellFormed(payload)
    ensures |f| == payload[1]
  {
    payload[2..2 + payload[1]]
  }

  /** The report that carries a fragment. */
  function PayloadOf(channel: ChannelId, fragment: Text): (p: Payload)
    requires |fragment| <= FRAGMENT_MAX
    ensures ChannelOf(p[0]) == Some(channel) && WellFormed(p) && FragmentOf(p) == fragment
  {
    var p := [CodeOf(channel), |fragment| as byte] + fragment + seq(FRAGMENT_MAX - |fragment|, _ => 0);
    assert p[2..2 + |fragment|] == fragment;
    p
  }

  // ---------------------------------------------------------------- generations

  datatype Transport = Transport(debug: Channel, rpc: Channel, generation: u32, generationValid: bool)

  /** What `codex_framing_reset_transport` leaves. */
  const BLANK: Transport := Transport(IDLE, IDLE, 0, false)

  const HALF: int := 0x8000_0000

  /** Each channel keeps its invariant. */
  predicate TransportInv(t: Transport) {
    forall id :: Inv(Get(t, id))
  }

  /** Unsigned 32-bit subtraction. */
  function Difference(a: u32, b: u32): (d: u32) {
    if a >= b then a - b else a - b + U32
  }

  function AcceptGeneration(t: Transport, incoming: u32): (r: (Transport, Status)) {
    if !t.generationValid then (Transport(IDLE, IDLE, incoming, true), Ok)
    else
      var difference := Difference(incoming, t.generation);
      if difference == 0 then (t, Ok)
      else if difference >= HALF then (t, Stale)
      else (Transport(IDLE, IDLE, incoming, true), Ok)
  }

  /**
   * The 32-bit test refines an unbounded counter: an incoming count within half the range of the
   * current one is accepted exactly when it is not older, across any number of wrap-arounds; a newer
   * one starts afresh, an older one changes nothing.
   */
  lemma GenerationRefinesCounter(t: Transport, current: nat, incoming: nat)
    requires t.generationValid && t.generation == current % U32
    requires -HALF < incoming - current < HALF
    ensures var (t', status) := AcceptGeneration(t, incoming % U32);
      (status == Ok <==> current <= incoming)
      && (current <= incoming ==> t'.generationValid && t'.generation == incoming % U32)
      && (current == incoming ==> t' == t)
      && (current < incoming ==> t'.debug == IDLE && t'.rpc == IDLE)
      && (incoming < current ==> status == Stale && t' == t)
  {
    var d := incoming - current;
    assert Difference(incoming % U32, current % U32) == d % U32;
  }

  /** The newest of the counts seen. */
  function Newest(current: nat, incoming: seq<nat>): (n: nat)
    ensures current <= n
    decreases |incoming|
  {
    if incoming == [] then current
    else Newest(if incoming[0] > current then incoming[0] else current, incoming[1..])
  }

  ghost predicate StaysNear(current: nat, incoming: seq<nat>)
    decreases |incoming|
  {
    incoming == [] ||
    (-HALF < incoming[0] - current < HALF
     && StaysNear(if incoming[0] > current then incoming[0] else current, incoming[1..]))
  }

  function AcceptAll(t: Transport, incoming: seq<nat>): Transport
    decreases |incoming|
  {
    if incoming == [] then t else AcceptAll(AcceptGeneration(t, incoming[0] % U32).0, incoming[1..])
  }

  /** Over a run the stored generation is that of the newest count, however often it wraps. */
  lemma {:induction false} GenerationsFollowNewest(t: Transport, current: nat, incoming: seq<nat>)
    requires t.generationValid && t.generation == current % U32 && StaysNear(current, incoming)
    ensures AcceptAll(t, incoming).generationValid && AcceptAll(t, incoming).generation == Newest(current, incoming) % U32
    decreases |incoming|
  {
    if incoming != [] {
      GenerationRefinesCounter(t, current, incoming[0]);
      var t' := AcceptGeneration(t, incoming[0] % U32).0;
      GenerationsFollowNewest(t', if incoming[0] > current then incoming[0] else current, incoming[1..]);
    }
  }

  // ---------------------------------------------------------------- one report

  /** A report on its channel: a malformed one resets the channel. */
  function Deliver(ch: Channel, payload: Payload): (step: Step)
    requires Inv(ch)
    ensures Inv(step.channel)
  {
    if WellFormed(payload) then Next(ch, FragmentOf(payload)) else Fail(InvalidInput)
  }

  function Get(t: Transport, id: ChannelId): Channel {
    match id case Debug => t.debug case Rpc => t.rpc
  }

  function Put(t: Transport, id: ChannelId, ch: Channel): Transport {
    match id case Debug => t.(debug := ch) case Rpc => t.(rpc := ch)
  }

  lemma PutIsSound(t: Transport, id: ChannelId, ch: Channel)
    requires TransportInv(t) && Inv(ch)
    ensures TransportInv(Put(t, id, ch))
  {
    hide Inv;
    forall other ensures Inv(Get(Put(t, id, ch), other)) {
      assert Get(Put(t, id, ch), other) == if other == id then ch else Get(t, other);
    }
  }

  datatype Received = Received(transport: Transport, delivered: Option<(ChannelId, Text)>, status: Status)

  /** `codex_framing_ingest` on one transport. */
  function IngestReport(t: Transport, payload: Payload, generation: u32): (r: Received)
    requires TransportInv(t)
    ensures TransportInv(r.transport)
  {
    hide Inv, Deliver, Put;
    IdleIsSound();
    var (accepted, status) := AcceptGeneration(t, generation);
    if status != Ok then Received(accepted, None, status)
    else
      match ChannelOf(payload[0])
      case None => Received(accepted, None, InvalidInput)
      case Some(id) =>
        var step := Deliver(Get(accepted, id), payload);
        PutIsSound(accepted, id, step.channel);
        Received(Put(accepted, id, step.channel),
                 match step.delivered case None => None case Some(v) => Some((id, v)),
                 step.status)
  }

  // ---------------------------------------------------------------- interleaving

  datatype Framing = Framing(usb: Transport, ble: Transport)

  function TransportOf(f: Framing, source: Source): Transport {
    match source case Usb => f.usb case Ble => f.ble
  }

  function WithTransport(f: Framing, source: Source, t: Transport): Framing {
    match source case Usb => f.(usb := t) case Ble => f.(ble := t)
  }

  predicate FramingInv(f: Framing) {
    forall source :: TransportInv(TransportOf(f, source))
  }

  lemma WithIsSound(f: Framing, source: Source, t: Transport)
    requires FramingInv(f) && TransportInv(t)
    ensures FramingInv(WithTransport(f, source, t))
  {
    hide TransportInv;
    forall other ensures TransportInv(TransportOf(WithTransport(f, source, t), other)) {
      assert TransportOf(WithTransport(f, source, t), other) == if other == source then t else TransportOf(f, other);
    }
  }

  datatype Input = Input(source: Source, payload: Payload)
  datatype Output = Output(source: Source, channel: ChannelId, text: Text)

  /** The generation each transport is fixed at. */
  predicate FixedAt(f: Framing, usb: u32, ble: u32) {
    f.usb.generationValid && f.usb.generation == usb && f.ble.generationValid && f.ble.generation == ble
  }

  function OutputOf(source: Source, delivered: Option<(ChannelId, Text)>): seq<Output> {
    match delivered case None => [] case Some(d) => [Output(source, d.0, d.1)]
  }

  function RunInputs(f: Framing, inputs: seq<Input>, usb: u32, ble: u32): (r: (Framing, seq<Output>))
    requires FramingInv(f)
    ensures FramingInv(r.0)
    decreases |inputs|
  {
    if inputs == [] then (f, [])
    else
      var input := inputs[0];
      var received := IngestReport(TransportOf(f, input.source), input.payload, if input.source == Usb then usb else ble);
      WithIsSound(f, input.source, received.transport);
      var rest := RunInputs(WithTransport(f, input.source, received.transport), inputs[1..], usb, ble);
      (rest.0, OutputOf(input.source, received.delivered) + rest.1)
  }

  /** The reports for one channel of one transport. */
  function PayloadsFor(inputs: seq<Input>, source: Source, id: ChannelId): seq<Payload> {
    if inputs == [] then []
    else
      var rest := PayloadsFor(inputs[1..], source, id);
      if inputs[0].source == source && ChannelOf(inputs[0].payload[0]) == Some(id)
      then [inputs[0].payload] + rest else rest
  }

  function TextsFrom(outputs: seq<Output>, source: Source, id: ChannelId): seq<Text> {
    if outputs == [] then []
    else
      var rest := TextsFrom(outputs[1..], source, id);
      if outputs[0].source == source && outputs[0].channel == id then [outputs[0].text] + rest else rest
  }

  /** One channel on its own. */
  function RunAlone(ch: Channel, payloads: seq<Payload>): (r: (Channel, seq<Text>))
    requires Inv(ch)
    ensures Inv(r.0)
    decreases |payloads|
  {
    if payloads == [] then (ch, [])
    else
      var step := Deliver(ch, payloads[0]);
      var rest := RunAlone(step.channel, payloads[1..]);
      (rest.0, Values(step.delivered) + rest.1)
  }

  lemma TextsOfHead(head: seq<Output>, rest: seq<Output>, source: Source, id: ChannelId)
    requires |head| <= 1
    ensures TextsFrom(head + rest, source, id) ==
      (if head != [] && head[0].source == source && head[0].channel == id then [head[0].text] else []) + TextsFrom(rest, source, id)
  {
    if head == [] {
      assert head + rest == rest;
    } else {
      assert (head + rest)[1..] == rest;
    }
  }

  /** One report touches only the channel it names, and there it does what it does alone. */
  lemma ReportIsLocal(t: Transport, payload: Payload, generation: u32, id: ChannelId)
    requires TransportInv(t) && t.generationValid && t.generation == generation
    ensures var r := IngestReport(t, payload, generation);
      r.transport.generationValid && r.transport.generation == generation
      && if ChannelOf(payload[0]) == Some(id) then
           Get(r.transport, id) == Deliver(Get(t, id), payload).channel
           && r.delivered == match Deliver(Get(t, id), payload).delivered case None => None case Some(v) => Some((id, v))
         else
           Get(r.transport, id) == Get(t, id) && (r.delivered.Some? ==> r.delivered.value.0 != id)
  {
    hide Deliver, Inv;
  }

  /**
   * Whatever the interleaving, each channel of each transport delivers what its own reports deliver
   * when they are run alone, and ends in the same state.
   */
  lemma {:induction false} InterleavingIsIrrelevant(f: Framing, inputs: seq<Input>, usb: u32, ble: u32, source: Source, id: ChannelId)
    requires FramingInv(f) && FixedAt(f, usb, ble)
    ensures var (f', outputs) := RunInputs(f, inputs, usb, ble);
      var alone := RunAlone(Get(TransportOf(f, source), id), PayloadsFor(inputs, source, id));
      FixedAt(f', usb, ble)
      && TextsFrom(outputs, source, id) == alone.1
      && Get(TransportOf(f', source), id) == alone.0
    decreases |inputs|
  {
    hide Deliver, Inv, IngestReport, ChannelOf, Get;
    if inputs != [] {
      var input := inputs[0];
      var generation := if input.source == Usb then usb else ble;
      var received := IngestReport(TransportOf(f, input.source), input.payload, generation);
      var next := WithTransport(f, input.source, received.transport);
      WithIsSound(f, input.source, received.transport);
      ReportIsLocal(TransportOf(f, input.source), input.payload, generation, id);
      InterleavingIsIrrelevant(next, inputs[1..], usb, ble, source, id);
      TextsOfHead(OutputOf(input.source, received.delivered), RunInputs(next, inputs[1..], usb, ble).1, source, id);
    }
  }

  /** Reports that carry fragments run like the fragments. */
  lemma {:induction false} WellFormedRunsAsFragments(ch: Channel, id: ChannelId, fragments: seq<Text>)
    requires Inv(ch) && forall i :: 0 <= i < |fragments| ==> |fragments[i]| <= FRAGMENT_MAX
    ensures RunAlone(ch, Payloads(id, fragments)) == (Run(ch, fragments).channel, Run(ch, fragments).delivered)
    decreases |fragments|
  {
    hide Inv, Next;
    if fragments != [] {
      var step := Next(ch, fragments[0]);
      WellFormedRunsAsFragments(step.channel, id, fragments[1..]);
      assert Payloads(id, fragments)[1..] == Payloads(id, fragments[1..]);
    }
  }

  function Payloads(id: ChannelId, fragments: seq<Text>): (p: seq<Payload>)
    requires forall i :: 0 <= i < |fragments| ==> |fragments[i]| <= FRAGMENT_MAX
    ensures |p| == |fragments|
    ensures forall i :: 0 <= i < |p| ==> p[i] == PayloadOf(id, fragments[i])
  {
    seq(|fragments|, i requires 0 <= i < |fragments| => PayloadOf(id, fragments[i]))
  }

  /** A newer generation empties both channels of its own transport, and the other transport keeps its state. */
  lemma NewerClearsOnlyItsTransport(f: Framing, source: Source, other: Source, payload: Payload, generation: u32)
    requires FramingInv(f) && source != other && TransportOf(f, source).generationValid
    requires 0 < Difference(generation, TransportOf(f, source).generation) < HALF
    ensures var t := TransportOf(f, source);
      var f' := WithTransport(f, source, IngestReport(t, payload, generation).transport);
      IngestReport(t, payload, generation) == IngestReport(BLANK, payload, generation)
      && TransportOf(f', other) == TransportOf(f, other)
  {
  }

  // ---------------------------------------------------------------- encoding

  /** The reports of an encoded text. */
  function Reports(channel: ChannelId, json: Text): (r: seq<Payload>)
    requires Encodable(json)
    ensures |r| == |Fragments(json, 0)|
    ensures forall i :: 0 <= i < |r| ==> |Fragments(json, 0)[i]| <= FRAGMENT_MAX && r[i] == PayloadOf(channel, Fragments(json, 0)[i])
  {
    FragmentsFit(json, 0);
    Payloads(channel, Fragments(json, 0))
  }
}
