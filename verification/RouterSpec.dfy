/** The report router of src/transport/report_router.c as a state machine over its locked sections. */
module RouterSpec {
  import opened Bytes
  import opened ChannelSpec
  import opened Encoding
  import opened FramingSpec

  const INGRESS_DEPTH: nat := 4

  /** `struct codex_route_state`. */
  datatype Route = Route(
    active: Source, hasActive: bool, usbReady: bool, bleConnected: bool, bleProfile: byte,
    usbGeneration: u32, bleGeneration: u32)

  datatype Recovery = NoRecovery | DetachPending | ReenablePending

  /** `struct codex_ble_source_token`. */
  datatype Token = Token(profile: byte, generation: u32)

  const NO_TOKEN: Token := Token(0, 0)

  /** `struct ingress_item`. */
  datatype Item = Item(source: Source, generation: u32, token: Token, payload: Payload)

  /** `struct pinned_route`; `holdsConnection` stands for a connection pointer that is not null. */
  datatype Pin = Pin(
    source: Source, generation: u32, token: Token, holdsConnection: bool,
    emitted: nat, abortBle: bool, recoverUsb: bool)

  /**
   * The whole router. `inFlight` is the item the work handler has dequeued and not yet processed;
   * `pins` are the routes whose locked section is over and whose `finalize_pin` is still to come;
   * `references` counts the Bluetooth connection references that were taken and not given back;
   * `hidsGeneration` is the counter of ble_hids.c, which also others increment.
   */
  datatype State = State(
    route: Route, usbQueue: seq<Item>, bleQueue: seq<Item>, inFlight: Option<Item>, framing: Framing,
    recovery: Recovery, recoveryScheduled: bool, hidsGeneration: u32, references: int, pins: seq<Pin>)

  const RESET: State := State(
    Route(Usb, false, false, false, 0, 0, 0), [], [], None, Framing(BLANK, BLANK), NoRecovery, false, 0, 0, [])

  // ---------------------------------------------------------------- the route

  function Increment(n: u32): u32 {
    if n + 1 == U32 then 0 else n + 1
  }

  function GenerationFor(route: Route, source: Source): u32 {
    match source case Usb => route.usbGeneration case Ble => route.bleGeneration
  }

  function QueueOf(s: State, source: Source): seq<Item> {
    match source case Usb => s.usbQueue case Ble => s.bleQueue
  }

  function WithQueue(s: State, source: Source, queue: seq<Item>): State {
    match source case Usb => s.(usbQueue := queue) case Ble => s.(bleQueue := queue)
  }

  /** A new generation, no framing state, an empty queue. */
  function Invalidate(s: State, source: Source): State {
    var route := match source
      case Usb => s.route.(usbGeneration := Increment(s.route.usbGeneration))
      case Ble => s.route.(bleGeneration := Increment(s.route.bleGeneration));
    WithQueue(s.(route := route, framing := WithTransport(s.framing, source, BLANK)), source, [])
  }

  function PurgeHids(s: State): State {
    s.(hidsGeneration := Increment(s.hidsGeneration))
  }

  /** The transport that should be active, if any. */
  function Wanted(route: Route): Option<Source> {
    if route.usbReady then Some(Usb) else if route.bleConnected then Some(Ble) else None
  }

  function Selected(route: Route): Option<Source> {
    if route.hasActive then Some(route.active) else None
  }

  /** A route that changes invalidates the transport it leaves, unless that was done already. */
  function UpdateRoute(s: State, usbInvalidated: bool, bleInvalidated: bool): (r: (State, bool)) {
    var next := Wanted(s.route);
    if Selected(s.route) == next then (s, false)
    else
      var left := match Selected(s.route)
        case None => s
        case Some(Usb) => if usbInvalidated then s else Invalidate(s, Usb)
        case Some(Ble) => if bleInvalidated then s else Invalidate(s, Ble);
      var purge := Selected(s.route) == Some(Ble) && !bleInvalidated;
      (left.(route := left.route.(hasActive := next.Some?, active := if next.Some? then next.value else left.route.active)), purge)
  }

  function PurgeIf(s: State, purge: bool): State {
    if purge then PurgeHids(s) else s
  }

  /** `codex_router_on_usb_state`, where `idle` is what it has read of the recovery before it took the lock. */
  function OnUsbStateRead(s: State, hid: bool, idle: bool): State {
    var ready := hid && idle;
    var changed := s.route.usbReady != ready;
    var known := if changed then Invalidate(s.(route := s.route.(usbReady := ready)), Usb) else s;
    var (settled, purge) := UpdateRoute(known, changed, false);
    PurgeIf(settled, purge)
  }

  /** The handler as one step: what it has read still holds. */
  function OnUsbState(s: State, hid: bool): State {
    OnUsbStateRead(s, hid, s.recovery == NoRecovery)
  }

  /** Disconnected, reset and configured count; other codes do not. */
  function OnUsbPhysicalState(s: State, counts: bool): State {
    if counts then Invalidate(s, Usb) else s
  }

  function OnBleProfile(s: State, profile: byte, connected: bool): State {
    var changed := s.route.bleProfile != profile || s.route.bleConnected != connected;
    var known := s.(route := s.route.(bleProfile := profile, bleConnected := connected));
    var invalidated := if changed then Invalidate(known, Ble) else known;
    var (settled, purge) := UpdateRoute(invalidated, false, changed);
    PurgeIf(settled, changed || purge)
  }

  function OnBleConnectionEdge(s: State, profile: byte, connected: bool): State {
    var known := s.(route := s.route.(bleProfile := profile, bleConnected := connected));
    UpdateRoute(Invalidate(known, Ble), false, true).0
  }

  // ---------------------------------------------------------------- reports coming in

  predicate TokenIsCurrent(s: State, token: Token) {
    token == Token(s.route.bleProfile, s.hidsGeneration)
  }

  function Enqueue(s: State, item: Item): (r: (State, Status)) {
    var queue := QueueOf(s, item.source);
    if |queue| >= INGRESS_DEPTH then (s, NoSpace) else (WithQueue(s, item.source, queue + [item]), Ok)
  }

  /** `busy`: the lock was taken and the caller does not wait. */
  function IngestUsb(s: State, busy: bool, payload: Payload): (r: (State, Status)) {
    if busy || s.recovery != NoRecovery then (s, TryAgain)
    else if Selected(s.route) != Some(Usb) || !s.route.usbReady then (s, NotConnected)
    else Enqueue(s, Item(Usb, s.route.usbGeneration, NO_TOKEN, payload))
  }

  function IngestBle(s: State, busy: bool, payload: Payload, token: Token): (r: (State, Status)) {
    if busy then (s, TryAgain)
    else if Selected(s.route) != Some(Ble) || !s.route.bleConnected || !TokenIsCurrent(s, token) then (s, Stale)
    else Enqueue(s, Item(Ble, s.route.bleGeneration, token, payload))
  }

  /** The work handler takes the next item without the lock, from the USB queue first. */
  function Take(s: State): (r: (State, Status))
    requires s.inFlight.None?
  {
    if s.usbQueue != [] then (s.(usbQueue := s.usbQueue[1..], inFlight := Some(s.usbQueue[0])), Ok)
    else if s.bleQueue != [] then (s.(bleQueue := s.bleQueue[1..], inFlight := Some(s.bleQueue[0])), Ok)
    else (s, NoMessage)
  }

  predicate ItemIsCurrent(s: State, item: Item) {
    Selected(s.route) == Some(item.source) && GenerationFor(s.route, item.source) == item.generation
    && (item.source == Ble ==> s.route.bleConnected && TokenIsCurrent(s, item.token))
  }

  // ---------------------------------------------------------------- pinned routes

  /** What the Bluetooth stack shows: the profile of the connection it hands out, and whether that is still the active one. */
  datatype BleView = BleView(profile: Option<byte>, connectionCurrent: bool)

  predicate PinIsCurrent(s: State, pin: Pin, view: BleView) {
    Selected(s.route) == Some(pin.source) && GenerationFor(s.route, pin.source) == pin.generation
    && match pin.source
       case Ble => pin.holdsConnection && s.route.bleConnected && TokenIsCurrent(s, pin.token) && view.connectionCurrent
       case Usb => s.route.usbReady
  }

  /** A pin for the active route; on Bluetooth it holds a reference, which a pin that is not current gives back. */
  function Capture(s: State, view: BleView): (r: (State, Option<Pin>)) {
    match Selected(s.route)
    case None => (s, None)
    case Some(source) =>
      var generation := GenerationFor(s.route, source);
      if source == Usb then
        var pin := Pin(Usb, generation, Token(s.route.bleProfile, s.hidsGeneration), false, 0, false, false);
        (s, if PinIsCurrent(s, pin, view) then Some(pin) else None)
      else if view.profile.None? then (s, None)
      else
        var pin := Pin(Ble, generation, Token(view.profile.value, s.hidsGeneration), true, 0, false, false);
        if PinIsCurrent(s, pin, view) then (s.(references := s.references + 1), Some(pin)) else (s, None)
  }

  /** The first failure of a response under way detaches USB: from here the device is not ready. */
  function RequestRecovery(s: State, pin: Pin): (r: (State, Pin)) {
    if s.recovery != NoRecovery then (s, pin)
    else
      var down := Invalidate(s.(recovery := DetachPending, route := s.route.(usbReady := false)), Usb);
      (UpdateRoute(down, true, false).0, pin.(recoverUsb := true))
  }

  /**
   * Why a report does not go out: the link refuses it; over Bluetooth also, before it is sent, because the
   * generation has changed, or because another connection is the active one, which changes no generation.
   */
  datatype Refusal = Refused | Bumped | Switched

  /** How the link answers: it takes `accepts` reports, and the next one meets the refusal. */
  datatype Link = Link(accepts: nat, refusal: Refusal)

  /** What went out for a text over one transport: its reports, or the first of them. */
  datatype Transmission = Transmission(source: Source, channel: ChannelId, text: Text, sent: seq<Payload>)

  datatype Emission = Emission(state: State, pin: Pin, out: Option<Transmission>, status: Status)

  function Cut(reports: seq<Payload>, accepts: nat): seq<Payload> {
    if accepts < |reports| then reports[..accepts] else reports
  }

  /** `send_json_pinned_locked` with `emit_pinned` for every report. */
  function SendPinned(s: State, pin: Pin, channel: ChannelId, json: Text, view: BleView, link: Link): Emission {
    if !PinIsCurrent(s, pin, view) then Emission(s, pin, None, Stale)
    else if !Encodable(json) then Emission(s, pin, None, if |json| > JSON_MAX_SIZE then TooLong else InvalidInput)
    else
      var reports := Reports(channel, json);
      var sent := Cut(reports, link.accepts);
      var out := Some(Transmission(pin.source, channel, json, sent));
      var counted := pin.(emitted := pin.emitted + |sent|);
      if |sent| == |reports| then Emission(s, counted, out, Ok)
      else if pin.source == Ble && link.refusal == Bumped then Emission(PurgeHids(s), counted, out, Stale)
      else if pin.source == Ble && link.refusal == Switched then Emission(s, counted, out, Stale)
      else if counted.emitted == 0 then Emission(s, counted, out, SendFailed)
      else if pin.source == Ble then Emission(s, counted.(abortBle := true), out, SendFailed)
      else
        var (down, marked) := RequestRecovery(s, counted);
        Emission(down, marked, out, SendFailed)
  }

  /** The pin waits for `finalize_pin`, which runs after the lock is given back. */
  function Unlock(s: State, pin: Pin): State {
    s.(pins := s.pins + [pin])
  }

  datatype Sending = Sending(state: State, out: Option<Transmission>, status: Status)

  /** `codex_router_send_json` up to `finalize_pin`. */
  function SendJson(s: State, channel: ChannelId, json: Text, view: BleView, link: Link): Sending {
    if json == [] then Sending(s, None, InvalidInput)
    else
      var (captured, pin) := Capture(s, view);
      if pin.None? then Sending(captured, None, NotConnected)
      else
        var e := SendPinned(captured, pin.value, channel, json, view, link);
        Sending(Unlock(e.state, e.pin), e.out, e.status)
  }

  /** `codex_ble_hids_abort_response` cuts the connection: its token is current, and disconnecting succeeds. */
  predicate Aborts(s: State, pin: Pin, disconnects: bool) {
    pin.abortBle && pin.token.generation == s.hidsGeneration && disconnects
  }

  /**
   * `finalize_pin`: a torn response cuts the connection, which ends its generation; the reference goes
   * back; a pin that asked for recovery starts the worker. `disconnects` is whether the connection is
   * still the active one and disconnecting works.
   */
  function Finalize(s: State, i: nat, disconnects: bool): State
    requires i < |s.pins|
  {
    var pin := s.pins[i];
    var aborted := if Aborts(s, pin, disconnects) then PurgeHids(s) else s;
    aborted.(pins := s.pins[..i] + s.pins[i + 1..],
       references := if pin.holdsConnection then s.references - 1 else s.references,
       recoveryScheduled := s.recoveryScheduled || pin.recoverUsb)
  }

  /** `usb_recovery_work_handler`; `works`: disabling or enabling succeeds. A failure reschedules. */
  function RunRecovery(s: State, works: bool): State
    requires s.recoveryScheduled
  {
    match s.recovery
    case NoRecovery => s.(recoveryScheduled := false)
    case DetachPending => if works then s.(recovery := ReenablePending) else s
    case ReenablePending => if works then s.(recovery := NoRecovery, recoveryScheduled := false) else s
  }

  // ---------------------------------------------------------------- an item

  /** What a dispatch of the delivered text comes to: a response, or a status without one. */
  datatype Reply = Reply(status: Status, response: Option<Text>)

  datatype Processing = Processing(state: State, delivered: Option<(ChannelId, Text)>, out: Option<Transmission>, status: Status)

  /** `framed_json_received`: debug texts are only counted; a request is answered on the pinned route. */
  function Callback(s: State, source: Source, channel: ChannelId, view: BleView, reply: Reply, link: Link): Sending {
    if channel == Debug then Sending(s, None, Ok)
    else
      var (captured, pin) := Capture(s, view);
      if pin.None? then Sending(captured, None, NotConnected)
      else if pin.value.source != source then Sending(Unlock(captured, pin.value), None, Stale)
      else if reply.response.None? then Sending(Unlock(captured, pin.value), None, reply.status)
      else
        var e := SendPinned(captured, pin.value, Rpc, reply.response.value, view, link);
        Sending(Unlock(e.state, e.pin), e.out, e.status)
  }

  /** `process_item` up to `finalize_pin`. */
  function Process(s: State, view: BleView, reply: Reply, link: Link): Processing
    requires s.inFlight.Some? && FramingInv(s.framing)
  {
    var item := s.inFlight.value;
    var taken := s.(inFlight := None);
    if !ItemIsCurrent(s, item) then Processing(taken, None, None, Stale)
    else
      var r := IngestReport(TransportOf(s.framing, item.source), item.payload, item.generation);
      var framed := taken.(framing := WithTransport(s.framing, item.source, r.transport));
      if r.delivered.None? then Processing(framed, None, None, r.status)
      else
        var c := Callback(framed, item.source, r.delivered.value.0, view, reply, link);
        Processing(c.state, r.delivered, c.out, if r.status != Ok then r.status else c.status)
  }
}
