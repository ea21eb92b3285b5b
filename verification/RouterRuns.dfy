/** What every run of the router keeps. */
module RouterRuns {
  import opened Bytes
  import opened Encoding
  import opened FramingSpec
  import opened RouterSpec

  // ---------------------------------------------------------------- the invariant

  function Count(pins: seq<Pin>, counts: Pin -> bool): nat {
    if pins == [] then 0 else (if counts(pins[0]) then 1 else 0) + Count(pins[1..], counts)
  }

  lemma {:induction false} CountAppend(pins: seq<Pin>, pin: Pin, counts: Pin -> bool)
    ensures Count(pins + [pin], counts) == Count(pins, counts) + if counts(pin) then 1 else 0
  {
    if pins == [] {
      assert [] + [pin] == [pin];
    } else {
      assert (pins + [pin])[1..] == pins[1..] + [pin];
      CountAppend(pins[1..], pin, counts);
    }
  }

  lemma {:induction false} CountRemove(pins: seq<Pin>, i: nat, counts: Pin -> bool)
    requires i < |pins|
    ensures Count(pins, counts) == Count(pins[..i] + pins[i + 1..], counts) + if counts(pins[i]) then 1 else 0
  {
    if i == 0 {
      assert pins[..0] + pins[1..] == pins[1..];
    } else {
      assert (pins[..i] + pins[i + 1..])[1..] == pins[1..][..i - 1] + pins[1..][i..];
      CountRemove(pins[1..], i - 1, counts);
    }
  }

  const HOLDS: Pin -> bool := (pin: Pin) => pin.holdsConnection
  const RECOVERS: Pin -> bool := (pin: Pin) => pin.recoverUsb

  /** The items of a queue belong to the selected transport at its present generation. */
  predicate QueueInv(s: State, source: Source) {
    var queue := QueueOf(s, source);
    |queue| <= INGRESS_DEPTH
    && (queue != [] ==> Selected(s.route) == Some(source))
    && forall i :: 0 <= i < |queue| ==> queue[i].source == source && queue[i].generation == GenerationFor(s.route, source)
  }

  /** The framing layer has no generation, or the one of the route. */
  predicate FramingCurrent(s: State, source: Source) {
    var t := TransportOf(s.framing, source);
    if t.generationValid then t.generation == GenerationFor(s.route, source) else t == BLANK
  }

  /** Every reference that is out belongs to one live pin. */
  predicate ReferencesInv(s: State) {
    s.references == Count(s.pins, HOLDS)
  }

  /** While USB recovers it is not ready; exactly one pin or the worker carries the recovery on. */
  predicate RecoveryInv(s: State) {
    (s.recovery != NoRecovery ==> !s.route.usbReady)
    && Count(s.pins, RECOVERS) + (if s.recoveryScheduled then 1 else 0) == if s.recovery == NoRecovery then 0 else 1
  }

  predicate PartsInv(s: State) {
    FramingInv(s.framing) && QueueInv(s, Usb) && QueueInv(s, Ble) && FramingCurrent(s, Usb) && FramingCurrent(s, Ble)
    && ReferencesInv(s) && RecoveryInv(s)
  }

  predicate RouterInv(s: State) {
    PartsInv(s) && Selected(s.route) == Wanted(s.route)
  }

  lemma ResetInv()
    ensures RouterInv(RESET)
  {
  }

  lemma BlankInv()
    ensures TransportInv(BLANK)
  {
  }

  lemma InvalidateKeeps(s: State, source: Source)
    requires PartsInv(s)
    ensures PartsInv(Invalidate(s, source))
    ensures var t := Invalidate(s, source);
      QueueOf(t, source) == [] && Selected(t.route) == Selected(s.route) && Wanted(t.route) == Wanted(s.route)
      && forall other :: other != source ==> QueueOf(t, other) == QueueOf(s, other)
  {
    hide Count, TransportInv;
    BlankInv();
  }

  /** Between two routes both queues are empty. */
  lemma SwitchKeeps(s: State)
    requires PartsInv(s) && s.usbQueue == [] && s.bleQueue == []
    ensures var next := Wanted(s.route);
      RouterInv(s.(route := s.route.(hasActive := next.Some?, active := if next.Some? then next.value else s.route.active)))
  {
    hide Count, FramingInv;
  }

  lemma OnlySelectedIsQueued(s: State)
    requires PartsInv(s)
    ensures Selected(s.route) != Some(Usb) ==> s.usbQueue == []
    ensures Selected(s.route) != Some(Ble) ==> s.bleQueue == []
  {
    hide Count, FramingInv;
  }

  /** Readiness may change for a transport that has just been invalidated, or is about to be. */
  lemma UpdateRouteKeeps(s: State, usbInvalidated: bool, bleInvalidated: bool)
    requires PartsInv(s)
    requires usbInvalidated ==> s.usbQueue == []
    requires bleInvalidated ==> s.bleQueue == []
    ensures RouterInv(UpdateRoute(s, usbInvalidated, bleInvalidated).0)
  {
    hide PartsInv, RouterInv, Invalidate, Selected, Wanted;
    InvMeans(s);
    OnlySelectedIsQueued(s);
    InvalidateKeeps(s, Usb);
    InvalidateKeeps(s, Ble);
    assert QueueOf(Invalidate(s, Usb), Ble) == QueueOf(s, Ble);
    assert QueueOf(Invalidate(s, Ble), Usb) == QueueOf(s, Usb);
    var left := match Selected(s.route)
      case None => s
      case Some(Usb) => if usbInvalidated then s else Invalidate(s, Usb)
      case Some(Ble) => if bleInvalidated then s else Invalidate(s, Ble);
    if Selected(s.route) != Wanted(s.route) {
      SwitchKeeps(left);
    }
  }

  lemma ReadinessAside(s: State, ready: bool)
    requires PartsInv(s) && (ready ==> s.recovery == NoRecovery)
    ensures var t := s.(route := s.route.(usbReady := ready));
      PartsInv(t) && t.usbQueue == s.usbQueue && t.recovery == s.recovery
  {
    hide Count, FramingInv;
  }

  lemma ConnectionAside(s: State, profile: byte, connected: bool)
    requires PartsInv(s)
    ensures PartsInv(s.(route := s.route.(bleProfile := profile, bleConnected := connected)))
  {
    hide Count, FramingInv;
  }

  lemma UsbStateReadKeeps(s: State, hid: bool, idle: bool)
    requires RouterInv(s) && (hid && idle ==> s.recovery == NoRecovery)
    ensures RouterInv(OnUsbStateRead(s, hid, idle))
  {
    hide RouterInv, PartsInv, UpdateRoute, Invalidate, PurgeHids;
    var ready := hid && idle;
    var changed := s.route.usbReady != ready;
    InvMeans(s);
    ReadinessAside(s, ready);
    InvalidateKeeps(s.(route := s.route.(usbReady := ready)), Usb);
    var known := if changed then Invalidate(s.(route := s.route.(usbReady := ready)), Usb) else s;
    UpdateRouteKeeps(known, changed, false);
    PurgeKeeps(UpdateRoute(known, changed, false).0);
  }

  lemma UsbStateKeeps(s: State, hid: bool)
    requires RouterInv(s)
    ensures RouterInv(OnUsbState(s, hid))
  {
    hide RouterInv, OnUsbStateRead;
    UsbStateReadKeeps(s, hid, s.recovery == NoRecovery);
  }

  /**
   * The read before the lock may be out of date. The invariant then survives exactly if the handler does
   * not report USB ready while a recovery has begun since: this is when the gate of the recovery opens.
   */
  lemma StaleReadOpensTheGate(s: State, hid: bool, idle: bool)
    requires RouterInv(s)
    ensures RouterInv(OnUsbStateRead(s, hid, idle)) <==> !(hid && idle && s.recovery != NoRecovery)
    ensures hid && idle && s.recovery != NoRecovery ==>
      var t := OnUsbStateRead(s, hid, idle); t.route.usbReady && t.recovery == s.recovery && Selected(t.route) == Some(Usb)
  {
    hide Count, FramingInv, QueueInv, FramingCurrent;
    if !(hid && idle) || s.recovery == NoRecovery {
      UsbStateReadKeeps(s, hid, idle);
    }
  }

  lemma InvMeans(s: State)
    ensures RouterInv(s) <==> PartsInv(s) && Selected(s.route) == Wanted(s.route)
  {
  }

  lemma PurgeKeeps(s: State)
    requires RouterInv(s)
    ensures RouterInv(PurgeHids(s))
  {
  }

  lemma BleProfileKeeps(s: State, profile: byte, connected: bool)
    requires RouterInv(s)
    ensures RouterInv(OnBleProfile(s, profile, connected))
  {
    hide RouterInv, PartsInv, UpdateRoute, Invalidate, PurgeHids;
    InvMeans(s);
    var changed := s.route.bleProfile != profile || s.route.bleConnected != connected;
    var known := s.(route := s.route.(bleProfile := profile, bleConnected := connected));
    ConnectionAside(s, profile, connected);
    InvalidateKeeps(known, Ble);
    var invalidated := if changed then Invalidate(known, Ble) else known;
    UpdateRouteKeeps(invalidated, false, changed);
    PurgeKeeps(UpdateRoute(invalidated, false, changed).0);
  }

  lemma BleEdgeKeeps(s: State, profile: byte, connected: bool)
    requires RouterInv(s)
    ensures RouterInv(OnBleConnectionEdge(s, profile, connected))
  {
    hide RouterInv, PartsInv, UpdateRoute, Invalidate;
    InvMeans(s);
    ConnectionAside(s, profile, connected);
    var known := s.(route := s.route.(bleProfile := profile, bleConnected := connected));
    InvalidateKeeps(known, Ble);
    UpdateRouteKeeps(Invalidate(known, Ble), false, true);
  }

  lemma UsbPhysicalKeeps(s: State, counts: bool)
    requires RouterInv(s)
    ensures RouterInv(OnUsbPhysicalState(s, counts))
  {
    InvalidateKeeps(s, Usb);
  }

  lemma IngestKeeps(s: State, busy: bool, payload: Payload, token: Token)
    requires RouterInv(s)
    ensures RouterInv(IngestUsb(s, busy, payload).0) && RouterInv(IngestBle(s, busy, payload, token).0)
  {
    hide FramingInv, Count;
  }

  lemma TakeKeeps(s: State)
    requires RouterInv(s) && s.inFlight.None?
    ensures RouterInv(Take(s).0)
  {
    hide FramingInv, Count;
  }

  // ---------------------------------------------------------------- sending

  /** A pin is live but not yet in the list. */
  predicate InvWith(s: State, pin: Pin) {
    PartsInv(s.(pins := s.pins + [pin])) && Selected(s.route) == Wanted(s.route)
  }

  lemma CaptureKeeps(s: State, view: BleView)
    requires RouterInv(s)
    ensures var (s', pin) := Capture(s, view);
      if pin.None? then s' == s
      else
        s' == s.(references := s'.references) && InvWith(s', pin.value) && PinIsCurrent(s', pin.value, view)
        && pin.value.emitted == 0 && !pin.value.recoverUsb && !pin.value.abortBle && Selected(s.route) == Some(pin.value.source)
        && (pin.value.holdsConnection <==> pin.value.source == Ble)
  {
    hide FramingInv;
    var (s', pin) := Capture(s, view);
    if pin.Some? {
      CountAppend(s.pins, pin.value, HOLDS);
      CountAppend(s.pins, pin.value, RECOVERS);
    }
  }

  lemma RequestRecoveryKeeps(s: State, pin: Pin)
    requires InvWith(s, pin) && s.route.usbReady && pin.source == Usb && !pin.recoverUsb
    ensures var (s', pin') := RequestRecovery(s, pin);
      InvWith(s', pin') && s'.recovery == DetachPending && !s'.route.usbReady && s'.pins == s.pins
      && pin' == pin.(recoverUsb := true)
  {
    hide UpdateRoute, Invalidate;
    CountAppend(s.pins, pin, HOLDS);
    CountAppend(s.pins, pin, RECOVERS);
    var marked := pin.(recoverUsb := true);
    CountAppend(s.pins, marked, HOLDS);
    CountAppend(s.pins, marked, RECOVERS);
    var t := s.(recovery := DetachPending, route := s.route.(usbReady := false), pins := s.pins + [marked]);
    InvalidateKeeps(t, Usb);
    UpdateRouteKeeps(Invalidate(t, Usb), true, false);
    PinsAside(s, marked);
  }

  /** Routes do not depend on pins. */
  lemma PinsAside(s: State, pin: Pin)
    ensures var down := Invalidate(s.(recovery := DetachPending, route := s.route.(usbReady := false)), Usb);
      var t := Invalidate(s.(recovery := DetachPending, route := s.route.(usbReady := false), pins := s.pins + [pin]), Usb);
      t == down.(pins := s.pins + [pin]) && down.pins == s.pins
      && UpdateRoute(t, true, false).0 == UpdateRoute(down, true, false).0.(pins := s.pins + [pin])
      && UpdateRoute(down, true, false).0.pins == s.pins
      && UpdateRoute(down, true, false).0.recovery == DetachPending
      && !UpdateRoute(down, true, false).0.route.usbReady
  {
  }

  lemma CountLast(s: State, pin: Pin, pin': Pin)
    requires InvWith(s, pin) && pin.holdsConnection == pin'.holdsConnection && pin.recoverUsb == pin'.recoverUsb
    ensures InvWith(s, pin')
  {
    hide FramingInv;
    CountAppend(s.pins, pin, HOLDS);
    CountAppend(s.pins, pin, RECOVERS);
    CountAppend(s.pins, pin', HOLDS);
    CountAppend(s.pins, pin', RECOVERS);
  }

  lemma PurgeKeepsWith(s: State, pin: Pin)
    requires InvWith(s, pin)
    ensures InvWith(PurgeHids(s), pin)
  {
    hide FramingInv, Count;
  }

  lemma SendPinnedKeeps(s: State, pin: Pin, channel: ChannelId, json: Text, view: BleView, link: Link)
    requires InvWith(s, pin) && !pin.recoverUsb && (pin.source == Usb ==> s.route.usbReady)
    ensures var e := SendPinned(s, pin, channel, json, view, link);
      InvWith(e.state, e.pin) && e.state.pins == s.pins
  {
    hide Encodable, Reports, RequestRecovery, InvWith, PinIsCurrent, Cut;
    var e := SendPinned(s, pin, channel, json, view, link);
    if PinIsCurrent(s, pin, view) && Encodable(json) {
      var counted := pin.(emitted := pin.emitted + (if e.out.Some? then |e.out.value.sent| else 0));
      CountLast(s, pin, counted);
      CountLast(s, pin, counted.(abortBle := true));
      PurgeKeepsWith(s, counted);
      if pin.source == Usb {
        RequestRecoveryKeeps(s, counted);
      }
    }
  }

  lemma UnlockKeeps(s: State, pin: Pin)
    requires InvWith(s, pin)
    ensures RouterInv(Unlock(s, pin))
  {
  }

  lemma SendJsonKeeps(s: State, channel: ChannelId, json: Text, view: BleView, link: Link)
    requires RouterInv(s)
    ensures RouterInv(SendJson(s, channel, json, view, link).state)
  {
    hide RouterInv, InvWith, SendPinned, PinIsCurrent, Capture;
    CaptureKeeps(s, view);
    var (captured, pin) := Capture(s, view);
    if pin.Some? {
      UsbIsReady(captured, pin.value);
      SendPinnedKeeps(captured, pin.value, channel, json, view, link);
      var e := SendPinned(captured, pin.value, channel, json, view, link);
      UnlockKeeps(e.state, e.pin);
    }
  }

  lemma UsbIsReady(s: State, pin: Pin)
    requires InvWith(s, pin)
    ensures Selected(s.route) == Some(Usb) ==> s.route.usbReady
  {
  }

  lemma CallbackKeeps(s: State, source: Source, channel: ChannelId, view: BleView, reply: Reply, link: Link)
    requires RouterInv(s)
    ensures RouterInv(Callback(s, source, channel, view, reply, link).state)
  {
    hide RouterInv, InvWith, SendPinned, PinIsCurrent, Capture;
    CaptureKeeps(s, view);
    var (captured, pin) := Capture(s, view);
    if pin.Some? {
      UnlockKeeps(captured, pin.value);
      UsbIsReady(captured, pin.value);
      if reply.response.Some? {
        SendPinnedKeeps(captured, pin.value, Rpc, reply.response.value, view, link);
        var e := SendPinned(captured, pin.value, Rpc, reply.response.value, view, link);
        UnlockKeeps(e.state, e.pin);
      }
    }
  }

  /** A current item meets a framing layer that has no newer generation: none is ever refused as stale there. */
  lemma NeverStaleInFraming(s: State, item: Item)
    requires RouterInv(s) && ItemIsCurrent(s, item)
    ensures var (t, status) := AcceptGeneration(TransportOf(s.framing, item.source), item.generation);
      status == Ok && t == TransportOf(s.framing, item.source).(generation := item.generation, generationValid := true)
  {
    hide Count, TransportInv, QueueInv;
  }

  lemma FramedKeeps(s: State)
    requires RouterInv(s) && s.inFlight.Some? && ItemIsCurrent(s, s.inFlight.value)
    ensures var item := s.inFlight.value;
      var r := IngestReport(TransportOf(s.framing, item.source), item.payload, item.generation);
      RouterInv(s.(inFlight := None, framing := WithTransport(s.framing, item.source, r.transport)))
  {
    hide Count, Deliver, TransportInv;
    NeverStaleInFraming(s, s.inFlight.value);
  }

  lemma ProcessKeeps(s: State, view: BleView, reply: Reply, link: Link)
    requires RouterInv(s) && s.inFlight.Some?
    ensures RouterInv(Process(s, view, reply, link).state)
  {
    hide RouterInv, Callback, ItemIsCurrent, IngestReport;
    assert FramingInv(s.framing) by { InvMeans(s); }
    InFlightAside(s);
    var item := s.inFlight.value;
    if ItemIsCurrent(s, item) {
      FramedKeeps(s);
      var r := IngestReport(TransportOf(s.framing, item.source), item.payload, item.generation);
      if r.delivered.Some? {
        var framed := s.(inFlight := None, framing := WithTransport(s.framing, item.source, r.transport));
        CallbackKeeps(framed, item.source, r.delivered.value.0, view, reply, link);
      }
    }
  }

  lemma InFlightAside(s: State)
    requires RouterInv(s)
    ensures RouterInv(s.(inFlight := None))
  {
  }

  lemma FinalizeKeeps(s: State, i: nat, disconnects: bool)
    requires RouterInv(s) && i < |s.pins|
    ensures RouterInv(Finalize(s, i, disconnects))
  {
    hide FramingInv;
    CountRemove(s.pins, i, HOLDS);
    CountRemove(s.pins, i, RECOVERS);
  }

  lemma RunRecoveryKeeps(s: State, works: bool)
    requires RouterInv(s) && s.recoveryScheduled
    ensures RouterInv(RunRecovery(s, works))
  {
    hide FramingInv;
  }

  // ---------------------------------------------------------------- runs

  /** The locked sections, the steps of the work handlers, and what the environment does. */
  datatype Event =
    | UsbState(hid: bool)
    | UsbPhysical(counts: bool)
    | BleProfile(profile: byte, connected: bool)
    | BleEdge(profile: byte, connected: bool)
    | BumpHids
    | UsbReport(busy: bool, payload: Payload)
    | BleReport(busy: bool, payload: Payload, token: Token)
    | TakeItem
    | ProcessItem(view: BleView, reply: Reply, link: Link)
    | Send(channel: ChannelId, json: Text, view: BleView, link: Link)
    | FinalizePin(i: nat, disconnects: bool)
    | Recover(works: bool)

  predicate Enabled(s: State, e: Event) {
    match e
    case TakeItem => s.inFlight.None?
    case ProcessItem(_, _, _) => s.inFlight.Some?
    case FinalizePin(i, _) => i < |s.pins|
    case Recover(_) => s.recoveryScheduled
    case _ => true
  }

  /** Every step keeps the invariant. */
  function Move(s: State, e: Event): (t: State)
    requires RouterInv(s) && Enabled(s, e)
    ensures RouterInv(t)
  {
    hide RouterInv, OnUsbState, OnBleProfile, OnBleConnectionEdge, OnUsbPhysicalState, PurgeHids, IngestUsb, IngestBle, Take, Process, SendJson, Finalize, RunRecovery;
    match e
    case UsbState(hid) => UsbStateKeeps(s, hid); OnUsbState(s, hid)
    case UsbPhysical(counts) => UsbPhysicalKeeps(s, counts); OnUsbPhysicalState(s, counts)
    case BleProfile(profile, connected) => BleProfileKeeps(s, profile, connected); OnBleProfile(s, profile, connected)
    case BleEdge(profile, connected) => BleEdgeKeeps(s, profile, connected); OnBleConnectionEdge(s, profile, connected)
    case BumpHids => PurgeKeeps(s); PurgeHids(s)
    case UsbReport(busy, payload) => IngestKeeps(s, busy, payload, NO_TOKEN); IngestUsb(s, busy, payload).0
    case BleReport(busy, payload, token) => IngestKeeps(s, busy, payload, token); IngestBle(s, busy, payload, token).0
    case TakeItem => TakeKeeps(s); Take(s).0
    case ProcessItem(view, reply, link) => InvMeans(s); ProcessKeeps(s, view, reply, link); Process(s, view, reply, link).state
    case Send(channel, json, view, link) => SendJsonKeeps(s, channel, json, view, link); SendJson(s, channel, json, view, link).state
    case FinalizePin(i, disconnects) => FinalizeKeeps(s, i, disconnects); Finalize(s, i, disconnects)
    case Recover(works) => RunRecoveryKeeps(s, works); RunRecovery(s, works)
  }

  /** The run is possible: every event may happen where it happens. */
  predicate Possible(s: State, events: seq<Event>)
    requires RouterInv(s)
    decreases |events|
  {
    events == [] || (Enabled(s, events[0]) && Possible(Move(s, events[0]), events[1..]))
  }

  function After(s: State, events: seq<Event>): (t: State)
    requires RouterInv(s) && Possible(s, events)
    ensures RouterInv(t)
    decreases |events|
  {
    if events == [] then s else After(Move(s, events[0]), events[1..])
  }

  /** A run from the start, where nothing is connected. */
  predicate IsRun(events: seq<Event>) {
    ResetInv();
    Possible(RESET, events)
  }

  function End(events: seq<Event>): (s: State)
    requires IsRun(events)
    ensures RouterInv(s)
  {
    ResetInv();
    After(RESET, events)
  }

  /**
   * At the end of every run the route is the one its flags ask for; at most one ingress queue holds
   * items, all of the active transport and of its present generation; the framing layer knows no other
   * generation; while USB recovers it is closed and the recovery is in exactly one pair of hands; and
   * the references that are out are those of the live pins.
   */
  lemma EveryRunKeeps(events: seq<Event>)
    requires IsRun(events)
    ensures var s := End(events);
      (s.route.hasActive <==> s.route.usbReady || s.route.bleConnected)
      && (s.route.hasActive ==> (s.route.active == Usb <==> s.route.usbReady))
      && (s.usbQueue == [] || s.bleQueue == [])
      && (forall source :: QueueOf(s, source) != [] ==> s.route.hasActive && s.route.active == source)
      && (forall source, i :: 0 <= i < |QueueOf(s, source)| ==>
            QueueOf(s, source)[i].source == source && QueueOf(s, source)[i].generation == GenerationFor(s.route, source))
      && (forall source :: TransportOf(s.framing, source).generationValid ==>
            TransportOf(s.framing, source).generation == GenerationFor(s.route, source))
      && (s.recovery != NoRecovery ==> !s.route.usbReady)
      && Count(s.pins, RECOVERS) + (if s.recoveryScheduled then 1 else 0) == (if s.recovery == NoRecovery then 0 else 1)
      && s.references == Count(s.pins, HOLDS)
      && (s.pins == [] ==> s.references == 0)
  {
    hide Possible, After, FramingInv;
    ResetInv();
    var s := End(events);
    assert RouterInv(s);
    forall source ensures QueueInv(s, source) && FramingCurrent(s, source) {
    }
  }
}
