/** What each event does to readiness, generations and recovery, told from the states before and after it. */
module RouterLaws {
  import opened Bytes
  import opened Encoding
  import opened FramingSpec
  import opened RouterSpec
  import opened RouterRuns
  import opened RouterLanes
  import opened Sessions
  import opened UsbSession

  // ---------------------------------------------------------------- reports that come in

  /**
   * Exactly when a USB report is taken: the lock is free, USB is ready and fewer than four wait. Otherwise
   * nothing changes, and the status says what is in the way.
   */
  lemma UsbReportDecided(s: State, busy: bool, payload: Payload)
    requires RouterInv(s)
    ensures var (t, status) := IngestUsb(s, busy, payload);
      (status == Ok <==> !busy && s.route.usbReady && |s.usbQueue| < 4)
      && (status == TryAgain <==> busy || s.recovery != NoRecovery)
      && (status == NotConnected <==> !busy && s.recovery == NoRecovery && !s.route.usbReady)
      && (status == NoSpace <==> !busy && s.route.usbReady && |s.usbQueue| == 4)
      && (if status == Ok then t == s.(usbQueue := s.usbQueue + [Item(Usb, s.route.usbGeneration, NO_TOKEN, payload)]) else t == s)
  {
    hide FramingInv, FramingCurrent, ReferencesInv, Count;
  }

  /**
   * Exactly when a Bluetooth report is taken: the lock is free, USB is not ready, Bluetooth is connected,
   * the token is that of the present profile and generation, and fewer than four wait.
   */
  lemma BleReportDecided(s: State, busy: bool, payload: Payload, token: Token)
    requires RouterInv(s)
    ensures var (t, status) := IngestBle(s, busy, payload, token);
      var present := !s.route.usbReady && s.route.bleConnected
        && token.profile == s.route.bleProfile && token.generation == s.hidsGeneration;
      (status == Ok <==> !busy && present && |s.bleQueue| < 4)
      && (status == TryAgain <==> busy)
      && (status == Stale <==> !busy && !present)
      && (status == NoSpace <==> !busy && present && |s.bleQueue| == 4)
      && (if status == Ok then t == s.(bleQueue := s.bleQueue + [Item(Ble, s.route.bleGeneration, token, payload)]) else t == s)
  {
    hide FramingInv, FramingCurrent, ReferencesInv, Count;
  }

  // ---------------------------------------------------------------- the parts of a step

  lemma RouteSettles(s: State, usbInvalidated: bool, bleInvalidated: bool)
    ensures var (t, purge) := UpdateRoute(s, usbInvalidated, bleInvalidated);
      var leaves := Selected(s.route) != Wanted(s.route);
      t.route.usbGeneration == (if leaves && Selected(s.route) == Some(Usb) && !usbInvalidated then Increment(s.route.usbGeneration) else s.route.usbGeneration)
      && t.route.bleGeneration == (if leaves && Selected(s.route) == Some(Ble) && !bleInvalidated then Increment(s.route.bleGeneration) else s.route.bleGeneration)
      && t.route.usbReady == s.route.usbReady && t.route.bleConnected == s.route.bleConnected && t.route.bleProfile == s.route.bleProfile
      && t.hidsGeneration == s.hidsGeneration && t.recovery == s.recovery
      && (purge <==> leaves && Selected(s.route) == Some(Ble) && !bleInvalidated)
  {
  }

  lemma IncrementMoves(n: u32)
    ensures Increment(n) != n
  {
  }

  /** What sending may do besides sending: begin a recovery, or find that the Bluetooth generation has moved. */
  predicate SendsOnly(s: State, t: State) {
    t.route.bleConnected == s.route.bleConnected && t.route.bleProfile == s.route.bleProfile
    && t.route.bleGeneration == s.route.bleGeneration
    && (if t.recovery == s.recovery then t.route.usbReady == s.route.usbReady && t.route.usbGeneration == s.route.usbGeneration
        else s.route.usbReady && !t.route.usbReady && t.route.usbGeneration == Increment(s.route.usbGeneration))
  }

  predicate Bumps(out: Option<Transmission>, status: Status, link: Link) {
    out.Some? && out.value.source == Ble && status != Ok && link.refusal == Bumped
  }

  lemma RequestRecoveryDoes(s: State, pin: Pin)
    requires Selected(s.route) == Some(Usb) && s.route.usbReady && s.recovery == NoRecovery
    ensures var t := RequestRecovery(s, pin).0;
      SendsOnly(s, t) && t.recovery == DetachPending && t.hidsGeneration == s.hidsGeneration
  {
    hide UpdateRoute;
    RouteSettles(Invalidate(s.(recovery := DetachPending, route := s.route.(usbReady := false)), Usb), true, false);
  }

  lemma SendPinnedDoes(s: State, pin: Pin, channel: ChannelId, json: Text, view: BleView, link: Link)
    requires InvWith(s, pin)
    ensures var e := SendPinned(s, pin, channel, json, view, link);
      SendsOnly(s, e.state)
      && e.state.hidsGeneration == if Bumps(e.out, e.status, link) then Increment(s.hidsGeneration) else s.hidsGeneration
  {
    hide InvWith, RequestRecovery, Encodable, Reports, Cut, TokenIsCurrent;
    ReadyMeansIdle(s, pin);
    var e := SendPinned(s, pin, channel, json, view, link);
    if e.out.Some? && pin.source == Usb {
      RequestRecoveryDoes(s, pin.(emitted := pin.emitted + |e.out.value.sent|));
    }
  }

  lemma SendJsonDoes(s: State, channel: ChannelId, json: Text, view: BleView, link: Link)
    requires RouterInv(s)
    ensures var r := SendJson(s, channel, json, view, link);
      SendsOnly(s, r.state)
      && r.state.hidsGeneration == if Bumps(r.out, r.status, link) then Increment(s.hidsGeneration) else s.hidsGeneration
  {
    hide RouterInv, InvWith, SendPinned, Capture, PinIsCurrent;
    CaptureKeeps(s, view);
    var (captured, pin) := Capture(s, view);
    if pin.Some? {
      SendPinnedDoes(captured, pin.value, channel, json, view, link);
    }
  }

  lemma CallbackDoes(s: State, source: Source, channel: ChannelId, view: BleView, reply: Reply, link: Link)
    requires RouterInv(s)
    ensures var r := Callback(s, source, channel, view, reply, link);
      SendsOnly(s, r.state)
      && r.state.hidsGeneration == if Bumps(r.out, r.status, link) then Increment(s.hidsGeneration) else s.hidsGeneration
  {
    hide RouterInv, InvWith, SendPinned, Capture, PinIsCurrent;
    CaptureKeeps(s, view);
    var (captured, pin) := Capture(s, view);
    if pin.Some? && reply.response.Some? {
      SendPinnedDoes(captured, pin.value, Rpc, reply.response.value, view, link);
    }
  }

  lemma ProcessDoes(s: State, view: BleView, reply: Reply, link: Link)
    requires RouterInv(s) && s.inFlight.Some?
    ensures FramingInv(s.framing)
    ensures var r := Process(s, view, reply, link);
      SendsOnly(s, r.state)
      && r.state.hidsGeneration == if Bumps(r.out, r.status, link) then Increment(s.hidsGeneration) else s.hidsGeneration
  {
    hide RouterInv, Callback, ItemIsCurrent, IngestReport;
    TransportsFramed(s);
    InFlightAside(s);
    var item := s.inFlight.value;
    if ItemIsCurrent(s, item) {
      FramedKeeps(s);
      var r := IngestReport(TransportOf(s.framing, item.source), item.payload, item.generation);
      if r.delivered.Some? {
        var framed := s.(inFlight := None, framing := WithTransport(s.framing, item.source, r.transport));
        CallbackDoes(framed, item.source, r.delivered.value.0, view, reply, link);
        DeliveryIsOk(TransportOf(s.framing, item.source), item.payload, item.generation);
      }
    }
  }

  // ---------------------------------------------------------------- what an event does

  /** What the Bluetooth events say of the connection. */
  predicate BleFlagsFollow(s: State, e: Event, t: State) {
    match e
    case BleProfile(profile, connected) => t.route.bleProfile == profile && t.route.bleConnected == connected
    case BleEdge(profile, connected) => t.route.bleProfile == profile && t.route.bleConnected == connected
    case _ => t.route.bleProfile == s.route.bleProfile && t.route.bleConnected == s.route.bleConnected
  }

  predicate BleMoves(s: State, e: Event, t: State) {
    e.BleEdge? || t.route.bleProfile != s.route.bleProfile || t.route.bleConnected != s.route.bleConnected
    || (s.route.bleConnected && !s.route.usbReady && t.route.usbReady)
  }

  predicate UsbMoves(s: State, e: Event, t: State) {
    e == UsbPhysical(true) || t.route.usbReady != s.route.usbReady
  }

  /** Whether the Bluetooth generation of ble_hids.c moves. */
  predicate HidsMoves(s: State, e: Event, t: State)
    requires RouterInv(s) && Enabled(s, e)
  {
    match e
    case BumpHids => true
    case BleProfile(_, _) => BleMoves(s, e, t)
    case UsbState(_) => BleMoves(s, e, t)
    case FinalizePin(i, disconnects) => s.pins[i].abortBle && s.pins[i].token.generation == s.hidsGeneration && disconnects
    case ProcessItem(_, _, link) => Bumps(OutOf(s, e), StatusOf(s, e), link)
    case Send(_, _, _, link) => Bumps(OutOf(s, e), StatusOf(s, e), link)
    case _ => false
  }

  function Later(moves: bool, generation: u32): u32 {
    if moves then Increment(generation) else generation
  }

  /** Readiness and connection are what the events say; each generation moves when its transport changes, by one. */
  ghost predicate Follows(s: State, e: Event, t: State)
    requires RouterInv(s) && Enabled(s, e)
  {
    t.route.usbReady == (if e.UsbState? then e.hid && s.recovery == NoRecovery
                         else s.route.usbReady && (t.recovery != NoRecovery ==> s.recovery != NoRecovery))
    && BleFlagsFollow(s, e, t)
    && t.route.usbGeneration == Later(UsbMoves(s, e, t), s.route.usbGeneration)
    && t.route.bleGeneration == Later(BleMoves(s, e, t), s.route.bleGeneration)
    && t.hidsGeneration == Later(HidsMoves(s, e, t), s.hidsGeneration)
  }

  lemma UsbStateFollows(s: State, hid: bool)
    requires RouterInv(s)
    ensures Follows(s, UsbState(hid), Move(s, UsbState(hid)))
  {
    hide UpdateRoute, PartsInv;
    var ready := hid && s.recovery == NoRecovery;
    var changed := s.route.usbReady != ready;
    var known := if changed then Invalidate(s.(route := s.route.(usbReady := ready)), Usb) else s;
    RouteSettles(known, changed, false);
    SelectedIsWanted(s);
  }

  lemma SelectedIsWanted(s: State)
    requires RouterInv(s)
    ensures Selected(s.route) == if s.route.usbReady then Some(Usb) else if s.route.bleConnected then Some(Ble) else None
    ensures s.recovery != NoRecovery ==> !s.route.usbReady
  {
  }

  lemma BleProfileFollows(s: State, profile: byte, connected: bool)
    requires RouterInv(s)
    ensures var e := BleProfile(profile, connected); Follows(s, e, Move(s, e))
  {
    hide UpdateRoute, PartsInv;
    var changed := s.route.bleProfile != profile || s.route.bleConnected != connected;
    var known := s.(route := s.route.(bleProfile := profile, bleConnected := connected));
    RouteSettles(if changed then Invalidate(known, Ble) else known, false, changed);
    SelectedIsWanted(s);
  }

  lemma BleEdgeFollows(s: State, profile: byte, connected: bool)
    requires RouterInv(s)
    ensures var e := BleEdge(profile, connected); Follows(s, e, Move(s, e))
  {
    hide UpdateRoute, PartsInv;
    var known := s.(route := s.route.(bleProfile := profile, bleConnected := connected));
    RouteSettles(Invalidate(known, Ble), false, true);
    SelectedIsWanted(s);
  }

  /** In every reachable state every event does to readiness, connection and generations exactly this. */
  lemma EveryEventFollows(s: State, e: Event)
    requires RouterInv(s) && Enabled(s, e)
    ensures Follows(s, e, Move(s, e))
  {
    hide RouterInv, OnUsbState, OnBleProfile, OnBleConnectionEdge, SendJson, Process, UpdateRoute;
    SelectedIsWanted(s);
    match e
    case UsbState(hid) => UsbStateFollows(s, hid);
    case BleProfile(profile, connected) => BleProfileFollows(s, profile, connected);
    case BleEdge(profile, connected) => BleEdgeFollows(s, profile, connected);
    case ProcessItem(view, reply, link) => ProcessDoes(s, view, reply, link);
    case Send(channel, json, view, link) => SendJsonDoes(s, channel, json, view, link);
    case _ =>
  }

  predicate Moves(s: State, e: Event, source: Source)
    requires RouterInv(s) && Enabled(s, e)
  {
    hide RouterInv, Move;
    if source == Usb then UsbMoves(s, e, Move(s, e)) else BleMoves(s, e, Move(s, e))
  }

  /** A transport starts afresh, with no framing state and nothing queued, exactly when it changes. */
  lemma RestartsExactly(s: State, e: Event, source: Source)
    requires RouterInv(s) && Enabled(s, e)
    ensures Restarted(Look(s, source), Look(Move(s, e), source)) <==> Moves(s, e, source)
    ensures Moves(s, e, source) ==>
      QueueOf(Move(s, e), source) == [] && TransportOf(Move(s, e).framing, source) == BLANK
  {
    hide RouterInv, Move, Goes, UsbMoves, BleMoves;
    EveryEventFollows(s, e);
    StepLook(s, e, source);
    var v, w := Look(s, source), Look(Move(s, e), source);
    IncrementMoves(v.generation);
    if !Restarted(v, w) {
      GoesKeeps(s, e, source, v, w);
    }
  }

  lemma GoesKeeps(s: State, e: Event, source: Source, v: View, w: View)
    requires Enabled(s, e) && TransportInv(v.transport) && Goes(s, e, source, v, w)
    ensures w.generation == v.generation
  {
  }

  // ---------------------------------------------------------------- over runs

  /** What the last event about the Bluetooth connection has said. */
  datatype Connection = Connection(profile: byte, connected: bool)

  function LastSaid(events: seq<Event>, before: Connection): Connection {
    if events == [] then before
    else
      LastSaid(events[1..], match events[0]
        case BleProfile(profile, connected) => Connection(profile, connected)
        case BleEdge(profile, connected) => Connection(profile, connected)
        case _ => before)
  }

  lemma {:induction false} RunFollowsBle(s: State, events: seq<Event>)
    requires RouterInv(s) && Possible(s, events)
    ensures var t := After(s, events);
      Connection(t.route.bleProfile, t.route.bleConnected) == LastSaid(events, Connection(s.route.bleProfile, s.route.bleConnected))
    decreases |events|
  {
    hide RouterInv, Move;
    if events != [] {
      EveryEventFollows(s, events[0]);
      RunFollowsBle(Move(s, events[0]), events[1..]);
    }
  }

  /** After every run the connection is the one that was reported last. */
  lemma ConnectionIsTheLastSaid(events: seq<Event>)
    requires IsRun(events)
    ensures var t := End(events); Connection(t.route.bleProfile, t.route.bleConnected) == LastSaid(events, Connection(0, false))
  {
    hide RouterInv, Possible, After;
    ResetInv();
    RunFollowsBle(RESET, events);
  }

  /** A step that leaves an encoding cut short on USB. */
  predicate TearsUsb(s: State, e: Event)
    requires RouterInv(s) && Enabled(s, e)
  {
    var out := OutOf(s, e);
    out.Some? && out.value.source == Usb && out.value.sent != [] && StatusOf(s, e) != Ok
  }

  /** How many times the recovery worker has to succeed until USB is in service again. */
  function Needed(s: State, e: Event, before: nat): nat
    requires RouterInv(s) && Enabled(s, e)
  {
    hide RouterInv;
    if TearsUsb(s, e) then 2
    else if e.Recover? && e.works && before > 0 then before - 1
    else before
  }

  function NeededAfter(s: State, events: seq<Event>, before: nat): nat
    requires RouterInv(s) && Possible(s, events)
    decreases |events|
  {
    hide RouterInv, Move, Needed;
    if events == [] then before else NeededAfter(Move(s, events[0]), events[1..], Needed(s, events[0], before))
  }

  predicate IsNeeded(recovery: Recovery, needed: nat) {
    match recovery
    case NoRecovery => needed == 0
    case ReenablePending => needed == 1
    case DetachPending => needed == 2
  }

  lemma StepNeeds(s: State, e: Event, before: nat)
    requires RouterInv(s) && Enabled(s, e) && IsNeeded(s.recovery, before)
    ensures IsNeeded(Move(s, e).recovery, Needed(s, e, before))
  {
    hide RouterInv, IsTransmission, OutOf, StatusOf;
    if e.Recover? {
      RecoverSteps(s, e.works);
    } else {
      hide Move;
      OutBehaves(s, e);
    }
  }

  lemma RecoverSteps(s: State, works: bool)
    requires RouterInv(s) && s.recoveryScheduled
    ensures OutOf(s, Recover(works)).None?
    ensures var t := Move(s, Recover(works));
      t.recovery == if !works then s.recovery
                    else match s.recovery case DetachPending => ReenablePending case _ => NoRecovery
  {
    hide RouterInv;
  }

  lemma {:induction false} RunNeeds(s: State, events: seq<Event>, before: nat)
    requires RouterInv(s) && Possible(s, events) && IsNeeded(s.recovery, before)
    ensures IsNeeded(After(s, events).recovery, NeededAfter(s, events, before))
    decreases |events|
  {
    hide RouterInv, Move, Needed, IsNeeded;
    if events != [] {
      StepNeeds(s, events[0], before);
      RunNeeds(Move(s, events[0]), events[1..], Needed(s, events[0], before));
    }
  }

  function NeededIn(events: seq<Event>): nat
    requires IsRun(events)
  {
    ResetInv();
    NeededAfter(RESET, events, 0)
  }

  /**
   * In every run a recovery begins exactly when an encoding is cut short on USB, and ends exactly with the
   * second success of the worker after that: one to detach, one to enable again.
   */
  lemma RecoveryTakesTwo(events: seq<Event>)
    requires IsRun(events)
    ensures IsNeeded(End(events).recovery, NeededIn(events))
  {
    hide RouterInv, Possible, After;
    ResetInv();
    RunNeeds(RESET, events, 0);
  }
}
