/** What goes out over USB between two detachments, and what a decoder at the other end makes of it. */
module UsbSession {
  import opened Bytes
  import opened JsonSyntax
  import opened ChannelSpec
  import opened Encoding
  import opened FramingSpec
  import opened RouterSpec
  import opened RouterRuns
  import opened Sessions
  import RpcDispatch

  /** What an event sends. */
  function OutOf(s: State, e: Event): Option<Transmission>
    requires RouterInv(s) && Enabled(s, e)
  {
    match e
    case ProcessItem(view, reply, link) => TransportsFramed(s); Process(s, view, reply, link).out
    case Send(channel, json, view, link) => SendJson(s, channel, json, view, link).out
    case _ => None
  }

  function StatusOf(s: State, e: Event): Status
    requires RouterInv(s) && Enabled(s, e)
  {
    match e
    case ProcessItem(view, reply, link) => TransportsFramed(s); Process(s, view, reply, link).status
    case Send(channel, json, view, link) => SendJson(s, channel, json, view, link).status
    case _ => Ok
  }

  lemma TransportsFramed(s: State)
    requires RouterInv(s)
    ensures FramingInv(s.framing)
  {
  }

  /** Enabling USB again begins a session; a transmission belongs to it, whole if its status is Ok. */
  function NextSession(s: State, e: Event, session: Session): Session
    requires RouterInv(s) && Enabled(s, e)
  {
    if e.Recover? && e.works && s.recovery == ReenablePending then NEW_SESSION
    else
      match OutOf(s, e)
      case None => session
      case Some(out) =>
        if out.source != Usb || out.sent == [] then session else Extended(session, out, StatusOf(s, e))
  }

  // ---------------------------------------------------------------- what a step sends

  lemma SendPinnedShape(s: State, pin: Pin, channel: ChannelId, json: Text, view: BleView, link: Link)
    requires InvWith(s, pin) && pin.emitted == 0
    ensures var e := SendPinned(s, pin, channel, json, view, link);
      if e.out.None? then e.state == s && e.status != Ok
      else
        e.out.value.source == pin.source && e.out.value.channel == channel && e.out.value.text == json
        && IsTransmission(e.out.value, e.status) && PinIsCurrent(s, pin, view)
        && if pin.source == Usb && e.status != Ok && e.out.value.sent != [] && s.recovery == NoRecovery
           then e.state.recovery == DetachPending
           else e.state.recovery == s.recovery
  {
    hide Encodable, Reports, PinIsCurrent, InvWith, UpdateRoute, Invalidate;
    RecoveryBegins(s, pin);
  }

  lemma RecoveryBegins(s: State, pin: Pin)
    ensures forall counted: Pin :: RequestRecovery(s, counted).0.recovery == if s.recovery == NoRecovery then DetachPending else s.recovery
    ensures RequestRecovery(s, pin).0.recovery == if s.recovery == NoRecovery then DetachPending else s.recovery
  {
  }

  /** What is sent over USB finds USB ready; cut short behind its first report it starts a recovery. */
  predicate Behaves(s: State, out: Option<Transmission>, status: Status, t: State) {
    match out
    case None => t.recovery == s.recovery
    case Some(o) =>
      IsTransmission(o, status)
      && (o.source == Usb ==> s.recovery == NoRecovery)
      && t.recovery == if o.source == Usb && status != Ok && o.sent != [] then DetachPending else s.recovery
  }

  lemma SendingBehaves(s: State, pin: Pin, channel: ChannelId, json: Text, view: BleView, link: Link)
    requires InvWith(s, pin) && pin.emitted == 0
    ensures var e := SendPinned(s, pin, channel, json, view, link); Behaves(s, e.out, e.status, e.state)
  {
    hide InvWith, IsTransmission, SendPinned;
    SendPinnedShape(s, pin, channel, json, view, link);
    ReadyMeansIdle(s, pin);
  }

  lemma ReadyMeansIdle(s: State, pin: Pin)
    requires InvWith(s, pin)
    ensures Selected(s.route) == Some(Usb) ==> s.recovery == NoRecovery
  {
  }

  lemma SendBehaves(s: State, channel: ChannelId, json: Text, view: BleView, link: Link)
    requires RouterInv(s)
    ensures var r := SendJson(s, channel, json, view, link); Behaves(s, r.out, r.status, r.state)
  {
    hide RouterInv, InvWith, SendPinned, Capture, IsTransmission, PinIsCurrent;
    CaptureKeeps(s, view);
    var (captured, pin) := Capture(s, view);
    if pin.Some? {
      SendingBehaves(captured, pin.value, channel, json, view, link);
    }
  }

  lemma CallbackBehaves(s: State, source: Source, channel: ChannelId, view: BleView, reply: Reply, link: Link)
    requires RouterInv(s)
    ensures var r := Callback(s, source, channel, view, reply, link);
      Behaves(s, r.out, r.status, r.state)
      && (r.out.Some? ==> reply.response == Some(r.out.value.text))
  {
    hide RouterInv, InvWith, SendPinned, Capture, IsTransmission, PinIsCurrent;
    CaptureKeeps(s, view);
    var (captured, pin) := Capture(s, view);
    if pin.Some? && reply.response.Some? {
      SendingBehaves(captured, pin.value, Rpc, reply.response.value, view, link);
      SendPinnedShape(captured, pin.value, Rpc, reply.response.value, view, link);
    }
  }

  lemma ProcessBehaves(s: State, view: BleView, reply: Reply, link: Link)
    requires RouterInv(s) && s.inFlight.Some?
    ensures FramingInv(s.framing)
    ensures var r := Process(s, view, reply, link);
      Behaves(s, r.out, r.status, r.state)
      && (r.out.Some? ==> r.delivered.Some? && r.delivered.value.0 == Rpc && reply.response == Some(r.out.value.text))
  {
    hide RouterInv, Callback, ItemIsCurrent, IngestReport, IsTransmission;
    TransportsFramed(s);
    InFlightAside(s);
    var item := s.inFlight.value;
    if ItemIsCurrent(s, item) {
      FramedKeeps(s);
      var r := IngestReport(TransportOf(s.framing, item.source), item.payload, item.generation);
      if r.delivered.Some? {
        var framed := s.(inFlight := None, framing := WithTransport(s.framing, item.source, r.transport));
        CallbackBehaves(framed, item.source, r.delivered.value.0, view, reply, link);
        DeliveryIsOk(TransportOf(s.framing, item.source), item.payload, item.generation);
        DebugIsSilent(framed, item.source, view, reply, link);
      }
    }
  }

  lemma DebugIsSilent(s: State, source: Source, view: BleView, reply: Reply, link: Link)
    ensures Callback(s, source, Debug, view, reply, link).out.None?
  {
  }

  lemma DeliveryIsOk(t: Transport, payload: Payload, generation: u32)
    requires TransportInv(t)
    ensures IngestReport(t, payload, generation).delivered.Some? ==> IngestReport(t, payload, generation).status == Ok
  {
    hide Deliver;
    if ChannelOf(payload[0]).Some? {
      StepDeliveryIsOk(Get(AcceptGeneration(t, generation).0, ChannelOf(payload[0]).value), payload);
    }
  }

  lemma StepDeliveryIsOk(ch: Channel, payload: Payload)
    requires Inv(ch)
    ensures Deliver(ch, payload).delivered.Some? ==> Deliver(ch, payload).status == Ok
  {
    hide Ingest, Deliverable;
    if WellFormed(payload) {
      IngestAccounts(ch, FragmentOf(payload));
    }
  }

  lemma RouteKeepsRecovery(s: State)
    ensures forall source, t :: Invalidate(t, source).recovery == t.recovery
    ensures forall t, u, b :: UpdateRoute(t, u, b).0.recovery == t.recovery
  {
  }

  /** Every event but the recovery worker's. */
  lemma OutBehaves(s: State, e: Event)
    requires RouterInv(s) && Enabled(s, e) && !e.Recover?
    ensures Behaves(s, OutOf(s, e), StatusOf(s, e), Move(s, e))
  {
    hide RouterInv, Process, SendJson, UpdateRoute, Invalidate, IsTransmission, TokenIsCurrent;
    TransportsFramed(s);
    RouteKeepsRecovery(s);
    match e
    case ProcessItem(view, reply, link) => ProcessBehaves(s, view, reply, link);
    case Send(channel, json, view, link) => SendBehaves(s, channel, json, view, link);
    case _ =>
  }

  // ---------------------------------------------------------------- sessions

  /** A session; and once it is torn USB is out of service. */
  ghost predicate SessionInv(s: State, session: Session) {
    IsSession(session) && (session.torn.Some? ==> s.recovery != NoRecovery)
  }

  lemma StepKeepsSession(s: State, e: Event, session: Session)
    requires RouterInv(s) && Enabled(s, e) && SessionInv(s, session)
    ensures SessionInv(Move(s, e), NextSession(s, e, session))
  {
    hide RouterInv, OutOf, StatusOf, Move, IsSession, IsTransmission, Extended;
    if e.Recover? {
      RecoverGoesOn(s, e.works);
      NewSessionIsWhole(Move(s, e));
    } else {
      OutBehaves(s, e);
      if OutOf(s, e).Some? && NextSession(s, e, session) != session {
        var out := OutOf(s, e).value;
        ExtendedIsSession(session, out, StatusOf(s, e));
        ExtendedTears(session, out, StatusOf(s, e));
      }
    }
  }

  lemma ExtendedTears(session: Session, out: Transmission, status: Status)
    ensures Extended(session, out, status).torn == if status == Ok then session.torn else Some(Sent(out.channel, out.text))
  {
  }

  lemma NewSessionIsWhole(s: State)
    ensures SessionInv(s, NEW_SESSION) && SafeSession(NEW_SESSION)
  {
  }

  lemma RecoverGoesOn(s: State, works: bool)
    requires RouterInv(s) && s.recoveryScheduled
    ensures OutOf(s, Recover(works)).None?
    ensures !(works && s.recovery == ReenablePending) && s.recovery != NoRecovery ==> Move(s, Recover(works)).recovery != NoRecovery
  {
    hide RouterInv;
  }

  // ---------------------------------------------------------------- runs

  /** Responses come from dispatch; other senders pass only texts that survive encoding. */
  ghost predicate Faithful(s: State, e: Event)
    requires RouterInv(s) && Enabled(s, e)
  {
    match e
    case ProcessItem(view, reply, link) =>
      TransportsFramed(s);
      var delivered := Process(s, view, reply, link).delivered;
      delivered.Some? && delivered.value.0 == Rpc && reply.response.Some? ==> RpcDispatch.Dispatches(delivered.value.1, reply.response.value)
    case Send(channel, json, view, link) => Encodable(json) ==> EncodeSafe(json)
    case _ => true
  }

  /** Every response that dispatch can emit survives encoding, wherever the reports are cut. */
  lemma ResponsesAreSafe(json: Text, response: Text)
    requires RpcDispatch.Dispatches(json, response)
    ensures Encodable(response) && EncodeSafe(response)
  {
    hide RpcDispatch.Asks, RpcDispatch.Effected, EncodeSafe, ScanText;
    var r, kind, canonical, env, effect :|
      RpcDispatch.Asks(json, r, kind, canonical) && RpcDispatch.Effected(r, kind, canonical, env, effect)
      && effect.emitted == Some(response);
    RpcDispatch.EmissionAnswers(json, r, kind, canonical, env, effect);
    TrimmedIsSafe(response);
  }

  lemma OutIsSafe(s: State, e: Event)
    requires RouterInv(s) && Enabled(s, e) && Faithful(s, e)
    ensures var out := OutOf(s, e); out.Some? ==> Encodable(out.value.text) && EncodeSafe(out.value.text)
  {
    hide RouterInv, Process, SendJson, EncodeSafe, Encodable, RpcDispatch.Dispatches, Move, Reports;
    TransportsFramed(s);
    if OutOf(s, e).Some? {
      OutBehaves(s, e);
      match e
      case ProcessItem(view, reply, link) =>
        ProcessBehaves(s, view, reply, link);
        ResponsesAreSafe(Process(s, view, reply, link).delivered.value.1, reply.response.value);
      case Send(channel, json, view, link) =>
        SentIsGiven(s, channel, json, view, link);
    }
  }

  lemma SentIsGiven(s: State, channel: ChannelId, json: Text, view: BleView, link: Link)
    ensures var out := SendJson(s, channel, json, view, link).out; out.Some? ==> out.value.text == json
  {
  }

  lemma StepKeepsSafe(s: State, e: Event, session: Session)
    requires RouterInv(s) && Enabled(s, e) && Faithful(s, e) && SafeSession(session)
    ensures SafeSession(NextSession(s, e, session))
  {
    hide RouterInv, OutOf, StatusOf, Faithful, Encodable, EncodeSafe, Reports;
    OutIsSafe(s, e);
  }

  ghost predicate FaithfulFrom(s: State, events: seq<Event>)
    requires RouterInv(s) && Possible(s, events)
    decreases |events|
  {
    events == [] || (Faithful(s, events[0]) && FaithfulFrom(Move(s, events[0]), events[1..]))
  }

  function SessionAfter(s: State, events: seq<Event>, session: Session): Session
    requires RouterInv(s) && Possible(s, events)
    decreases |events|
  {
    if events == [] then session else SessionAfter(Move(s, events[0]), events[1..], NextSession(s, events[0], session))
  }

  lemma {:induction false} RunKeepsSession(s: State, events: seq<Event>, session: Session)
    requires RouterInv(s) && Possible(s, events) && SessionInv(s, session)
    ensures SessionInv(After(s, events), SessionAfter(s, events, session))
    decreases |events|
  {
    hide RouterInv, Move, SessionInv, NextSession;
    if events != [] {
      StepKeepsSession(s, events[0], session);
      RunKeepsSession(Move(s, events[0]), events[1..], NextSession(s, events[0], session));
    }
  }

  lemma {:induction false} RunKeepsSafe(s: State, events: seq<Event>, session: Session)
    requires RouterInv(s) && Possible(s, events) && FaithfulFrom(s, events) && SafeSession(session)
    ensures SafeSession(SessionAfter(s, events, session))
    decreases |events|
  {
    hide RouterInv, Move, SafeSession, NextSession, Faithful;
    if events != [] {
      StepKeepsSafe(s, events[0], session);
      RunKeepsSafe(Move(s, events[0]), events[1..], NextSession(s, events[0], session));
    }
  }

  function SessionOf(events: seq<Event>): Session
    requires IsRun(events)
  {
    ResetInv();
    SessionAfter(RESET, events, NEW_SESSION)
  }

  ghost predicate IsFaithfulRun(events: seq<Event>) {
    ResetInv();
    IsRun(events) && FaithfulFrom(RESET, events)
  }

  /**
   * Session safety. At every point of every run the reports of the USB session are the whole encodings
   * of the texts sent with success, in order, and then at most one encoding cut short; after a cut USB
   * is not ready, until it is enabled again and a session begins.
   */
  lemma EverySessionIsWhole(events: seq<Event>)
    requires IsRun(events)
    ensures SessionInv(End(events), SessionOf(events))
    ensures SessionOf(events).torn.Some? ==> !End(events).route.usbReady
  {
    hide RouterInv, Possible, After, SessionAfter;
    ResetInv();
    NewSessionIsWhole(RESET);
    RunKeepsSession(RESET, events, NEW_SESSION);
    EveryRunKeeps(events);
  }

  /**
   * End to end: a receiver that starts with the session gets on each channel exactly the texts that
   * were sent with success, in order; what was cut short it never shows.
   */
  lemma EverySessionDecodes(events: seq<Event>, generation: u32, id: ChannelId)
    requires IsFaithfulRun(events)
    ensures var session := SessionOf(events);
      TextsFrom(RunInputs(Receiver(generation), InputsOf(session.reports), generation, 0).1, Usb, id)
        == TextsOn(session.whole, id)
  {
    hide RouterInv, Possible, SessionAfter, FaithfulFrom, RunInputs, IsSession, SafeSession;
    ResetInv();
    NewSessionIsWhole(RESET);
    RunKeepsSafe(RESET, events, NEW_SESSION);
    EverySessionIsWhole(events);
    ReceiverReads(SessionOf(events), generation, id);
  }
}
