/** Which reports a transport's framing layer has seen: those since the last invalidation, in order. */
module RouterLanes {
  import opened Bytes
  import opened FramingSpec
  import opened RouterSpec
  import opened RouterRuns

  // ---------------------------------------------------------------- what a step does to one transport

  datatype View = View(generation: u32, queue: seq<Item>, transport: Transport, selected: bool)

  function Look(s: State, source: Source): View {
    View(GenerationFor(s.route, source), QueueOf(s, source), TransportOf(s.framing, source), Selected(s.route) == Some(source))
  }

  /** A new generation with nothing in it. */
  predicate Restarted(v: View, w: View) {
    w.generation == Increment(v.generation) && w.queue == [] && w.transport == BLANK
  }

  predicate Untouched(v: View, w: View) {
    w == v.(selected := w.selected) && (v.selected ==> w.selected)
  }

  lemma InvalidateLook(s: State, source: Source, other: Source)
    ensures var v, w := Look(s, other), Look(Invalidate(s, source), other);
      w.selected == v.selected && if source == other then Restarted(v, w) else w == v
  {
  }

  lemma UpdateRouteLook(s: State, usbInvalidated: bool, bleInvalidated: bool, source: Source)
    ensures var v, w := Look(s, source), Look(UpdateRoute(s, usbInvalidated, bleInvalidated).0, source);
      if (if source == Usb then usbInvalidated else bleInvalidated) then w == v.(selected := w.selected)
      else Restarted(v, w) || Untouched(v, w)
  {
    hide Invalidate;
    InvalidateLook(s, Usb, source);
    InvalidateLook(s, Ble, source);
  }

  lemma UsbStateLook(s: State, hid: bool, source: Source)
    requires RouterInv(s)
    ensures var v, w := Look(s, source), Look(OnUsbState(s, hid), source); Restarted(v, w) || Untouched(v, w)
  {
    hide UpdateRoute, Invalidate, PartsInv;
    var ready := hid && s.recovery == NoRecovery;
    var changed := s.route.usbReady != ready;
    var r := s.(route := s.route.(usbReady := ready));
    InvalidateLook(r, Usb, source);
    assert Look(r, source) == Look(s, source);
    UpdateRouteLook(if changed then Invalidate(r, Usb) else s, changed, false, source);
  }

  lemma BleProfileLook(s: State, profile: byte, connected: bool, source: Source)
    ensures var v, w := Look(s, source), Look(OnBleProfile(s, profile, connected), source); Restarted(v, w) || Untouched(v, w)
  {
    hide UpdateRoute, Invalidate;
    var changed := s.route.bleProfile != profile || s.route.bleConnected != connected;
    var known := s.(route := s.route.(bleProfile := profile, bleConnected := connected));
    InvalidateLook(known, Ble, source);
    assert Look(known, source) == Look(s, source);
    UpdateRouteLook(if changed then Invalidate(known, Ble) else known, false, changed, source);
  }

  lemma BleEdgeLook(s: State, profile: byte, connected: bool, source: Source)
    requires RouterInv(s)
    ensures var v, w := Look(s, source), Look(OnBleConnectionEdge(s, profile, connected), source); Restarted(v, w) || Untouched(v, w)
  {
    hide UpdateRoute, Invalidate, PartsInv;
    var known := s.(route := s.route.(bleProfile := profile, bleConnected := connected));
    InvalidateLook(known, Ble, source);
    assert Look(known, source) == Look(s, source);
    UpdateRouteLook(Invalidate(known, Ble), false, true, source);
  }

  lemma RequestRecoveryLook(s: State, pin: Pin, source: Source)
    requires Selected(s.route) == Wanted(s.route)
    ensures var v, w := Look(s, source), Look(RequestRecovery(s, pin).0, source); Restarted(v, w) || Untouched(v, w)
  {
    hide UpdateRoute, Invalidate;
    var r := s.(recovery := DetachPending, route := s.route.(usbReady := false));
    InvalidateLook(r, Usb, source);
    assert Look(r, source) == Look(s, source);
    UpdateRouteLook(Invalidate(r, Usb), true, false, source);
  }

  lemma SendPinnedLook(s: State, pin: Pin, channel: ChannelId, json: Text, view: BleView, link: Link, source: Source)
    requires Selected(s.route) == Wanted(s.route)
    ensures var v, w := Look(s, source), Look(SendPinned(s, pin, channel, json, view, link).state, source);
      Restarted(v, w) || Untouched(v, w)
  {
    hide RequestRecovery, PinIsCurrent, Wanted;
    var e := SendPinned(s, pin, channel, json, view, link);
    if e.out.Some? {
      RequestRecoveryLook(s, pin.(emitted := pin.emitted + |e.out.value.sent|), source);
    }
  }

  lemma CaptureLook(s: State, view: BleView, source: Source)
    ensures Look(Capture(s, view).0, source) == Look(s, source) && Capture(s, view).0.route == s.route
  {
  }

  lemma SendJsonLook(s: State, channel: ChannelId, json: Text, view: BleView, link: Link, source: Source)
    requires Selected(s.route) == Wanted(s.route)
    ensures var v, w := Look(s, source), Look(SendJson(s, channel, json, view, link).state, source);
      Restarted(v, w) || Untouched(v, w)
  {
    hide SendPinned, Capture, Wanted;
    CaptureLook(s, view, source);
    var (captured, pin) := Capture(s, view);
    if pin.Some? {
      SendPinnedLook(captured, pin.value, channel, json, view, link, source);
    }
  }

  lemma CallbackLook(s: State, from: Source, channel: ChannelId, view: BleView, reply: Reply, link: Link, source: Source)
    requires Selected(s.route) == Wanted(s.route)
    ensures var v, w := Look(s, source), Look(Callback(s, from, channel, view, reply, link).state, source);
      Restarted(v, w) || Untouched(v, w)
  {
    hide SendPinned, Capture, Wanted;
    CaptureLook(s, view, source);
    var (captured, pin) := Capture(s, view);
    if pin.Some? && reply.response.Some? {
      SendPinnedLook(captured, pin.value, Rpc, reply.response.value, view, link, source);
    }
  }

  // ---------------------------------------------------------------- what a step brings to one transport

  /** The report that an event puts into the queue. */
  function AcceptedBy(s: State, e: Event, source: Source): seq<Payload> {
    match e
    case UsbReport(busy, payload) => if source == Usb && IngestUsb(s, busy, payload).1 == Ok then [payload] else []
    case BleReport(busy, payload, token) => if source == Ble && IngestBle(s, busy, payload, token).1 == Ok then [payload] else []
    case _ => []
  }

  /** The report that an event hands to the framing layer. */
  function FramedBy(s: State, e: Event, source: Source): seq<Payload>
    requires Enabled(s, e)
  {
    if e.ProcessItem? && s.inFlight.value.source == source && ItemIsCurrent(s, s.inFlight.value)
    then [s.inFlight.value.payload] else []
  }

  predicate TakenFrom(s: State, e: Event, source: Source) {
    e.TakeItem? && match source case Usb => s.usbQueue != [] case Ble => s.usbQueue == [] && s.bleQueue != []
  }

  function PayloadsOf(items: seq<Item>): (p: seq<Payload>)
    ensures |p| == |items|
    ensures forall i :: 0 <= i < |p| ==> p[i] == items[i].payload
  {
    seq(|items|, i requires 0 <= i < |items| => items[i].payload)
  }

  /** The framing layer after at most one report. */
  function Reported(t: Transport, payloads: seq<Payload>, generation: u32): Transport
    requires TransportInv(t) && |payloads| <= 1
  {
    if payloads == [] then t else IngestReport(t, payloads[0], generation).transport
  }

  /** Within an epoch the transport changes only by the reports the step accepts, takes and frames. */
  ghost predicate Goes(s: State, e: Event, source: Source, v: View, w: View)
    requires Enabled(s, e) && TransportInv(v.transport)
  {
    w.generation == v.generation
    && (v.selected ==> w.selected)
    && (if TakenFrom(s, e, source) then v.queue != [] && w.queue == v.queue[1..]
        else PayloadsOf(w.queue) == PayloadsOf(v.queue) + AcceptedBy(s, e, source))
    && w.transport == Reported(v.transport, FramedBy(s, e, source), v.generation)
  }

  lemma UntouchedGoes(s: State, e: Event, source: Source, v: View, w: View)
    requires Enabled(s, e) && TransportInv(v.transport) && Untouched(v, w)
    requires !e.TakeItem? && AcceptedBy(s, e, source) == [] && FramedBy(s, e, source) == []
    ensures Goes(s, e, source, v, w)
  {
    hide AcceptedBy, FramedBy;
    assert PayloadsOf(v.queue) + [] == PayloadsOf(v.queue);
  }

  lemma IngestGoes(s: State, e: Event, source: Source)
    requires RouterInv(s) && (e.UsbReport? || e.BleReport?)
    ensures TransportInv(Look(s, source).transport) && Goes(s, e, source, Look(s, source), Look(Move(s, e), source))
  {
    hide TransportInv, QueueInv, FramingCurrent, Count;
    var v, w := Look(s, source), Look(Move(s, e), source);
    if AcceptedBy(s, e, source) == [] {
      assert w == v;
      assert PayloadsOf(v.queue) + [] == PayloadsOf(v.queue);
    } else {
      assert |w.queue| == |v.queue| + 1 && w.queue[..|v.queue|] == v.queue;
      assert PayloadsOf(w.queue) == PayloadsOf(v.queue) + AcceptedBy(s, e, source);
    }
  }

  lemma ProcessGoes(s: State, view: BleView, reply: Reply, link: Link, source: Source)
    requires RouterInv(s) && s.inFlight.Some?
    ensures var e := ProcessItem(view, reply, link);
      var v, w := Look(s, source), Look(Move(s, e), source);
      TransportInv(v.transport) && (Restarted(v, w) || Goes(s, e, source, v, w))
  {
    hide TransportInv, QueueInv, FramingCurrent, Count, Callback, ItemIsCurrent, IngestReport, Selected, Wanted, PayloadsOf, Restarted;
    var e := ProcessItem(view, reply, link);
    var item := s.inFlight.value;
    var v := Look(s, source);
    assert PayloadsOf(v.queue) + [] == PayloadsOf(v.queue);
    if ItemIsCurrent(s, item) {
      CurrentGeneration(s, item);
      var r := IngestReport(TransportOf(s.framing, item.source), item.payload, item.generation);
      var framed := s.(inFlight := None, framing := WithTransport(s.framing, item.source, r.transport));
      assert Look(framed, source).transport == Reported(v.transport, FramedBy(s, e, source), v.generation);
      if r.delivered.Some? {
        CallbackLook(framed, item.source, r.delivered.value.0, view, reply, link, source);
        RestartAgain(v, Look(framed, source), Look(Move(s, e), source));
      }
    }
  }

  lemma RestartAgain(v: View, x: View, w: View)
    requires x.generation == v.generation
    ensures Restarted(x, w) ==> Restarted(v, w)
  {
  }

  lemma CurrentGeneration(s: State, item: Item)
    requires ItemIsCurrent(s, item)
    ensures item.generation == GenerationFor(s.route, item.source) && Selected(s.route) == Some(item.source)
  {
  }

  /** Every step either starts a new epoch of a transport, or goes on within it. */
  lemma StepLook(s: State, e: Event, source: Source)
    requires RouterInv(s) && Enabled(s, e)
    ensures var v, w := Look(s, source), Look(Move(s, e), source);
      TransportInv(v.transport) && (Restarted(v, w) || Goes(s, e, source, v, w))
    ensures Restarted(Look(s, source), Look(Move(s, e), source)) ==> !e.TakeItem? && !e.UsbReport? && !e.BleReport?
  {
    hide OnUsbState, OnBleProfile, OnBleConnectionEdge, SendJson, Process, TransportInv, PartsInv, Untouched, Goes, PayloadsOf, Invalidate;
    TransportsAreSound(s, source);
    var v, w := Look(s, source), Look(Move(s, e), source);
    match e
    case UsbState(hid) => UsbStateLook(s, hid, source); StayGoes(s, e, source, v, w);
    case UsbPhysical(counts) => InvalidateLook(s, Usb, source); SameGoes(s, e, source, v, w);
    case BleProfile(profile, connected) => BleProfileLook(s, profile, connected, source); StayGoes(s, e, source, v, w);
    case BleEdge(profile, connected) => BleEdgeLook(s, profile, connected, source); StayGoes(s, e, source, v, w);
    case UsbReport(busy, payload) => IngestGoes(s, e, source); GoesOn(s, e, source, v, w);
    case BleReport(busy, payload, token) => IngestGoes(s, e, source); GoesOn(s, e, source, v, w);
    case TakeItem => TakeGoes(s, source); GoesOn(s, e, source, v, w);
    case ProcessItem(view, reply, link) => ProcessGoes(s, view, reply, link, source);
    case Send(channel, json, view, link) => SendJsonLook(s, channel, json, view, link, source); StayGoes(s, e, source, v, w);
    case _ => SameGoes(s, e, source, v, w);
  }

  lemma TransportsAreSound(s: State, source: Source)
    requires RouterInv(s)
    ensures TransportInv(TransportOf(s.framing, source))
  {
  }

  lemma GoesOn(s: State, e: Event, source: Source, v: View, w: View)
    requires Enabled(s, e) && TransportInv(v.transport) && Goes(s, e, source, v, w)
    ensures !Restarted(v, w)
  {
  }

  lemma StayGoes(s: State, e: Event, source: Source, v: View, w: View)
    requires Enabled(s, e) && TransportInv(v.transport) && (Restarted(v, w) || Untouched(v, w))
    requires e.UsbState? || e.BleProfile? || e.BleEdge? || e.Send?
    ensures Restarted(v, w) || Goes(s, e, source, v, w)
  {
    hide Restarted, Untouched;
    if Untouched(v, w) {
      UntouchedGoes(s, e, source, v, w);
    }
  }

  lemma SameGoes(s: State, e: Event, source: Source, v: View, w: View)
    requires Enabled(s, e) && TransportInv(v.transport) && (Restarted(v, w) || w == v)
    requires e.UsbPhysical? || e.BumpHids? || e.FinalizePin? || e.Recover?
    ensures Restarted(v, w) || Goes(s, e, source, v, w)
  {
    hide Restarted;
    if w == v {
      UntouchedGoes(s, e, source, v, w);
    }
  }

  lemma TakeGoes(s: State, source: Source)
    requires RouterInv(s) && s.inFlight.None?
    ensures TransportInv(Look(s, source).transport) && Goes(s, TakeItem, source, Look(s, source), Look(Move(s, TakeItem), source))
  {
    hide TransportInv, FramingCurrent, Count;
    var v := Look(s, source);
    assert PayloadsOf(v.queue) + [] == PayloadsOf(v.queue);
  }

  // ---------------------------------------------------------------- arrival order

  datatype Arrival = Arrival(source: Source, payload: Payload)

  function Arrivals(source: Source, payloads: seq<Payload>): (a: seq<Arrival>)
    ensures |a| == |payloads|
    ensures forall i :: 0 <= i < |a| ==> a[i] == Arrival(source, payloads[i])
  {
    seq(|payloads|, i requires 0 <= i < |payloads| => Arrival(source, payloads[i]))
  }

  /** Both queues, the USB queue first, as the work handler drains them. */
  function Queued(s: State): seq<Arrival> {
    Arrivals(Usb, PayloadsOf(s.usbQueue)) + Arrivals(Ble, PayloadsOf(s.bleQueue))
  }

  function Without(waiting: seq<Arrival>, source: Source): seq<Arrival> {
    if waiting == [] then []
    else (if waiting[0].source == source then [] else [waiting[0]]) + Without(waiting[1..], source)
  }

  function WithoutIf(waiting: seq<Arrival>, source: Source, drop: bool): seq<Arrival> {
    if drop then Without(waiting, source) else waiting
  }

  /** The reports that wait, in the order of their arrival: an invalidation drops those of its transport. */
  function NextWaiting(s: State, e: Event, waiting: seq<Arrival>): seq<Arrival>
    requires RouterInv(s) && Enabled(s, e)
  {
    if e.TakeItem? then if waiting == [] then [] else waiting[1..]
    else
      var t := Move(s, e);
      var usb := WithoutIf(waiting, Usb, Restarted(Look(s, Usb), Look(t, Usb)));
      WithoutIf(usb, Ble, Restarted(Look(s, Ble), Look(t, Ble)))
      + Arrivals(Usb, AcceptedBy(s, e, Usb)) + Arrivals(Ble, AcceptedBy(s, e, Ble))
  }

  lemma {:induction false} WithoutOne(source: Source, payloads: seq<Payload>, drop: Source)
    ensures Without(Arrivals(source, payloads), drop) == if source == drop then [] else Arrivals(source, payloads)
    decreases |payloads|
  {
    if payloads != [] {
      assert Arrivals(source, payloads)[1..] == Arrivals(source, payloads[1..]);
      WithoutOne(source, payloads[1..], drop);
    }
  }

  lemma ArrivalsAppend(source: Source, a: seq<Payload>, b: seq<Payload>)
    ensures Arrivals(source, a + b) == Arrivals(source, a) + Arrivals(source, b)
  {
  }

  lemma OneQueue(s: State)
    requires RouterInv(s)
    ensures s.usbQueue == [] || s.bleQueue == []
  {
    OnlySelectedIsQueued(s);
  }

  lemma TakingKeepsOrder(s: State)
    requires RouterInv(s) && s.inFlight.None?
    ensures NextWaiting(s, TakeItem, Queued(s)) == Queued(Move(s, TakeItem))
  {
    hide RouterInv;
    OneQueue(s);
    if s.usbQueue != [] {
      assert PayloadsOf(s.usbQueue)[1..] == PayloadsOf(s.usbQueue[1..]);
    } else if s.bleQueue != [] {
      assert PayloadsOf(s.bleQueue)[1..] == PayloadsOf(s.bleQueue[1..]);
    }
  }

  /** What one transport contributes to the queues after a step that takes nothing. */
  lemma QueueGoes(s: State, e: Event, source: Source)
    requires RouterInv(s) && Enabled(s, e) && !e.TakeItem?
    ensures PayloadsOf(QueueOf(Move(s, e), source))
      == if Restarted(Look(s, source), Look(Move(s, e), source)) then []
         else PayloadsOf(QueueOf(s, source)) + AcceptedBy(s, e, source)
    ensures AcceptedBy(s, e, source) != [] ==> !Restarted(Look(s, source), Look(Move(s, e), source))
  {
    hide RouterInv, Move, TransportInv, Reported, FramedBy;
    StepLook(s, e, source);
  }

  lemma OnlyReportsAreAccepted(s: State, e: Event)
    ensures AcceptedBy(s, e, Usb) == [] || AcceptedBy(s, e, Ble) == []
    ensures AcceptedBy(s, e, Usb) != [] ==> Selected(s.route) == Some(Usb)
    ensures AcceptedBy(s, e, Ble) != [] ==> Selected(s.route) == Some(Ble)
  {
  }

  /** The queues hold exactly the waiting reports in the order of their arrival. */
  lemma StepKeepsOrder(s: State, e: Event)
    requires RouterInv(s) && Enabled(s, e)
    ensures NextWaiting(s, e, Queued(s)) == Queued(Move(s, e))
  {
    hide RouterInv, Move, Restarted, PayloadsOf, AcceptedBy, Look, Arrivals;
    if e.TakeItem? {
      TakingKeepsOrder(s);
    } else {
      OneQueue(s);
      OneQueue(Move(s, e));
      QueueGoes(s, e, Usb);
      QueueGoes(s, e, Ble);
      OnlyReportsAreAccepted(s, e);
      OneIsEmpty(s);
      OrderGoes(PayloadsOf(s.usbQueue), PayloadsOf(s.bleQueue), AcceptedBy(s, e, Usb), AcceptedBy(s, e, Ble),
                Restarted(Look(s, Usb), Look(Move(s, e), Usb)), Restarted(Look(s, Ble), Look(Move(s, e), Ble)));
    }
  }

  lemma OneIsEmpty(s: State)
    requires RouterInv(s)
    ensures PayloadsOf(s.usbQueue) == [] || PayloadsOf(s.bleQueue) == []
    ensures Selected(s.route) != Some(Usb) ==> PayloadsOf(s.usbQueue) == []
    ensures Selected(s.route) != Some(Ble) ==> PayloadsOf(s.bleQueue) == []
  {
    OnlySelectedIsQueued(s);
  }

  /** A queue of one transport, filtered and extended. */
  lemma OneGoes(source: Source, queue: seq<Payload>, more: seq<Payload>, usbGone: bool, bleGone: bool)
    requires more == [] || !(if source == Usb then usbGone else bleGone)
    ensures WithoutIf(WithoutIf(Arrivals(source, queue), Usb, usbGone), Ble, bleGone) + Arrivals(source, more)
      == Arrivals(source, if (if source == Usb then usbGone else bleGone) then [] else queue + more)
  {
    WithoutOne(source, queue, Usb);
    WithoutOne(source, queue, Ble);
    WithoutOne(source, [], Ble);
    ArrivalsAppend(source, queue, more);
    assert [] + more == more;
  }

  lemma NoArrivals(source: Source, a: seq<Arrival>)
    ensures Arrivals(source, []) == [] && a + [] == a && [] + a == a
  {
  }

  lemma OrderGoes(usb: seq<Payload>, ble: seq<Payload>, usbMore: seq<Payload>, bleMore: seq<Payload>, usbGone: bool, bleGone: bool)
    requires usb == [] || ble == []
    requires usbMore == [] || (ble == [] && bleMore == [] && !usbGone)
    requires bleMore == [] || (usb == [] && usbMore == [] && !bleGone)
    ensures WithoutIf(WithoutIf(Arrivals(Usb, usb) + Arrivals(Ble, ble), Usb, usbGone), Ble, bleGone)
        + Arrivals(Usb, usbMore) + Arrivals(Ble, bleMore)
      == Arrivals(Usb, if usbGone then [] else usb + usbMore) + Arrivals(Ble, if bleGone then [] else ble + bleMore)
  {
    hide Arrivals, WithoutIf;
    var u, b := Arrivals(Usb, usb), Arrivals(Ble, ble);
    NoArrivals(Usb, b);
    NoArrivals(Ble, u);
    if ble == [] && bleMore == [] {
      OneGoes(Usb, usb, usbMore, usbGone, bleGone);
      NoArrivals(Ble, Arrivals(Usb, if usbGone then [] else usb + usbMore));
      NoArrivals(Ble, WithoutIf(WithoutIf(u, Usb, usbGone), Ble, bleGone) + Arrivals(Usb, usbMore));
    } else {
      assert usb == [] && usbMore == [];
      OneGoes(Ble, ble, bleMore, usbGone, bleGone);
      NoArrivals(Usb, Arrivals(Ble, if bleGone then [] else ble + bleMore));
      NoArrivals(Usb, WithoutIf(WithoutIf(b, Usb, usbGone), Ble, bleGone));
    }
  }

  function WaitingAfter(s: State, events: seq<Event>, waiting: seq<Arrival>): seq<Arrival>
    requires RouterInv(s) && Possible(s, events)
    decreases |events|
  {
    if events == [] then waiting else WaitingAfter(Move(s, events[0]), events[1..], NextWaiting(s, events[0], waiting))
  }

  lemma {:induction false} RunKeepsOrder(s: State, events: seq<Event>)
    requires RouterInv(s) && Possible(s, events)
    ensures WaitingAfter(s, events, Queued(s)) == Queued(After(s, events))
    decreases |events|
  {
    hide RouterInv, Move, NextWaiting, Queued;
    if events != [] {
      StepKeepsOrder(s, events[0]);
      RunKeepsOrder(Move(s, events[0]), events[1..]);
    }
  }

  function WaitingOf(events: seq<Event>): seq<Arrival>
    requires IsRun(events)
  {
    ResetInv();
    WaitingAfter(RESET, events, [])
  }

  /** In every run the work handler takes the report that has waited longest, though it looks at USB first. */
  lemma TakesTheOldest(events: seq<Event>)
    requires IsRun(events) && End(events).inFlight.None?
    ensures var waiting := WaitingOf(events);
      var t := Take(End(events)).0;
      if waiting == [] then t.inFlight.None?
      else t.inFlight.Some? && Arrival(t.inFlight.value.source, t.inFlight.value.payload) == waiting[0]
  {
    hide Possible, After, WaitingAfter, RouterInv, PayloadsOf;
    ResetInv();
    RunKeepsOrder(RESET, events);
    assert Queued(RESET) == [];
    var s := End(events);
    OneQueue(s);
    HeadSources(s);
  }

  lemma HeadSources(s: State)
    requires RouterInv(s)
    ensures s.usbQueue != [] ==> s.usbQueue[0].source == Usb
    ensures s.bleQueue != [] ==> s.bleQueue[0].source == Ble
  {
    hide Count, FramingInv, FramingCurrent;
  }
}
