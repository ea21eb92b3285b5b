/** Epoch safety of the router: what dispatch sees comes from the reports since the last invalidation. */
module RouterEpochs {
  import opened Bytes
  import opened ChannelSpec
  import opened ChannelRuns
  import opened FramingSpec
  import opened RouterSpec
  import opened RouterRuns
  import opened RouterLanes

  // ---------------------------------------------------------------- the past of a run

  /** One transport: how often it was invalidated, and what was accepted and framed since. */
  datatype Lane = Lane(epoch: nat, arrived: seq<Payload>, framed: seq<Payload>)

  /** `flightEpoch`: the epoch in which the work handler took the item it holds. */
  datatype Past = Past(usb: Lane, ble: Lane, flightEpoch: nat)

  const NO_LANE: Lane := Lane(0, [], [])
  const NO_PAST: Past := Past(NO_LANE, NO_LANE, 0)

  function LaneOf(past: Past, source: Source): Lane {
    match source case Usb => past.usb case Ble => past.ble
  }

  /** Whether a step invalidated the transport; see `StepLook` for what else that means. */
  predicate Invalidated(s: State, e: Event, source: Source)
    requires RouterInv(s) && Enabled(s, e)
  {
    GenerationFor(Move(s, e).route, source) != GenerationFor(s.route, source)
  }

  function NextLane(s: State, e: Event, lane: Lane, source: Source): Lane
    requires RouterInv(s) && Enabled(s, e)
  {
    if Invalidated(s, e, source) then Lane(lane.epoch + 1, [], [])
    else Lane(lane.epoch, lane.arrived + AcceptedBy(s, e, source), lane.framed + FramedBy(s, e, source))
  }

  function NextPast(s: State, e: Event, past: Past): Past
    requires RouterInv(s) && Enabled(s, e)
  {
    Past(NextLane(s, e, past.usb, Usb), NextLane(s, e, past.ble, Ble),
         if TakenFrom(s, e, Usb) then past.usb.epoch else if TakenFrom(s, e, Ble) then past.ble.epoch else past.flightEpoch)
  }

  /** Fewer than 2^32 invalidations lie between taking an item and processing it. */
  predicate Timely(s: State, e: Event, past: Past)
    requires Enabled(s, e)
  {
    e.ProcessItem? ==> LaneOf(past, s.inFlight.value.source).epoch - past.flightEpoch < U32
  }

  // ---------------------------------------------------------------- subsequences

  ghost predicate Embeds(f: seq<nat>, a: seq<Payload>, b: seq<Payload>) {
    |f| == |a|
    && (forall i :: 0 <= i < |f| ==> f[i] < |b| && b[f[i]] == a[i])
    && (forall i, j :: 0 <= i < j < |f| ==> f[i] < f[j])
  }

  /** The first list is the second with some elements left out. */
  ghost predicate Subsequence(a: seq<Payload>, b: seq<Payload>) {
    exists f: seq<nat> :: Embeds(f, a, b)
  }

  lemma SubsequenceGrows(a: seq<Payload>, b: seq<Payload>, x: Payload)
    requires Subsequence(a, b)
    ensures Subsequence(a + [x], b + [x])
  {
    var f: seq<nat> :| Embeds(f, a, b);
    assert Embeds(f + [|b|], a + [x], b + [x]);
  }

  lemma SubsequenceLoses(a: seq<Payload>, x: Payload, c: seq<Payload>, b: seq<Payload>)
    requires Subsequence(a + [x] + c, b)
    ensures Subsequence(a + c, b)
  {
    var f: seq<nat> :| Embeds(f, a + [x] + c, b);
    var g := f[..|a|] + f[|a| + 1..];
    forall i | 0 <= i < |g| ensures g[i] < |b| && b[g[i]] == (a + c)[i] {
      assert (a + c)[i] == (a + [x] + c)[if i < |a| then i else i + 1];
    }
    assert Embeds(g, a + c, b);
  }

  lemma SubsequencePart(a: seq<Payload>, c: seq<Payload>, b: seq<Payload>)
    requires Subsequence(a + c, b)
    ensures Subsequence(a, b)
  {
    var f: seq<nat> :| Embeds(f, a + c, b);
    forall i | 0 <= i < |a| ensures f[i] < |b| && b[f[i]] == a[i] {
      assert (a + c)[i] == a[i];
    }
    assert Embeds(f[..|a|], a, b);
  }

  // ---------------------------------------------------------------- a channel as a function of its reports

  function For(payloads: seq<Payload>, id: ChannelId): seq<Payload> {
    if payloads == [] then []
    else (if ChannelOf(payloads[0][0]) == Some(id) then [payloads[0]] else []) + For(payloads[1..], id)
  }

  lemma {:induction false} ForAppend(payloads: seq<Payload>, p: Payload, id: ChannelId)
    ensures For(payloads + [p], id) == For(payloads, id) + if ChannelOf(p[0]) == Some(id) then [p] else []
  {
    hide ChannelOf;
    if payloads == [] {
      assert [] + [p] == [p];
    } else {
      assert (payloads + [p])[1..] == payloads[1..] + [p];
      ForAppend(payloads[1..], p, id);
    }
  }

  lemma {:induction false} RunAloneAppend(ch: Channel, payloads: seq<Payload>, p: Payload)
    requires Inv(ch)
    ensures var (ch', texts) := RunAlone(ch, payloads);
      var step := Deliver(ch', p);
      RunAlone(ch, payloads + [p]) == (step.channel, texts + Values(step.delivered))
    decreases |payloads|
  {
    hide Inv, Deliver;
    if payloads == [] {
      assert [p][1..] == [];
      assert [] + [p] == [p];
      var values := Values(Deliver(ch, p).delivered);
      assert values + [] == values && [] + values == values;
    } else {
      assert (payloads + [p])[1..] == payloads[1..] + [p];
      var first := Deliver(ch, payloads[0]);
      RunAloneAppend(first.channel, payloads[1..], p);
      var rest := RunAlone(first.channel, payloads[1..]);
      var last := Values(Deliver(rest.0, p).delivered);
      assert Values(first.delivered) + (rest.1 + last) == (Values(first.delivered) + rest.1) + last;
    }
  }

  /** What a channel has delivered since its transport was last invalidated. */
  function Delivered(framed: seq<Payload>, id: ChannelId): seq<Text> {
    IdleIsSound();
    RunAlone(IDLE, For(framed, id)).1
  }

  /** The channels hold what the framed reports leave, and nothing older. */
  predicate HoldsFramed(t: Transport, framed: seq<Payload>) {
    IdleIsSound();
    Get(t, Debug) == RunAlone(IDLE, For(framed, Debug)).0 && Get(t, Rpc) == RunAlone(IDLE, For(framed, Rpc)).0
  }

  lemma FramingFollows(t: Transport, framed: seq<Payload>, p: Payload, generation: u32)
    requires TransportInv(t) && HoldsFramed(t, framed)
    requires if t.generationValid then t.generation == generation else t == BLANK
    ensures var r := IngestReport(t, p, generation);
      HoldsFramed(r.transport, framed + [p])
      && (r.delivered.Some? ==>
          Delivered(framed + [p], r.delivered.value.0) == Delivered(framed, r.delivered.value.0) + [r.delivered.value.1])
  {
    hide Deliver, Inv, ChannelOf;
    var begun := t.(generation := generation, generationValid := true);
    assert IngestReport(begun, p, generation) == IngestReport(t, p, generation);
    ChannelFollows(begun, framed, p, Debug);
    ChannelFollows(begun, framed, p, Rpc);
  }

  lemma ChannelFollows(t: Transport, framed: seq<Payload>, p: Payload, id: ChannelId)
    requires TransportInv(t) && t.generationValid && Get(t, id) == (IdleIsSound(); RunAlone(IDLE, For(framed, id)).0)
    ensures var r := IngestReport(t, p, t.generation);
      Get(r.transport, id) == (IdleIsSound(); RunAlone(IDLE, For(framed + [p], id)).0)
      && (r.delivered.Some? && r.delivered.value.0 == id ==>
          Delivered(framed + [p], id) == Delivered(framed, id) + [r.delivered.value.1])
  {
    hide Deliver, Inv, ChannelOf, IngestReport;
    IdleIsSound();
    ReportIsLocal(t, p, t.generation, id);
    ForAppend(framed, p, id);
    if ChannelOf(p[0]) == Some(id) {
      RunAloneAppend(IDLE, For(framed, id), p);
    } else {
      assert For(framed, id) + [] == For(framed, id);
    }
  }

  // ---------------------------------------------------------------- the invariant

  /** The item in flight, if it is one of this transport and this epoch. */
  function InFlightOf(s: State, past: Past, source: Source): seq<Payload> {
    if s.inFlight.Some? && s.inFlight.value.source == source && past.flightEpoch == LaneOf(past, source).epoch
    then [s.inFlight.value.payload] else []
  }

  /** The reports of this epoch that are not lost. */
  function Present(s: State, past: Past, source: Source): seq<Payload> {
    LaneOf(past, source).framed + InFlightOf(s, past, source) + PayloadsOf(QueueOf(s, source))
  }

  predicate FlightInv(s: State, past: Past, source: Source) {
    s.inFlight.Some? && s.inFlight.value.source == source ==>
      past.flightEpoch <= LaneOf(past, source).epoch
      && s.inFlight.value.generation == past.flightEpoch % U32
      && (past.flightEpoch == LaneOf(past, source).epoch ==> Selected(s.route) == Some(source))
  }

  /**
   * The generation is the epoch modulo 2^32. The framing state is that of the framed reports alone.
   * Over USB no report of the epoch is lost or overtaken; over Bluetooth some may be dropped.
   */
  ghost predicate LaneInv(s: State, past: Past, source: Source) {
    var lane := LaneOf(past, source);
    GenerationFor(s.route, source) == lane.epoch % U32
    && HoldsFramed(TransportOf(s.framing, source), lane.framed)
    && FlightInv(s, past, source)
    && match source
       case Usb => Present(s, past, source) == lane.arrived
       case Ble => Subsequence(Present(s, past, source), lane.arrived)
  }

  ghost predicate PastInv(s: State, past: Past) {
    LaneInv(s, past, Usb) && LaneInv(s, past, Ble)
  }

  lemma ResetLane(source: Source)
    ensures LaneInv(RESET, NO_PAST, source)
  {
    hide HoldsFramed, Subsequence, Present, PayloadsOf;
    BlankHoldsNothing();
    NothingPresent(RESET, NO_PAST, source);
  }

  lemma ResetPast()
    ensures PastInv(RESET, NO_PAST)
  {
    hide LaneInv;
    ResetLane(Usb);
    ResetLane(Ble);
  }

  /** An item in flight is current only in the epoch it was taken in; over USB it then always is. */
  lemma CurrentInItsEpoch(s: State, past: Past)
    requires RouterInv(s) && PastInv(s, past) && s.inFlight.Some?
    requires LaneOf(past, s.inFlight.value.source).epoch - past.flightEpoch < U32
    ensures var item := s.inFlight.value;
      (ItemIsCurrent(s, item) ==> past.flightEpoch == LaneOf(past, item.source).epoch)
      && (item.source == Usb ==> (ItemIsCurrent(s, item) <==> past.flightEpoch == past.usb.epoch))
  {
    hide HoldsFramed, Subsequence, RouterInv, Present;
    var item := s.inFlight.value;
    var epoch := LaneOf(past, item.source).epoch;
    assert FlightInv(s, past, item.source);
    if past.flightEpoch < epoch {
      assert (epoch - past.flightEpoch) % U32 == epoch - past.flightEpoch;
    }
  }

  /**
   * Without that bound: exactly after a multiple of 2^32 invalidations an old item passes for a new one;
   * over Bluetooth its token must be that of the present connection besides.
   */
  lemma WrapIsTheOnlyGap(s: State, past: Past)
    requires RouterInv(s) && PastInv(s, past) && s.inFlight.Some? && Selected(s.route) == Some(s.inFlight.value.source)
    ensures var item := s.inFlight.value;
      ItemIsCurrent(s, item) <==>
        (LaneOf(past, item.source).epoch - past.flightEpoch) % U32 == 0
        && (item.source == Ble ==> item.token == Token(s.route.bleProfile, s.hidsGeneration))
  {
    hide HoldsFramed, Subsequence, PartsInv, Present;
    var source := s.inFlight.value.source;
    assert FlightInv(s, past, source);
    var d := LaneOf(past, source).epoch - past.flightEpoch;
    assert LaneOf(past, source).epoch % U32 == (past.flightEpoch + d) % U32;
  }

  // ---------------------------------------------------------------- every step keeps it

  lemma LaneRestarts(s: State, e: Event, past: Past, source: Source)
    requires RouterInv(s) && Enabled(s, e) && Restarted(Look(s, source), Look(Move(s, e), source))
    ensures LaneOf(NextPast(s, e, past), source) == Lane(LaneOf(past, source).epoch + 1, [], [])
  {
    hide RouterInv, Move, AcceptedBy, FramedBy, TakenFrom;
  }

  lemma LaneGoesOn(s: State, e: Event, past: Past, source: Source)
    requires RouterInv(s) && Enabled(s, e) && TransportInv(Look(s, source).transport)
    requires Goes(s, e, source, Look(s, source), Look(Move(s, e), source))
    ensures var lane := LaneOf(past, source);
      LaneOf(NextPast(s, e, past), source)
        == Lane(lane.epoch, lane.arrived + AcceptedBy(s, e, source), lane.framed + FramedBy(s, e, source))
  {
    hide RouterInv, Move, AcceptedBy, FramedBy, TakenFrom, Reported, PayloadsOf, TransportInv;
  }

  lemma FlightEpochIs(s: State, e: Event, past: Past)
    requires RouterInv(s) && Enabled(s, e)
    ensures NextPast(s, e, past).flightEpoch
      == if TakenFrom(s, e, Usb) then past.usb.epoch else if TakenFrom(s, e, Ble) then past.ble.epoch else past.flightEpoch
  {
    hide RouterInv, Move, NextLane, TakenFrom;
  }

  lemma RestartedLane(s: State, e: Event, past: Past, source: Source)
    requires RouterInv(s) && Enabled(s, e) && LaneInv(s, past, source)
    requires Restarted(Look(s, source), Look(Move(s, e), source)) && !e.TakeItem?
    requires Move(s, e).inFlight == s.inFlight || Move(s, e).inFlight.None?
    ensures LaneInv(Move(s, e), NextPast(s, e, past), source)
  {
    hide RouterInv, Move, NextPast, HoldsFramed, Subsequence, Enabled, PayloadsOf;
    var t, next := Move(s, e), NextPast(s, e, past);
    LaneRestarts(s, e, past, source);
    FlightEpochIs(s, e, past);
    BlankHoldsNothing();
    NothingPresent(t, next, source);
    EpochIncrements(LaneOf(past, source).epoch);
  }

  lemma EpochIncrements(epoch: nat)
    ensures Increment(epoch % U32) == (epoch + 1) % U32
  {
  }

  lemma NothingPresent(s: State, past: Past, source: Source)
    requires QueueOf(s, source) == [] && LaneOf(past, source).framed == [] && InFlightOf(s, past, source) == []
    ensures Present(s, past, source) == [] && Subsequence([], [])
  {
    assert Embeds([], [], []);
  }

  lemma BlankHoldsNothing()
    ensures HoldsFramed(BLANK, [])
  {
  }

  /** Only taking and processing change what is in flight. */
  lemma FlightMoves(s: State, e: Event)
    requires RouterInv(s) && Enabled(s, e)
    ensures var t := Move(s, e);
      if e.TakeItem? then
        t.inFlight == if TakenFrom(s, e, Usb) then Some(s.usbQueue[0]) else if TakenFrom(s, e, Ble) then Some(s.bleQueue[0]) else None
      else t.inFlight == if e.ProcessItem? then None else s.inFlight
  {
    hide RouterInv, PartsInv, Capture, SendPinned, UpdateRoute, Invalidate, TokenIsCurrent, IngestReport;
    TransportsAreSound(s, Usb);
    TransportsAreSound(s, Ble);
    match e
    case UsbReport(_, _) =>
    case BleReport(_, _, _) =>
    case TakeItem =>
    case FinalizePin(_, _) =>
    case Recover(_) =>
    case ProcessItem(view, reply, link) => ProcessFlight(s, view, reply, link);
    case Send(channel, json, view, link) => SendFlight(s, channel, json, view, link);
    case _ => FlightAside(s);
  }

  lemma FlightAside(s: State)
    ensures forall source :: Invalidate(s, source).inFlight == s.inFlight
    ensures forall t, u, b :: UpdateRoute(t, u, b).0.inFlight == t.inFlight
    ensures forall t, source :: Invalidate(t, source).inFlight == t.inFlight
  {
  }

  lemma EmissionFlight(s: State, pin: Pin, channel: ChannelId, json: Text, view: BleView, link: Link)
    ensures SendPinned(s, pin, channel, json, view, link).state.inFlight == s.inFlight
    ensures Capture(s, view).0.inFlight == s.inFlight
  {
    hide UpdateRoute, Invalidate, Reports;
    FlightAside(s);
  }

  lemma SendFlight(s: State, channel: ChannelId, json: Text, view: BleView, link: Link)
    ensures SendJson(s, channel, json, view, link).state.inFlight == s.inFlight
  {
    hide SendPinned, Capture;
    var (captured, pin) := Capture(s, view);
    EmissionFlight(s, Pin(Usb, 0, NO_TOKEN, false, 0, false, false), channel, json, view, link);
    if pin.Some? {
      EmissionFlight(captured, pin.value, channel, json, view, link);
    }
  }

  lemma CallbackFlight(s: State, source: Source, channel: ChannelId, view: BleView, reply: Reply, link: Link)
    ensures Callback(s, source, channel, view, reply, link).state.inFlight == s.inFlight
  {
    hide SendPinned, Capture;
    var json := if reply.response.Some? then reply.response.value else [];
    var (captured, pin) := Capture(s, view);
    EmissionFlight(s, Pin(Usb, 0, NO_TOKEN, false, 0, false, false), Rpc, json, view, link);
    if pin.Some? {
      EmissionFlight(captured, pin.value, Rpc, json, view, link);
    }
  }

  lemma ProcessFlight(s: State, view: BleView, reply: Reply, link: Link)
    requires s.inFlight.Some? && FramingInv(s.framing)
    ensures Process(s, view, reply, link).state.inFlight == None
  {
    hide Callback, IngestReport, ItemIsCurrent;
    var item := s.inFlight.value;
    if ItemIsCurrent(s, item) {
      var r := IngestReport(TransportOf(s.framing, item.source), item.payload, item.generation);
      if r.delivered.Some? {
        var framed := s.(inFlight := None, framing := WithTransport(s.framing, item.source, r.transport));
        CallbackFlight(framed, item.source, r.delivered.value.0, view, reply, link);
      }
    }
  }

  lemma GoingLane(s: State, e: Event, past: Past, source: Source)
    requires RouterInv(s) && Enabled(s, e) && PastInv(s, past) && Timely(s, e, past)
    requires TransportInv(Look(s, source).transport) && Goes(s, e, source, Look(s, source), Look(Move(s, e), source))
    ensures LaneInv(Move(s, e), NextPast(s, e, past), source)
  {
    hide RouterInv, Move, AcceptedBy, FramedBy, HoldsFramed, Subsequence, PayloadsOf, IngestReport, ItemIsCurrent, NextPast, FlightInv, Present, Reported, TakenFrom, Timely;
    LaneGoesOn(s, e, past, source);
    FramedGoes(s, e, past, source);
    PresentGoes(s, e, past, source);
    FlightGoes(s, e, past, source);
  }

  lemma FramedGoes(s: State, e: Event, past: Past, source: Source)
    requires RouterInv(s) && Enabled(s, e) && LaneInv(s, past, source)
    requires TransportInv(Look(s, source).transport) && Goes(s, e, source, Look(s, source), Look(Move(s, e), source))
    ensures HoldsFramed(TransportOf(Move(s, e).framing, source), LaneOf(NextPast(s, e, past), source).framed)
  {
    hide Move, AcceptedBy, FramedBy, HoldsFramed, Subsequence, PayloadsOf, IngestReport, ItemIsCurrent, QueueInv, Count, TransportInv, NextPast, FlightInv, Present;
    LaneGoesOn(s, e, past, source);
    var lane := LaneOf(past, source);
    var done := FramedBy(s, e, source);
    AtMostOneFramed(s, e, source);
    if done == [] {
      assert lane.framed + [] == lane.framed;
    } else {
      assert done == [done[0]];
      FramingFollows(TransportOf(s.framing, source), lane.framed, done[0], GenerationFor(s.route, source));
    }
  }

  lemma AtMostOneFramed(s: State, e: Event, source: Source)
    requires Enabled(s, e)
    ensures |FramedBy(s, e, source)| <= 1
  {
  }

  lemma FlightGoes(s: State, e: Event, past: Past, source: Source)
    requires RouterInv(s) && Enabled(s, e) && LaneInv(s, past, source)
    requires TransportInv(Look(s, source).transport) && Goes(s, e, source, Look(s, source), Look(Move(s, e), source))
    ensures FlightInv(Move(s, e), NextPast(s, e, past), source)
  {
    hide Move, AcceptedBy, FramedBy, HoldsFramed, Subsequence, PayloadsOf, IngestReport, ItemIsCurrent, Count, FramingInv, FramingCurrent, NextPast, Present;
    LaneGoesOn(s, e, past, source);
    FlightEpochIs(s, e, past);
    FlightMoves(s, e);
  }

  lemma PresentGoes(s: State, e: Event, past: Past, source: Source)
    requires RouterInv(s) && Enabled(s, e) && PastInv(s, past) && Timely(s, e, past)
    requires TransportInv(Look(s, source).transport) && Goes(s, e, source, Look(s, source), Look(Move(s, e), source))
    ensures var t, next := Move(s, e), NextPast(s, e, past);
      match source
      case Usb => Present(t, next, source) == LaneOf(next, source).arrived
      case Ble => Subsequence(Present(t, next, source), LaneOf(next, source).arrived)
  {
    hide RouterInv, Move, HoldsFramed, Subsequence, Present, Goes, NextPast, Timely, Look;
    if e.TakeItem? {
      TakenPresent(s, past, source);
    } else if e.ProcessItem? {
      ProcessedPresent(s, e, past, source);
    } else {
      AcceptedPresent(s, e, past, source);
    }
  }

  lemma TakenParts(s: State, past: Past, source: Source)
    requires RouterInv(s) && s.inFlight.None? && LaneInv(s, past, source)
    requires TransportInv(Look(s, source).transport) && Goes(s, TakeItem, source, Look(s, source), Look(Move(s, TakeItem), source))
    ensures var t, next, queue := Move(s, TakeItem), NextPast(s, TakeItem, past), QueueOf(s, source);
      if TakenFrom(s, TakeItem, source) then
        queue != [] && InFlightOf(t, next, source) == [queue[0].payload] && QueueOf(t, source) == queue[1..]
      else InFlightOf(t, next, source) == [] && PayloadsOf(QueueOf(t, source)) == PayloadsOf(queue)
  {
    hide HoldsFramed, Subsequence, FlightInv, RouterInv, Move, NextPast, Reported, TransportInv, PayloadsOf, Present;
    HeadSources(s);
    LaneGoesOn(s, TakeItem, past, source);
    FlightEpochIs(s, TakeItem, past);
    FlightMoves(s, TakeItem);
    assert PayloadsOf(QueueOf(s, source)) + [] == PayloadsOf(QueueOf(s, source));
  }

  lemma TakenPresent(s: State, past: Past, source: Source)
    requires RouterInv(s) && s.inFlight.None? && LaneInv(s, past, source)
    requires TransportInv(Look(s, source).transport) && Goes(s, TakeItem, source, Look(s, source), Look(Move(s, TakeItem), source))
    ensures var next := NextPast(s, TakeItem, past);
      Present(Move(s, TakeItem), next, source) == Present(s, past, source)
      && LaneOf(next, source).arrived == LaneOf(past, source).arrived
  {
    hide LaneInv, RouterInv, Move, NextPast, Goes, TransportInv, Look, TakenFrom, PayloadsOf, InFlightOf;
    LaneGoesOn(s, TakeItem, past, source);
    TakenParts(s, past, source);
    var lane, queue := LaneOf(past, source), QueueOf(s, source);
    NothingMore(lane.arrived);
    NothingMore(lane.framed);
    assert InFlightOf(s, past, source) == [] by { NoneInFlight(s, past, source); }
    if TakenFrom(s, TakeItem, source) {
      HeadMoves(lane.framed, queue);
    }
  }

  lemma NothingMore(a: seq<Payload>)
    ensures a + [] == a
  {
  }

  lemma NoneInFlight(s: State, past: Past, source: Source)
    requires s.inFlight.None?
    ensures InFlightOf(s, past, source) == []
  {
  }

  lemma HeadMoves(a: seq<Payload>, queue: seq<Item>)
    requires queue != []
    ensures a + [] + PayloadsOf(queue) == a + [queue[0].payload] + PayloadsOf(queue[1..])
  {
    assert PayloadsOf(queue) == [queue[0].payload] + PayloadsOf(queue[1..]);
  }

  /** The queue of the next state, and the item in flight, in an event that does not take one. */
  lemma PartsGo(s: State, e: Event, past: Past, source: Source)
    requires RouterInv(s) && Enabled(s, e) && !e.TakeItem?
    requires TransportInv(Look(s, source).transport) && Goes(s, e, source, Look(s, source), Look(Move(s, e), source))
    ensures var t, next := Move(s, e), NextPast(s, e, past);
      PayloadsOf(QueueOf(t, source)) == PayloadsOf(QueueOf(s, source)) + AcceptedBy(s, e, source)
      && InFlightOf(t, next, source) == if e.ProcessItem? then [] else InFlightOf(s, past, source)
  {
    hide RouterInv, Move, AcceptedBy, FramedBy, NextPast, Reported, PayloadsOf, TransportInv;
    LaneGoesOn(s, e, past, source);
    FlightEpochIs(s, e, past);
    FlightMoves(s, e);
  }

  lemma AcceptedPresent(s: State, e: Event, past: Past, source: Source)
    requires RouterInv(s) && Enabled(s, e) && LaneInv(s, past, source) && !e.TakeItem? && !e.ProcessItem?
    requires TransportInv(Look(s, source).transport) && Goes(s, e, source, Look(s, source), Look(Move(s, e), source))
    ensures var t, next := Move(s, e), NextPast(s, e, past);
      match source
      case Usb => Present(t, next, source) == LaneOf(next, source).arrived
      case Ble => Subsequence(Present(t, next, source), LaneOf(next, source).arrived)
  {
    hide RouterInv, Move, AcceptedBy, HoldsFramed, Subsequence, PayloadsOf, FlightInv, NextPast, Goes, InFlightOf, Enabled, TransportInv, Look;
    LaneGoesOn(s, e, past, source);
    PartsGo(s, e, past, source);
    var t, next, lane := Move(s, e), NextPast(s, e, past), LaneOf(past, source);
    var present, more := Present(s, past, source), AcceptedBy(s, e, source);
    assert lane.framed + [] == lane.framed;
    assert Present(t, next, source) == present + more;
    AtMostOneAccepted(s, e, source);
    if more == [] {
      assert present + [] == present && lane.arrived + [] == lane.arrived;
    } else {
      assert more == [more[0]];
      if source == Ble {
        SubsequenceGrows(present, lane.arrived, more[0]);
      }
    }
  }

  lemma AtMostOneAccepted(s: State, e: Event, source: Source)
    ensures |AcceptedBy(s, e, source)| <= 1
  {
  }

  lemma ProcessedPresent(s: State, e: Event, past: Past, source: Source)
    requires RouterInv(s) && Enabled(s, e) && PastInv(s, past) && Timely(s, e, past) && e.ProcessItem?
    requires TransportInv(Look(s, source).transport) && Goes(s, e, source, Look(s, source), Look(Move(s, e), source))
    ensures var t, next := Move(s, e), NextPast(s, e, past);
      match source
      case Usb => Present(t, next, source) == LaneOf(next, source).arrived
      case Ble => Subsequence(Present(t, next, source), LaneOf(next, source).arrived)
  {
    hide RouterInv, Move, HoldsFramed, Subsequence, PayloadsOf, ItemIsCurrent, FlightInv, NextPast, Goes, TransportInv, Look;
    CurrentInItsEpoch(s, past);
    LaneGoesOn(s, e, past, source);
    PartsGo(s, e, past, source);
    var t, next, lane := Move(s, e), NextPast(s, e, past), LaneOf(past, source);
    var queue, item := PayloadsOf(QueueOf(s, source)), s.inFlight.value;
    var gone := FramedBy(s, e, source);
    assert queue + [] == queue && lane.arrived + [] == lane.arrived;
    assert Present(t, next, source) == lane.framed + gone + queue;
    if gone != InFlightOf(s, past, source) {
      assert gone == [] && source == Ble && InFlightOf(s, past, source) == [item.payload];
      assert lane.framed + [] == lane.framed;
      SubsequenceLoses(lane.framed, item.payload, queue, lane.arrived);
    }
  }

  lemma StepKeepsPast(s: State, e: Event, past: Past)
    requires RouterInv(s) && Enabled(s, e) && PastInv(s, past) && Timely(s, e, past)
    ensures PastInv(Move(s, e), NextPast(s, e, past))
  {
    hide RouterInv, Move, LaneInv, Goes, Restarted;
    FlightMoves(s, e);
    StepKeepsLane(s, e, past, Usb);
    StepKeepsLane(s, e, past, Ble);
  }

  lemma StepKeepsLane(s: State, e: Event, past: Past, source: Source)
    requires RouterInv(s) && Enabled(s, e) && PastInv(s, past) && Timely(s, e, past)
    ensures LaneInv(Move(s, e), NextPast(s, e, past), source)
  {
    hide RouterInv, Move, LaneInv, Goes, Restarted;
    FlightMoves(s, e);
    StepLook(s, e, source);
    if Restarted(Look(s, source), Look(Move(s, e), source)) {
      RestartedLane(s, e, past, source);
    } else {
      GoingLane(s, e, past, source);
    }
  }

  // ---------------------------------------------------------------- runs

  function PastAfter(s: State, events: seq<Event>, past: Past): Past
    requires RouterInv(s) && Possible(s, events)
    decreases |events|
  {
    if events == [] then past else PastAfter(Move(s, events[0]), events[1..], NextPast(s, events[0], past))
  }

  predicate TimelyRun(s: State, events: seq<Event>, past: Past)
    requires RouterInv(s) && Possible(s, events)
    decreases |events|
  {
    events == [] ||
    (Timely(s, events[0], past) && TimelyRun(Move(s, events[0]), events[1..], NextPast(s, events[0], past)))
  }

  lemma {:induction false} RunKeepsPast(s: State, events: seq<Event>, past: Past)
    requires RouterInv(s) && Possible(s, events) && TimelyRun(s, events, past) && PastInv(s, past)
    ensures PastInv(After(s, events), PastAfter(s, events, past))
    decreases |events|
  {
    hide RouterInv, Move, PastInv, NextPast;
    if events != [] {
      StepKeepsPast(s, events[0], past);
      RunKeepsPast(Move(s, events[0]), events[1..], NextPast(s, events[0], past));
    }
  }

  /** Fewer than 2^32 invalidations between taking and processing, at every item of the run. */
  predicate IsTimelyRun(events: seq<Event>) {
    ResetInv();
    IsRun(events) && TimelyRun(RESET, events, NO_PAST)
  }

  function PastOf(events: seq<Event>): Past
    requires IsRun(events)
  {
    ResetInv();
    PastAfter(RESET, events, NO_PAST)
  }

  /**
   * At the end of every run the framing state of each transport is that of the reports framed since its
   * last invalidation; over USB these, the item in flight and the queue are the reports accepted since.
   */
  lemma EveryRunRemembers(events: seq<Event>)
    requires IsTimelyRun(events)
    ensures PastInv(End(events), PastOf(events))
  {
    hide RouterInv, Move, LaneInv, Possible, After, PastAfter, TimelyRun;
    ResetInv();
    ResetPast();
    RunKeepsPast(RESET, events, NO_PAST);
  }

  /**
   * Epoch safety. Whatever the run, the text that an item completes is the next one that its channel
   * delivers from the reports framed since the last invalidation of its transport, and these were all
   * accepted since then, in this order; over USB they are exactly the first ones accepted.
   */
  lemma EpochSafety(events: seq<Event>, view: BleView, reply: Reply, link: Link)
    requires IsTimelyRun(events) && End(events).inFlight.Some?
    requires Timely(End(events), ProcessItem(view, reply, link), PastOf(events))
    ensures var s, item := End(events), End(events).inFlight.value;
      var delivered := Process(s, view, reply, link).delivered;
      var lane := LaneOf(PastOf(events), item.source);
      var framed := lane.framed + [item.payload];
      delivered.Some? ==>
        Delivered(framed, delivered.value.0) == Delivered(lane.framed, delivered.value.0) + [delivered.value.1]
        && Subsequence(framed, lane.arrived)
        && (item.source == Usb ==> framed <= lane.arrived)
  {
    hide RouterInv, LaneInv, PastOf, End, TimelyRun;
    EveryRunRemembers(events);
    DeliveryIsFresh(End(events), PastOf(events), view, reply, link);
  }

  lemma DeliveryIsFresh(s: State, past: Past, view: BleView, reply: Reply, link: Link)
    requires RouterInv(s) && PastInv(s, past) && s.inFlight.Some? && Timely(s, ProcessItem(view, reply, link), past)
    ensures var item := s.inFlight.value;
      var delivered := Process(s, view, reply, link).delivered;
      var lane := LaneOf(past, item.source);
      var framed := lane.framed + [item.payload];
      delivered.Some? ==>
        Delivered(framed, delivered.value.0) == Delivered(lane.framed, delivered.value.0) + [delivered.value.1]
        && Subsequence(framed, lane.arrived)
        && (item.source == Usb ==> framed <= lane.arrived)
  {
    hide Subsequence, HoldsFramed, IngestReport, Delivered, ItemIsCurrent, Callback, PayloadsOf, Count, QueueInv;
    var item := s.inFlight.value;
    var lane := LaneOf(past, item.source);
    CurrentInItsEpoch(s, past);
    if ItemIsCurrent(s, item) {
      CurrentGeneration(s, item);
      FramingFollows(TransportOf(s.framing, item.source), lane.framed, item.payload, item.generation);
      var framed, queue := lane.framed + [item.payload], PayloadsOf(QueueOf(s, item.source));
      assert Present(s, past, item.source) == framed + queue;
      if item.source == Usb {
        PrefixIsSubsequence(framed, queue);
      } else {
        SubsequencePart(framed, queue, lane.arrived);
      }
    }
  }

  lemma PrefixIsSubsequence(a: seq<Payload>, c: seq<Payload>)
    ensures Subsequence(a, a + c)
  {
    assert Embeds(seq(|a|, i requires 0 <= i < |a| => i), a, a + c);
  }
}
