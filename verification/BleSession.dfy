/** What goes out over Bluetooth, and exactly when a connection carries whole texts and at most one torn one. */
module BleSession {
  import opened Bytes
  import opened Encoding
  import opened FramingSpec
  import opened RouterSpec
  import opened RouterRuns
  import opened Sessions
  import opened UsbSession

  // ---------------------------------------------------------------- sessions and their past

  /** A session: the generations counted without wrap-around, and the profile. */
  datatype Key = Key(epoch: nat, profile: byte)

  /** A transmission of at least one report. */
  datatype BleEntry = BleEntry(key: Key, out: Transmission, whole: bool)

  /**
   * What a run did over Bluetooth: the count of generations; for each pin that waits the count it was
   * captured at; the sessions with a torn text that nothing will cut any more; all transmissions.
   */
  datatype BlePast = BlePast(epoch: nat, pinEpochs: seq<nat>, lost: seq<Key>, log: seq<BleEntry>)

  const NO_BLE_PAST: BlePast := BlePast(0, [], [], [])

  function Here(s: State, past: BlePast): Key {
    Key(past.epoch, s.route.bleProfile)
  }

  function EntryOf(s: State, e: Event, past: BlePast): Option<BleEntry>
    requires RouterInv(s) && Enabled(s, e)
  {
    match OutOf(s, e)
    case Some(out) =>
      if out.source == Ble && out.sent != [] then Some(BleEntry(Here(s, past), out, StatusOf(s, e) == Ok)) else None
    case None => None
  }

  function KeyOfPin(s: State, past: BlePast, i: nat): Key
    requires i < |s.pins| == |past.pinEpochs|
  {
    Key(past.pinEpochs[i], s.pins[i].token.profile)
  }

  /**
   * The sessions that a step gives up on: an abort that does not cut the connection, and a text that was
   * torn because another connection was the active one, for which no abort is asked.
   */
  function GivenUp(s: State, e: Event, past: BlePast): seq<Key>
    requires RouterInv(s) && Enabled(s, e) && |past.pinEpochs| == |s.pins|
  {
    var t := Move(s, e);
    if t.hidsGeneration != s.hidsGeneration then []
    else if e.FinalizePin? then if s.pins[e.i].abortBle then [KeyOfPin(s, past, e.i)] else []
    else
      match EntryOf(s, e, past)
      case None => []
      case Some(entry) => if !entry.whole && t.pins != [] && !t.pins[|t.pins| - 1].abortBle then [entry.key] else []
  }

  function NextPins(s: State, e: Event, past: BlePast): seq<nat>
    requires RouterInv(s) && Enabled(s, e) && |past.pinEpochs| == |s.pins|
  {
    if e.FinalizePin? then past.pinEpochs[..e.i] + past.pinEpochs[e.i + 1..]
    else if |Move(s, e).pins| > |s.pins| then past.pinEpochs + [past.epoch]
    else past.pinEpochs
  }

  function NextBle(s: State, e: Event, past: BlePast): BlePast
    requires RouterInv(s) && Enabled(s, e) && |past.pinEpochs| == |s.pins|
  {
    BlePast(if Move(s, e).hidsGeneration != s.hidsGeneration then past.epoch + 1 else past.epoch,
            NextPins(s, e, past),
            past.lost + GivenUp(s, e, past),
            past.log + match EntryOf(s, e, past) case None => [] case Some(entry) => [entry])
  }

  // ---------------------------------------------------------------- what a step does to the pins

  /** What a sending step leaves: at most one pin more, which asks for an abort only for a text it has torn. */
  predicate Leaves(s: State, out: Option<Transmission>, status: Status, t: State) {
    if t.pins == s.pins then out.None? && t.hidsGeneration == s.hidsGeneration
    else
      |t.pins| == |s.pins| + 1 && t.pins[..|s.pins|] == s.pins
      && var pin := t.pins[|s.pins|];
         (pin.abortBle ==>
            out.Some? && out.value.source == Ble && out.value.sent != [] && status != Ok
            && pin.token.profile == s.route.bleProfile && t.hidsGeneration == s.hidsGeneration)
         && (t.hidsGeneration != s.hidsGeneration ==> out.Some? && out.value.source == Ble && status != Ok)
  }

  lemma RouteKeepsPins(s: State)
    ensures forall source, t :: Invalidate(t, source).pins == t.pins && Invalidate(t, source).hidsGeneration == t.hidsGeneration
    ensures forall t, u, b :: UpdateRoute(t, u, b).0.pins == t.pins && UpdateRoute(t, u, b).0.hidsGeneration == t.hidsGeneration
  {
  }

  lemma SendPinnedPin(s: State, pin: Pin, channel: ChannelId, json: Text, view: BleView, link: Link)
    requires pin.emitted == 0 && !pin.abortBle
    ensures var e := SendPinned(s, pin, channel, json, view, link);
      e.state.pins == s.pins
      && (e.pin.abortBle ==>
            e.out.Some? && e.out.value.source == Ble && e.out.value.sent != [] && e.status != Ok
            && e.pin.token.profile == s.route.bleProfile && e.state.hidsGeneration == s.hidsGeneration)
      && (e.state.hidsGeneration != s.hidsGeneration ==> e.out.Some? && e.out.value.source == Ble && e.status != Ok)
  {
    hide Encodable, Reports, UpdateRoute, Invalidate, Cut;
    RouteKeepsPins(s);
  }

  lemma SendLeaves(s: State, channel: ChannelId, json: Text, view: BleView, link: Link)
    requires RouterInv(s)
    ensures var r := SendJson(s, channel, json, view, link); Leaves(s, r.out, r.status, r.state)
  {
    hide RouterInv, InvWith, SendPinned, Capture, PinIsCurrent;
    CaptureKeeps(s, view);
    var (captured, pin) := Capture(s, view);
    if pin.Some? {
      SendPinnedPin(captured, pin.value, channel, json, view, link);
    }
  }

  lemma CallbackLeaves(s: State, source: Source, channel: ChannelId, view: BleView, reply: Reply, link: Link)
    requires RouterInv(s)
    ensures var r := Callback(s, source, channel, view, reply, link); Leaves(s, r.out, r.status, r.state)
  {
    hide RouterInv, InvWith, SendPinned, Capture, PinIsCurrent;
    CaptureKeeps(s, view);
    var (captured, pin) := Capture(s, view);
    if pin.Some? && reply.response.Some? {
      SendPinnedPin(captured, pin.value, Rpc, reply.response.value, view, link);
    }
  }

  lemma ProcessLeaves(s: State, view: BleView, reply: Reply, link: Link)
    requires RouterInv(s) && s.inFlight.Some?
    ensures FramingInv(s.framing)
    ensures var r := Process(s, view, reply, link); Leaves(s, r.out, r.status, r.state)
  {
    hide RouterInv, Callback, ItemIsCurrent, IngestReport;
    TransportsFramed(s);
    InFlightAside(s);
    var item := s.inFlight.value;
    if ItemIsCurrent(s, item) {
      FramedKeeps(s);
      var r := IngestReport(TransportOf(s.framing, item.source), item.payload, item.generation);
      if r.delivered.Some? {
        var framed := s.(inFlight := None, framing := WithTransport(s.framing, item.source, r.transport));
        CallbackLeaves(framed, item.source, r.delivered.value.0, view, reply, link);
        DeliveryIsOk(TransportOf(s.framing, item.source), item.payload, item.generation);
      }
    }
  }

  /** Only sending and finalizing touch the pins, and only sending puts anything out. */
  lemma PinsMove(s: State, e: Event)
    requires RouterInv(s) && Enabled(s, e)
    ensures var t := Move(s, e);
      if e.FinalizePin? then
        t.pins == s.pins[..e.i] + s.pins[e.i + 1..] && OutOf(s, e).None?
        && (t.hidsGeneration != s.hidsGeneration ==> s.pins[e.i].abortBle)
      else if e.Send? || e.ProcessItem? then Leaves(s, OutOf(s, e), StatusOf(s, e), t)
      else t.pins == s.pins && OutOf(s, e).None?
  {
    hide RouterInv, Process, SendJson, UpdateRoute, Invalidate, TokenIsCurrent, Leaves;
    TransportsFramed(s);
    RouteKeepsPins(s);
    match e
    case ProcessItem(view, reply, link) => ProcessLeaves(s, view, reply, link);
    case Send(channel, json, view, link) => SendLeaves(s, channel, json, view, link);
    case _ =>
  }

  // ---------------------------------------------------------------- the invariant

  /** A torn text of this session waits to be cut off, or never will be. */
  ghost predicate Outstanding(s: State, past: BlePast, key: Key)
    requires |past.pinEpochs| == |s.pins|
  {
    key in past.lost || exists i: nat :: i < |s.pins| && s.pins[i].abortBle && KeyOfPin(s, past, i) == key
  }

  ghost predicate HasTorn(log: seq<BleEntry>, key: Key) {
    exists j :: 0 <= j < |log| && !log[j].whole && log[j].key == key
  }

  predicate IsEntry(entry: BleEntry, epoch: nat) {
    entry.key.epoch <= epoch && entry.out.sent != []
    && IsTransmission(entry.out, if entry.whole then Ok else SendFailed)
  }

  /** In the present generation the sessions with a torn text are exactly those that are outstanding. */
  ghost predicate BleInv(s: State, past: BlePast) {
    |past.pinEpochs| == |s.pins|
    && (forall j :: 0 <= j < |past.log| ==> IsEntry(past.log[j], past.epoch))
    && (forall key :: HasTorn(past.log, key) && key.epoch == past.epoch ==> Outstanding(s, past, key))
    && (forall key :: Outstanding(s, past, key) ==> HasTorn(past.log, key))
  }

  lemma TornGrows(log: seq<BleEntry>, entry: BleEntry, key: Key)
    ensures HasTorn(log + [entry], key) <==> HasTorn(log, key) || (!entry.whole && entry.key == key)
  {
    var g := log + [entry];
    assert g[|log|] == entry && forall j :: 0 <= j < |log| ==> g[j] == log[j];
    if HasTorn(log, key) {
      var j :| 0 <= j < |log| && !log[j].whole && log[j].key == key;
      assert g[j] == log[j];
    }
  }

  lemma StartBle()
    ensures BleInv(RESET, NO_BLE_PAST)
  {
  }

  lemma OnePinWas(s: State, past: BlePast, i: nat, t: State, next: BlePast, key: Key)
    requires |past.pinEpochs| == |s.pins| && i < |s.pins|
    requires t.pins == s.pins[..i] + s.pins[i + 1..] && next.pinEpochs == past.pinEpochs[..i] + past.pinEpochs[i + 1..]
    ensures Outstanding(t, next, key) ==> Outstanding(s, past, key) || key in next.lost
  {
    if Outstanding(t, next, key) && key !in next.lost {
      var j: nat :| j < |t.pins| && t.pins[j].abortBle && KeyOfPin(t, next, j) == key;
      var k := if j < i then j else j + 1;
      assert s.pins[k].abortBle && KeyOfPin(s, past, k) == key;
    }
  }

  /** With one pin less a session is outstanding as before, but perhaps for this pin. */
  lemma OnePinLess(s: State, past: BlePast, i: nat, t: State, next: BlePast, given: seq<Key>, key: Key)
    requires |past.pinEpochs| == |s.pins| && i < |s.pins|
    requires t.pins == s.pins[..i] + s.pins[i + 1..] && next.pinEpochs == past.pinEpochs[..i] + past.pinEpochs[i + 1..]
    requires next.lost == past.lost + given
    ensures Outstanding(t, next, key) ==> Outstanding(s, past, key) || key in given
    ensures Outstanding(s, past, key) ==> Outstanding(t, next, key) || (s.pins[i].abortBle && KeyOfPin(s, past, i) == key)
  {
    OnePinWas(s, past, i, t, next, key);
    if Outstanding(s, past, key) && key !in past.lost {
      var k: nat :| k < |s.pins| && s.pins[k].abortBle && KeyOfPin(s, past, k) == key;
      if k != i {
        var j := if k < i then k else k - 1;
        assert t.pins[j].abortBle && KeyOfPin(t, next, j) == key;
      }
    }
  }

  lemma GivenIsOutstanding(s: State, past: BlePast, t: State, next: BlePast, given: seq<Key>, key: Key)
    requires |next.pinEpochs| == |t.pins| && next.lost == past.lost + given && key in given
    ensures Outstanding(t, next, key)
  {
  }

  lemma PinIsOutstanding(s: State, past: BlePast, i: nat)
    requires |past.pinEpochs| == |s.pins| && i < |s.pins| && s.pins[i].abortBle
    ensures Outstanding(s, past, KeyOfPin(s, past, i))
  {
  }

  /** Finalizing: a pin that asks for an abort ends its generation, or its session is given up. */
  lemma FinalizeKeepsBle(s: State, e: Event, past: BlePast)
    requires RouterInv(s) && Enabled(s, e) && BleInv(s, past) && e.FinalizePin?
    ensures BleInv(Move(s, e), NextBle(s, e, past))
  {
    hide RouterInv, Move, OutOf, StatusOf, IsTransmission, HasTorn, Outstanding;
    PinsMove(s, e);
    var t, next, i, given := Move(s, e), NextBle(s, e, past), e.i, GivenUp(s, e, past);
    assert next.log == past.log;
    if s.pins[i].abortBle {
      PinIsOutstanding(s, past, i);
    }
    forall key ensures Outstanding(t, next, key) ==> HasTorn(next.log, key) {
      OnePinLess(s, past, i, t, next, given, key);
    }
    forall key | HasTorn(next.log, key) && key.epoch == next.epoch ensures Outstanding(t, next, key) {
      TornIsPast(past, key);
      OnePinLess(s, past, i, t, next, given, key);
      if s.pins[i].abortBle && KeyOfPin(s, past, i) == key {
        GivenIsOutstanding(s, past, t, next, given, key);
      }
    }
  }

  lemma TornIsPast(past: BlePast, key: Key)
    requires forall j :: 0 <= j < |past.log| ==> IsEntry(past.log[j], past.epoch)
    requires HasTorn(past.log, key)
    ensures key.epoch <= past.epoch
  {
  }

  /** An event that neither sends nor finalizes leaves everything as it was, but perhaps the generation. */
  lemma OtherKeepsBle(s: State, e: Event, past: BlePast)
    requires RouterInv(s) && Enabled(s, e) && BleInv(s, past) && !e.FinalizePin? && Move(s, e).pins == s.pins
    ensures BleInv(Move(s, e), NextBle(s, e, past))
  {
    hide RouterInv, Move, OutOf, StatusOf, IsTransmission, HasTorn;
    PinsMove(s, e);
    var t, next := Move(s, e), NextBle(s, e, past);
    assert next.log == past.log && next.lost == past.lost && next.pinEpochs == past.pinEpochs;
    forall key ensures Outstanding(t, next, key) <==> Outstanding(s, past, key) {
      SamePins(s, past, t, next, key);
    }
    forall key | HasTorn(next.log, key) && key.epoch == next.epoch ensures Outstanding(t, next, key) {
      TornIsPast(past, key);
    }
  }

  lemma SamePins(s: State, past: BlePast, t: State, next: BlePast, key: Key)
    requires t.pins == s.pins && next.pinEpochs == past.pinEpochs && next.lost == past.lost && |past.pinEpochs| == |s.pins|
    ensures Outstanding(t, next, key) <==> Outstanding(s, past, key)
  {
    if Outstanding(s, past, key) && key !in past.lost {
      var i: nat :| i < |s.pins| && s.pins[i].abortBle && KeyOfPin(s, past, i) == key;
      assert t.pins[i].abortBle && KeyOfPin(t, next, i) == key;
    }
    if Outstanding(t, next, key) && key !in next.lost {
      var i: nat :| i < |t.pins| && t.pins[i].abortBle && KeyOfPin(t, next, i) == key;
      assert s.pins[i].abortBle && KeyOfPin(s, past, i) == key;
    }
  }

  /** With one pin more a session is outstanding if it was, or was given up, or this pin will cut it off. */
  lemma OnePinMore(s: State, past: BlePast, t: State, next: BlePast, given: seq<Key>, key: Key)
    requires |past.pinEpochs| == |s.pins| && |t.pins| == |s.pins| + 1 && t.pins[..|s.pins|] == s.pins
    requires next.pinEpochs == past.pinEpochs + [past.epoch] && next.lost == past.lost + given
    ensures Outstanding(t, next, key) <==>
      Outstanding(s, past, key) || key in given
      || (t.pins[|s.pins|].abortBle && key == Key(past.epoch, t.pins[|s.pins|].token.profile))
  {
    var n := |s.pins|;
    forall i: nat | i < n ensures t.pins[i] == s.pins[i] && KeyOfPin(t, next, i) == KeyOfPin(s, past, i) {
      assert t.pins[..n][i] == t.pins[i];
    }
    assert KeyOfPin(t, next, n) == Key(past.epoch, t.pins[n].token.profile);
    if Outstanding(s, past, key) && key !in past.lost {
      var i: nat :| i < n && s.pins[i].abortBle && KeyOfPin(s, past, i) == key;
      assert t.pins[i].abortBle && KeyOfPin(t, next, i) == key;
    }
    if Outstanding(t, next, key) && key !in next.lost {
      var i: nat :| i < |t.pins| && t.pins[i].abortBle && KeyOfPin(t, next, i) == key;
      if i < n {
        assert s.pins[i].abortBle && KeyOfPin(s, past, i) == key;
      }
    }
  }

  /** Sending: a torn text is given up, or its pin will cut it off, or its generation is over. */
  lemma SendKeepsBle(s: State, e: Event, past: BlePast)
    requires RouterInv(s) && Enabled(s, e) && BleInv(s, past) && (e.Send? || e.ProcessItem?) && Move(s, e).pins != s.pins
    ensures BleInv(Move(s, e), NextBle(s, e, past))
  {
    hide RouterInv, Move, OutOf, StatusOf, IsTransmission, HasTorn, Outstanding;
    PinsMove(s, e);
    OutBehaves(s, e);
    var t, next := Move(s, e), NextBle(s, e, past);
    var entry, given := EntryOf(s, e, past), GivenUp(s, e, past);
    forall key ensures HasTorn(next.log, key) <==> HasTorn(past.log, key) || (entry.Some? && !entry.value.whole && entry.value.key == key) {
      if entry.Some? {
        TornGrows(past.log, entry.value, key);
      } else {
        assert past.log + [] == past.log;
      }
    }
    EntriesGrow(s, e, past);
    assert t.pins[|t.pins| - 1] == t.pins[|s.pins|];
    forall key ensures Outstanding(t, next, key) ==> HasTorn(next.log, key) {
      OnePinMore(s, past, t, next, given, key);
    }
    forall key | HasTorn(next.log, key) && key.epoch == next.epoch ensures Outstanding(t, next, key) {
      OnePinMore(s, past, t, next, given, key);
      if HasTorn(past.log, key) {
        TornIsPast(past, key);
      }
    }
  }

  lemma EntriesGrow(s: State, e: Event, past: BlePast)
    requires RouterInv(s) && Enabled(s, e) && BleInv(s, past) && (e.Send? || e.ProcessItem?)
    ensures forall j :: 0 <= j < |NextBle(s, e, past).log| ==> IsEntry(NextBle(s, e, past).log[j], NextBle(s, e, past).epoch)
  {
    hide RouterInv, Move, OutOf, StatusOf, HasTorn, Outstanding, Encodable, Reports;
    OutBehaves(s, e);
  }

  lemma StepKeepsBle(s: State, e: Event, past: BlePast)
    requires RouterInv(s) && Enabled(s, e) && BleInv(s, past)
    ensures BleInv(Move(s, e), NextBle(s, e, past))
  {
    hide RouterInv, Move, BleInv, NextBle, Leaves;
    PinsMove(s, e);
    assert |past.pinEpochs| == |s.pins| by { BleInvMeans(s, past); }
    if e.FinalizePin? {
      FinalizeKeepsBle(s, e, past);
    } else if Move(s, e).pins == s.pins {
      OtherKeepsBle(s, e, past);
    } else {
      SendKeepsBle(s, e, past);
    }
  }

  lemma BleInvMeans(s: State, past: BlePast)
    requires BleInv(s, past)
    ensures |past.pinEpochs| == |s.pins|
    ensures forall j :: 0 <= j < |past.log| ==> IsEntry(past.log[j], past.epoch)
    ensures forall key: Key :: key.epoch == past.epoch ==> (HasTorn(past.log, key) <==> Outstanding(s, past, key))
  {
  }

  // ---------------------------------------------------------------- exactly when a session is whole

  /** All transmissions of the session but the last are whole. */
  ghost predicate AllButLastWhole(log: seq<BleEntry>, key: Key) {
    forall i, j :: 0 <= i < j < |log| && log[i].key == key && log[j].key == key ==> log[i].whole
  }

  /** A text starts in a session in which a torn one is outstanding. */
  ghost predicate Collides(s: State, e: Event, past: BlePast, key: Key)
    requires RouterInv(s) && Enabled(s, e) && |past.pinEpochs| == |s.pins|
  {
    EntryOf(s, e, past).Some? && Here(s, past) == key && Outstanding(s, past, key)
  }

  lemma OneEntryMore(log: seq<BleEntry>, entry: BleEntry, key: Key)
    ensures AllButLastWhole(log + [entry], key) <==> AllButLastWhole(log, key) && !(entry.key == key && HasTorn(log, key))
  {
    var g, n := log + [entry], |log|;
    assert g[n] == entry && forall i :: 0 <= i < n ==> g[i] == log[i];
    if AllButLastWhole(g, key) {
      forall i, j | 0 <= i < j < n && log[i].key == key && log[j].key == key ensures log[i].whole {
        assert g[i].key == key && g[j].key == key;
      }
      assert entry.key == key ==> forall i :: 0 <= i < n && g[i].key == key ==> g[i].whole;
    }
    if AllButLastWhole(log, key) && !(entry.key == key && HasTorn(log, key)) {
      forall i, j | 0 <= i < j <= n && g[i].key == key && g[j].key == key ensures g[i].whole {
        assert log[i] == g[i];
      }
    }
  }

  lemma StepDecides(s: State, e: Event, past: BlePast, key: Key)
    requires RouterInv(s) && Enabled(s, e) && BleInv(s, past)
    ensures |past.pinEpochs| == |s.pins|
    ensures AllButLastWhole(NextBle(s, e, past).log, key) <==> AllButLastWhole(past.log, key) && !Collides(s, e, past, key)
  {
    hide RouterInv, Move, BleInv, OutOf, StatusOf, Outstanding, AllButLastWhole, NextPins, GivenUp;
    BleInvMeans(s, past);
    match EntryOf(s, e, past)
    case Some(entry) =>
      OneEntryMore(past.log, entry, key);
    case None =>
      assert past.log + [] == past.log;
  }

  function BleAfter(s: State, events: seq<Event>, past: BlePast): BlePast
    requires RouterInv(s) && Possible(s, events) && BleInv(s, past)
    decreases |events|
  {
    hide RouterInv, Move, BleInv, NextBle;
    if events == [] then past
    else
      BleInvMeans(s, past);
      StepKeepsBle(s, events[0], past);
      BleAfter(Move(s, events[0]), events[1..], NextBle(s, events[0], past))
  }

  /** No text of the run starts in the session while a torn one of it is outstanding. */
  ghost predicate CollisionFree(s: State, events: seq<Event>, past: BlePast, key: Key)
    requires RouterInv(s) && Possible(s, events) && BleInv(s, past)
    decreases |events|
  {
    hide RouterInv, Move, BleInv, NextBle, Collides;
    if events == [] then true
    else
      BleInvMeans(s, past);
      StepKeepsBle(s, events[0], past);
      !Collides(s, events[0], past, key)
      && CollisionFree(Move(s, events[0]), events[1..], NextBle(s, events[0], past), key)
  }

  lemma {:induction false} RunDecides(s: State, events: seq<Event>, past: BlePast, key: Key)
    requires RouterInv(s) && Possible(s, events) && BleInv(s, past)
    ensures BleInv(After(s, events), BleAfter(s, events, past))
    ensures AllButLastWhole(BleAfter(s, events, past).log, key) <==>
      AllButLastWhole(past.log, key) && CollisionFree(s, events, past, key)
    decreases |events|
  {
    hide RouterInv, Move, BleInv, NextBle, Collides, AllButLastWhole;
    if events != [] {
      BleInvMeans(s, past);
      StepKeepsBle(s, events[0], past);
      StepDecides(s, events[0], past, key);
      RunDecides(Move(s, events[0]), events[1..], NextBle(s, events[0], past), key);
    }
  }

  function BleOf(events: seq<Event>): BlePast
    requires IsRun(events)
  {
    ResetInv();
    StartBle();
    BleAfter(RESET, events, NO_BLE_PAST)
  }

  ghost predicate NeverCollides(events: seq<Event>, key: Key)
    requires IsRun(events)
  {
    ResetInv();
    StartBle();
    CollisionFree(RESET, events, NO_BLE_PAST, key)
  }

  /**
   * In every run, for every Bluetooth session: its reports are whole texts and then at most one torn one
   * exactly if no text of it starts while a torn one of it is outstanding, that is, waits in a pin for
   * its abort, or was given up because the abort failed or none was asked.
   */
  lemma EveryBleSessionDecided(events: seq<Event>, key: Key)
    requires IsRun(events)
    ensures AllButLastWhole(BleOf(events).log, key) <==> NeverCollides(events, key)
  {
    hide RouterInv, BleInv, BleAfter, CollisionFree, After, Possible;
    ResetInv();
    StartBle();
    RunDecides(RESET, events, NO_BLE_PAST, key);
  }

  // ---------------------------------------------------------------- the reports of a session

  /** The reports of a session, one after the other. */
  function ReportsOf(log: seq<BleEntry>, key: Key): seq<Payload> {
    if log == [] then []
    else
      var n := |log| - 1;
      ReportsOf(log[..n], key) + if log[n].key == key then log[n].out.sent else []
  }

  /** The texts that were sent with success in a session. */
  function WholeOf(log: seq<BleEntry>, key: Key): seq<Sent> {
    if log == [] then []
    else
      var n := |log| - 1;
      WholeOf(log[..n], key) + if log[n].key == key && log[n].whole then [Sent(log[n].out.channel, log[n].out.text)] else []
  }

  predicate AreEntries(log: seq<BleEntry>, epoch: nat) {
    forall j :: 0 <= j < |log| ==> IsEntry(log[j], epoch)
  }

  /** The transmissions of a session as a session of reports. */
  function SessionIn(log: seq<BleEntry>, key: Key): Session {
    if log == [] then NEW_SESSION
    else
      var n := |log| - 1;
      var before := SessionIn(log[..n], key);
      if log[n].key == key then Extended(before, log[n].out, if log[n].whole then Ok else SendFailed) else before
  }

  lemma {:induction false} SessionInMeans(log: seq<BleEntry>, key: Key, epoch: nat)
    requires AreEntries(log, epoch) && AllButLastWhole(log, key)
    ensures var session := SessionIn(log, key);
      IsSession(session) && session.reports == ReportsOf(log, key) && session.whole == WholeOf(log, key)
      && (session.torn.Some? <==> HasTorn(log, key))
    decreases |log|
  {
    hide IsSession, IsTransmission, AllButLastWhole, HasTorn;
    if log == [] {
      NothingIsSession(key);
    } else {
      var n := |log| - 1;
      var before, last := log[..n], log[n];
      assert log == before + [last];
      OneEntryMore(before, last, key);
      TornGrows(before, last, key);
      SessionInMeans(before, key, epoch);
      if last.key == key {
        ExtendedIsSession(SessionIn(before, key), last.out, if last.whole then Ok else SendFailed);
      } else {
        assert ReportsOf(before, key) + [] == ReportsOf(before, key) && WholeOf(before, key) + [] == WholeOf(before, key);
      }
    }
  }

  lemma NothingIsSession(key: Key)
    ensures IsSession(NEW_SESSION) && !HasTorn([], key)
  {
  }

  /** The text of the last torn transmission comes from the log. */
  lemma {:induction false} SessionIsSafe(log: seq<BleEntry>, key: Key, epoch: nat)
    requires AreEntries(log, epoch) && AllButLastWhole(log, key)
    requires AllSafeTexts(log)
    ensures SafeSession(SessionIn(log, key))
    decreases |log|
  {
    hide IsTransmission, AllButLastWhole, Encodable, EncodeSafe, EncodeSafeText;
    if log != [] {
      var n := |log| - 1;
      var before, last := log[..n], log[n];
      assert log == before + [last];
      OneEntryMore(before, last, key);
      SessionIsSafe(before, key, epoch);
      SafeTextMeans(last.out.text);
    }
  }

  predicate EncodeSafeText(text: Text) {
    Encodable(text) && EncodeSafe(text)
  }

  predicate AllSafeTexts(log: seq<BleEntry>) {
    forall j :: 0 <= j < |log| ==> EncodeSafeText(log[j].out.text)
  }

  lemma SafeTextMeans(text: Text)
    requires EncodeSafeText(text)
    ensures Encodable(text) && EncodeSafe(text)
  {
  }

  lemma {:induction false} RunKeepsSafeTexts(s: State, events: seq<Event>, past: BlePast)
    requires RouterInv(s) && Possible(s, events) && BleInv(s, past) && FaithfulFrom(s, events)
    requires AllSafeTexts(past.log)
    ensures AllSafeTexts(BleAfter(s, events, past).log)
    decreases |events|
  {
    hide RouterInv, Move, BleInv, NextBle, Faithful, AllSafeTexts;
    if events != [] {
      BleInvMeans(s, past);
      StepKeepsBle(s, events[0], past);
      StepKeepsSafeTexts(s, events[0], past);
      RunKeepsSafeTexts(Move(s, events[0]), events[1..], NextBle(s, events[0], past));
    }
  }

  lemma StepKeepsSafeTexts(s: State, e: Event, past: BlePast)
    requires RouterInv(s) && Enabled(s, e) && |past.pinEpochs| == |s.pins| && Faithful(s, e) && AllSafeTexts(past.log)
    ensures AllSafeTexts(NextBle(s, e, past).log)
  {
    hide RouterInv, Move, OutOf, StatusOf, Faithful, EncodeSafe, Encodable, GivenUp, NextPins;
    OutIsSafe(s, e);
  }

  /**
   * End to end: a receiver at the other end of a Bluetooth connection, for as long as nothing starts
   * behind an outstanding torn text, gets exactly the texts that were sent with success.
   */
  lemma EveryWholeBleSessionDecodes(events: seq<Event>, key: Key, generation: u32, id: ChannelId)
    requires IsFaithfulRun(events) && NeverCollides(events, key)
    ensures var log := BleOf(events).log;
      TextsFrom(RunInputs(Receiver(generation), InputsOf(ReportsOf(log, key)), generation, 0).1, Usb, id)
        == TextsOn(WholeOf(log, key), id)
  {
    hide RouterInv, BleInv, BleAfter, FaithfulFrom, Possible, After, CollisionFree, RunInputs, IsSession, SafeSession, AllButLastWhole;
    ResetInv();
    StartBle();
    var past := BleOf(events);
    EveryBleSessionDecided(events, key);
    RunDecides(RESET, events, NO_BLE_PAST, key);
    BleInvMeans(End(events), past);
    RunKeepsSafeTexts(RESET, events, NO_BLE_PAST);
    SessionInMeans(past.log, key, past.epoch);
    SessionIsSafe(past.log, key, past.epoch);
    ReceiverReads(SessionIn(past.log, key), generation, id);
  }

  // ---------------------------------------------------------------- collisions are possible

  /**
   * From every state in which Bluetooth is current: a text cut short does not close the route before its
   * pin is finalized, so that another text may follow it, whole, behind the torn one.
   */
  lemma TornBleMayBeFollowed(s: State, channel: ChannelId, a: Text, b: Text, view: BleView, k: nat)
    requires RouterInv(s) && Capture(s, view).1.Some? && Capture(s, view).1.value.source == Ble
    requires Encodable(a) && Encodable(b) && 0 < k < |Reports(channel, a)|
    ensures var first := SendJson(s, channel, a, view, Link(k, Refused));
      var second := SendJson(first.state, channel, b, view, Link(|Reports(channel, b)|, Refused));
      first.status == SendFailed && first.out == Some(Transmission(Ble, channel, a, Reports(channel, a)[..k]))
      && first.state.pins == s.pins + [Capture(s, view).1.value.(emitted := k, abortBle := true)]
      && first.state.hidsGeneration == s.hidsGeneration && first.state.route == s.route
      && second.status == Ok && second.out == Some(Transmission(Ble, channel, b, Reports(channel, b)))
      && second.state.hidsGeneration == s.hidsGeneration && |second.state.pins| == |s.pins| + 2
      && !second.state.pins[|s.pins| + 1].abortBle
  {
    hide RouterInv, Encodable, Reports;
    SafeMeans(a);
    SafeMeans(b);
  }
}
