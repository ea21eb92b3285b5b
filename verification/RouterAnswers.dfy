/** Where the texts go that the router sends, and what comes of the answer to an item. */
module RouterAnswers {
  import opened Bytes
  import opened Encoding
  import opened FramingSpec
  import opened RouterSpec
  import opened RouterRuns
  import opened Sessions
  import opened UsbSession
  import opened BleSession

  // ---------------------------------------------------------------- the way out

  /** USB while it is ready; else the Bluetooth connection, if it is the one of the profile and still active. */
  function WayOut(s: State, view: BleView): Option<Source> {
    if s.route.usbReady then Some(Usb)
    else if s.route.bleConnected && view.profile == Some(s.route.bleProfile) && view.connectionCurrent then Some(Ble)
    else None
  }

  /** A pin is captured exactly if there is a way out, and is for that way. */
  lemma CaptureDecided(s: State, view: BleView)
    requires RouterInv(s)
    ensures var (t, pin) := Capture(s, view);
      if WayOut(s, view).None? then pin.None? && t == s
      else
        pin == Some(Pin(WayOut(s, view).value, GenerationFor(s.route, WayOut(s, view).value), Token(s.route.bleProfile, s.hidsGeneration),
                        WayOut(s, view) == Some(Ble), 0, false, false))
        && t == s.(references := if WayOut(s, view) == Some(Ble) then s.references + 1 else s.references)
        && PinIsCurrent(t, pin.value, view)
  {
    hide PartsInv;
  }

  /** What happens to a text that is sent: refused outright, or as many of its reports go out as the link takes. */
  ghost predicate GoesOut(s: State, channel: ChannelId, text: Text, view: BleView, link: Link, out: Option<Transmission>, status: Status) {
    if WayOut(s, view).None? then out.None? && status == NotConnected
    else if !Encodable(text) then out.None? && status == if |text| > 1024 then TooLong else InvalidInput
    else
      var way, all := WayOut(s, view).value, Reports(channel, text);
      out.Some? && out.value.source == way && out.value.channel == channel && out.value.text == text
      && out.value.sent <= all && |out.value.sent| == (if link.accepts < |all| then link.accepts else |all|)
      && status == if link.accepts >= |all| then Ok else if way == Ble && link.refusal != Refused then Stale else SendFailed
  }

  lemma SendPinnedGoesOut(s: State, pin: Pin, channel: ChannelId, text: Text, view: BleView, link: Link)
    requires PinIsCurrent(s, pin, view) && WayOut(s, view) == Some(pin.source)
    ensures var e := SendPinned(s, pin, channel, text, view, link); GoesOut(s, channel, text, view, link, e.out, e.status)
  {
    hide PinIsCurrent, Encodable, Reports, RequestRecovery, WayOut;
    if Encodable(text) {
      CutIsBeginning(Reports(channel, text), link.accepts);
    }
  }

  lemma CutIsBeginning(all: seq<Payload>, accepts: nat)
    ensures Cut(all, accepts) <= all && |Cut(all, accepts)| == if accepts < |all| then accepts else |all|
  {
  }

  lemma WayAside(s: State, references: int, view: BleView)
    ensures WayOut(s.(references := references), view) == WayOut(s, view)
  {
  }

  /** `codex_router_send_json`: the text goes out on the channel it is meant for. */
  lemma SendDecided(s: State, channel: ChannelId, text: Text, view: BleView, link: Link)
    requires RouterInv(s)
    ensures var r := SendJson(s, channel, text, view, link);
      if text == [] then r == Sending(s, None, InvalidInput) else GoesOut(s, channel, text, view, link, r.out, r.status)
  {
    hide RouterInv, SendPinned, Capture, PinIsCurrent, Encodable, Reports;
    CaptureDecided(s, view);
    var (captured, pin) := Capture(s, view);
    if text != [] && pin.Some? {
      WayAside(s, captured.references, view);
      SendPinnedGoesOut(captured, pin.value, channel, text, view, link);
    }
  }

  // ---------------------------------------------------------------- the answer to an item

  /** The answer to a delivered text: nothing on the debug channel; else the response, on the channel for requests. */
  ghost predicate Answers(s: State, channel: ChannelId, view: BleView, reply: Reply, link: Link, out: Option<Transmission>, status: Status) {
    if channel == Debug then out.None? && status == Ok
    else if WayOut(s, view).None? then out.None? && status == NotConnected
    else
      match reply.response
      case None => out.None? && status == reply.status
      case Some(response) => GoesOut(s, Rpc, response, view, link, out, status)
  }

  lemma CallbackAnswers(s: State, source: Source, channel: ChannelId, view: BleView, reply: Reply, link: Link)
    requires RouterInv(s) && Selected(s.route) == Some(source)
    ensures var r := Callback(s, source, channel, view, reply, link); Answers(s, channel, view, reply, link, r.out, r.status)
  {
    hide RouterInv, SendPinned, Capture, PinIsCurrent, Encodable, Reports, GoesOut;
    CaptureDecided(s, view);
    CaptureKeeps(s, view);
    var (captured, pin) := Capture(s, view);
    if pin.Some? && reply.response.Some? {
      WayAside(s, captured.references, view);
      SendPinnedGoesOut(captured, pin.value, Rpc, reply.response.value, view, link);
      GoesOutAside(s, captured.references, Rpc, reply.response.value, view, link);
    }
  }

  lemma GoesOutAside(s: State, references: int, channel: ChannelId, text: Text, view: BleView, link: Link)
    ensures forall out, status ::
      GoesOut(s.(references := references), channel, text, view, link, out, status) <==> GoesOut(s, channel, text, view, link, out, status)
  {
    hide Encodable, Reports;
    WayAside(s, references, view);
  }

  /** The first octet of every report of a channel, and where its text is. */
  lemma ReportsOnWire(channel: ChannelId, text: Text)
    requires Encodable(text)
    ensures forall i :: 0 <= i < |Reports(channel, text)| ==>
      Reports(channel, text)[i][0] == if channel == Debug then 0x01 else 0x02
  {
    hide Encodable, Fragments;
    SafeMeans(text);
    var f := Fragments(text, 0);
    forall i | 0 <= i < |Reports(channel, text)| ensures Reports(channel, text)[i][0] == if channel == Debug then 0x01 else 0x02 {
      assert Reports(channel, text)[i] == PayloadOf(channel, f[i]);
    }
  }

  /** The octets of a report: the channel, the length, the fragment, and zeros. */
  lemma PayloadOnWire(channel: ChannelId, fragment: Text)
    requires |fragment| <= 61
    ensures var p := PayloadOf(channel, fragment);
      |p| == 63 && p[0] == (if channel == Debug then 0x01 else 0x02) && p[1] == |fragment|
      && p[2..2 + |fragment|] == fragment && forall i :: 2 + |fragment| <= i < 63 ==> p[i] == 0
  {
  }

  lemma AnswersAside(s: State, t: State, channel: ChannelId, view: BleView, reply: Reply, link: Link)
    requires t.route == s.route
    ensures forall out, status :: Answers(t, channel, view, reply, link, out, status) <==> Answers(s, channel, view, reply, link, out, status)
  {
    hide Encodable, Reports;
    assert WayOut(t, view) == WayOut(s, view);
  }

  lemma WayIsSelected(s: State, view: BleView)
    requires RouterInv(s) && WayOut(s, view).Some?
    ensures WayOut(s, view) == Selected(s.route)
  {
  }

  /** An item is dropped, or only framed, or answered. */
  lemma ItemIsAnswered(s: State, view: BleView, reply: Reply, link: Link)
    requires RouterInv(s) && s.inFlight.Some?
    ensures FramingInv(s.framing)
    ensures var item, r := s.inFlight.value, Process(s, view, reply, link);
      if !ItemIsCurrent(s, item) then r == Processing(s.(inFlight := None), None, None, Stale)
      else
        var framed := IngestReport(TransportOf(s.framing, item.source), item.payload, item.generation);
        r.delivered == framed.delivered
        && match framed.delivered
           case None => r.out.None? && r.status == framed.status
           case Some(d) => Answers(s, d.0, view, reply, link, r.out, r.status)
  {
    hide RouterInv, Callback, ItemIsCurrent, IngestReport, Answers;
    TransportsFramed(s);
    var item := s.inFlight.value;
    if ItemIsCurrent(s, item) {
      FramedKeeps(s);
      ItemIsSelected(s, item);
      var r := IngestReport(TransportOf(s.framing, item.source), item.payload, item.generation);
      if r.delivered.Some? {
        var framed := s.(inFlight := None, framing := WithTransport(s.framing, item.source, r.transport));
        CallbackAnswers(framed, item.source, r.delivered.value.0, view, reply, link);
        AnswersAside(s, framed, r.delivered.value.0, view, reply, link);
        DeliveryIsOk(TransportOf(s.framing, item.source), item.payload, item.generation);
      }
    }
  }

  lemma ItemIsSelected(s: State, item: Item)
    requires ItemIsCurrent(s, item)
    ensures Selected(s.route) == Some(item.source)
  {
  }

  /** What is sent for an item is the response, on its own transport and on the channel for requests. */
  lemma AnswerIsOnRpc(s: State, view: BleView, reply: Reply, link: Link)
    requires RouterInv(s) && s.inFlight.Some?
    ensures FramingInv(s.framing)
    ensures var r := Process(s, view, reply, link);
      r.out.Some? ==>
        r.out.value.source == s.inFlight.value.source && r.out.value.channel == Rpc
        && reply.response == Some(r.out.value.text)
        && r.delivered.Some? && r.delivered.value.0 == Rpc
        && forall i :: 0 <= i < |r.out.value.sent| ==> r.out.value.sent[i][0] == 0x02
  {
    hide RouterInv, Process, ItemIsCurrent, IngestReport, Encodable, Reports, WayOut, Selected;
    ItemIsAnswered(s, view, reply, link);
    var r := Process(s, view, reply, link);
    if r.out.Some? {
      WayIsSelected(s, view);
      ItemIsSelected(s, s.inFlight.value);
      ReportsOnWire(Rpc, r.out.value.text);
    }
  }

  /** A request that arrives whole is answered whole: with a response, a way out and a link that takes it. */
  lemma RequestIsAnswered(s: State, view: BleView, reply: Reply, link: Link, text: Text)
    requires RouterInv(s) && s.inFlight.Some? && ItemIsCurrent(s, s.inFlight.value)
    requires FramingInv(s.framing) && Process(s, view, reply, link).delivered == Some((Rpc, text))
    requires WayOut(s, view).Some? && reply.response.Some? && Encodable(reply.response.value)
    requires link.accepts >= |Reports(Rpc, reply.response.value)|
    ensures var r, response := Process(s, view, reply, link), reply.response.value;
      r.status == Ok && r.out == Some(Transmission(s.inFlight.value.source, Rpc, response, Reports(Rpc, response)))
  {
    hide RouterInv, Process, ItemIsCurrent, IngestReport, Encodable, Reports, WayOut, Selected;
    ItemIsAnswered(s, view, reply, link);
    WayIsSelected(s, view);
    ItemIsSelected(s, s.inFlight.value);
    var r, all := Process(s, view, reply, link), Reports(Rpc, reply.response.value);
    assert Answers(s, Rpc, view, reply, link, r.out, r.status);
    assert r.out.value.sent == all[..|all|] == all;
  }

  // ---------------------------------------------------------------- runs in which only items are answered

  predicate OnlyAnswers(events: seq<Event>) {
    forall i :: 0 <= i < |events| ==> !events[i].Send?
  }

  /** Everything in a session is on the channel for requests. */
  predicate IsOnRpc(session: Session) {
    (forall i :: 0 <= i < |session.whole| ==> session.whole[i].channel == Rpc)
    && (session.torn.Some? ==> session.torn.value.channel == Rpc)
  }

  lemma OutIsOnRpc(s: State, e: Event)
    requires RouterInv(s) && Enabled(s, e) && !e.Send?
    ensures OutOf(s, e).Some? ==> OutOf(s, e).value.channel == Rpc
  {
    hide RouterInv, Process;
    if e.ProcessItem? {
      AnswerIsOnRpc(s, e.view, e.reply, e.link);
    }
  }

  lemma StepIsOnRpc(s: State, e: Event, session: Session)
    requires RouterInv(s) && Enabled(s, e) && !e.Send? && IsOnRpc(session)
    ensures IsOnRpc(NextSession(s, e, session))
  {
    hide RouterInv, OutOf, StatusOf;
    OutIsOnRpc(s, e);
  }

  lemma {:induction false} RunIsOnRpc(s: State, events: seq<Event>, session: Session)
    requires RouterInv(s) && Possible(s, events) && OnlyAnswers(events) && IsOnRpc(session)
    ensures IsOnRpc(SessionAfter(s, events, session))
    decreases |events|
  {
    hide RouterInv, Move, NextSession, IsOnRpc;
    if events != [] {
      StepIsOnRpc(s, events[0], session);
      RunIsOnRpc(Move(s, events[0]), events[1..], NextSession(s, events[0], session));
    }
  }

  function TextsIn(whole: seq<Sent>): seq<Text> {
    if whole == [] then [] else TextsIn(whole[..|whole| - 1]) + [whole[|whole| - 1].text]
  }

  lemma {:induction false} AllOnRpc(whole: seq<Sent>)
    requires forall i :: 0 <= i < |whole| ==> whole[i].channel == Rpc
    ensures TextsOn(whole, Rpc) == TextsIn(whole) && TextsOn(whole, Debug) == []
    decreases |whole|
  {
    if whole != [] {
      AllOnRpc(whole[..|whole| - 1]);
    }
  }

  /**
   * End to end, where nothing but answers is sent: a receiver that starts with the USB session gets the
   * responses that were sent with success on the channel for requests, all of them, and nothing on the
   * debug channel.
   */
  lemma AnswersArriveOnRpc(events: seq<Event>, generation: u32)
    requires IsFaithfulRun(events) && OnlyAnswers(events)
    ensures var session := SessionOf(events);
      var heard := RunInputs(Receiver(generation), InputsOf(session.reports), generation, 0).1;
      TextsFrom(heard, Usb, Rpc) == TextsIn(session.whole) && TextsFrom(heard, Usb, Debug) == []
  {
    hide RouterInv, Possible, SessionAfter, FaithfulFrom, RunInputs;
    ResetInv();
    RunIsOnRpc(RESET, events, NEW_SESSION);
    EverySessionDecodes(events, generation, Rpc);
    EverySessionDecodes(events, generation, Debug);
    AllOnRpc(SessionOf(events).whole);
  }

  /** The same over Bluetooth, for what every session of the run has sent. */
  predicate LogIsOnRpc(log: seq<BleEntry>) {
    forall i :: 0 <= i < |log| ==> log[i].out.channel == Rpc
  }

  lemma StepLogsRpc(s: State, e: Event, past: BlePast)
    requires RouterInv(s) && Enabled(s, e) && !e.Send? && |past.pinEpochs| == |s.pins| && LogIsOnRpc(past.log)
    ensures LogIsOnRpc(NextBle(s, e, past).log)
  {
    hide RouterInv, Move, OutOf, StatusOf, GivenUp, NextPins;
    OutIsOnRpc(s, e);
  }

  lemma {:induction false} RunLogsRpc(s: State, events: seq<Event>, past: BlePast)
    requires RouterInv(s) && Possible(s, events) && BleInv(s, past) && OnlyAnswers(events) && LogIsOnRpc(past.log)
    ensures LogIsOnRpc(BleAfter(s, events, past).log)
    decreases |events|
  {
    hide RouterInv, Move, BleInv, NextBle, LogIsOnRpc;
    if events != [] {
      BleInvMeans(s, past);
      StepKeepsBle(s, events[0], past);
      StepLogsRpc(s, events[0], past);
      RunLogsRpc(Move(s, events[0]), events[1..], NextBle(s, events[0], past));
    }
  }

  lemma {:induction false} WholeIsOnRpc(log: seq<BleEntry>, key: Key)
    requires LogIsOnRpc(log)
    ensures forall i :: 0 <= i < |WholeOf(log, key)| ==> WholeOf(log, key)[i].channel == Rpc
    decreases |log|
  {
    if log != [] {
      WholeIsOnRpc(log[..|log| - 1], key);
    }
  }

  lemma BleAnswersArriveOnRpc(events: seq<Event>, key: Key, generation: u32)
    requires IsFaithfulRun(events) && OnlyAnswers(events) && NeverCollides(events, key)
    ensures var log := BleOf(events).log;
      var heard := RunInputs(Receiver(generation), InputsOf(ReportsOf(log, key)), generation, 0).1;
      TextsFrom(heard, Usb, Rpc) == TextsIn(WholeOf(log, key)) && TextsFrom(heard, Usb, Debug) == []
  {
    hide RouterInv, Possible, BleAfter, BleInv, FaithfulFrom, RunInputs, CollisionFree;
    ResetInv();
    StartBle();
    RunLogsRpc(RESET, events, NO_BLE_PAST);
    EveryWholeBleSessionDecodes(events, key, generation, Rpc);
    EveryWholeBleSessionDecodes(events, key, generation, Debug);
    WholeIsOnRpc(BleOf(events).log, key);
    AllOnRpc(WholeOf(BleOf(events).log, key));
  }
}
