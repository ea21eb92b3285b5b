/** Runs from the start of the router in which the conditions of the session and gate theorems fail. */
module RouterExamples {
  import opened Bytes
  import opened JsonSyntax
  import opened JsonPrefix
  import opened JsonObject
  import opened ChannelSpec
  import opened ChannelRuns
  import opened Encoding
  import opened FramingSpec
  import opened RouterSpec
  import opened RouterRuns
  import opened RouterLanes
  import opened RouterEpochs
  import opened Sessions
  import opened UsbSession
  import opened BleSession

  // ---------------------------------------------------------------- a text of two reports

  function Xs(n: nat): (s: Text)
    ensures |s| == n && forall i :: 0 <= i < n ==> s[i] == 0x78
  {
    seq(n, _ => 0x78)
  }

  /** A string of a hundred letters, and the contents of its two reports. */
  const LONG: Text := Quoted(Xs(100))
  const FIRST: Text := [QUOTE] + Xs(60)
  const REST: Text := Xs(40) + [QUOTE, CR, LF]

  lemma StringScans(name: Text)
    requires IsName(name)
    ensures ScanText(Quoted(name), JSON_MAX_DEPTH) == Scan(COMPLETE, RootOther, |name| + 2)
  {
    hide String, Utf8;
    var s := Quoted(name);
    assert s[0..0 + |s|] == s;
    QuotedReads(s, 0, name);
    NumberIsAsciiName(name);
    assert SkipSpace(s, 0) == 0 && SkipSpace(s, |s|) == |s|;
  }

  lemma LongIsText()
    ensures Encodable(LONG) && EncodeSafe(LONG) && Fragments(LONG, 0) == [FIRST, REST]
  {
    hide ScanText, EncodeSafe;
    StringScans(Xs(100));
    TrimmedIsSafe(LONG);
    assert Chunk(102) == 61;
    assert LONG[0..61] == FIRST;
    assert LONG[61..] == Xs(40) + [QUOTE];
    assert LONG[61..] + [CR, LF] == REST;
    assert Fragments(LONG, 61) == [REST];
  }

  lemma LongReports(channel: ChannelId)
    ensures Encodable(LONG) && Reports(channel, LONG) == [PayloadOf(channel, FIRST), PayloadOf(channel, REST)]
  {
    hide Encodable, EncodeSafe, Fragments, PayloadOf;
    LongIsText();
  }

  // ---------------------------------------------------------------- runs of a few events

  lemma FirstEvent(s: State, a: Event, rest: seq<Event>)
    requires RouterInv(s) && Enabled(s, a) && Possible(Move(s, a), rest)
    ensures Possible(s, [a] + rest) && After(s, [a] + rest) == After(Move(s, a), rest)
  {
    hide RouterInv, Move;
    assert ([a] + rest)[0] == a && ([a] + rest)[1..] == rest;
  }

  lemma NoEvent(s: State)
    requires RouterInv(s)
    ensures Possible(s, []) && After(s, []) == s
  {
    hide RouterInv;
  }

  lemma OneEvent(a: Event)
    requires RouterInv(RESET) && Enabled(RESET, a)
    ensures IsRun([a]) && End([a]) == Move(RESET, a)
  {
    hide RouterInv, Move, Possible, After;
    NoEvent(Move(RESET, a));
    FirstEvent(RESET, a, []);
    assert [a] == [a] + [];
  }

  lemma TwoEvents(a: Event, b: Event)
    requires RouterInv(RESET) && Enabled(RESET, a) && Enabled(Move(RESET, a), b)
    ensures IsRun([a, b]) && End([a, b]) == Move(Move(RESET, a), b)
  {
    hide RouterInv, Move, Possible, After;
    var s := Move(RESET, a);
    assert [b] == [b] + [] && [a, b] == [a] + [b];
    NoEvent(Move(s, b));
    FirstEvent(s, b, []);
    FirstEvent(RESET, a, [b]);
  }

  // ---------------------------------------------------------------- the gate of the recovery

  const NO_VIEW: BleView := BleView(None, false)

  /** USB is ready, the flag is read, and then a text is cut short. */
  const CUT_SHORT: seq<Event> := [UsbState(true), Send(Rpc, LONG, NO_VIEW, Link(1, Refused))]

  const USB_READY: State := RESET.(route := Route(Usb, true, true, false, 0, 1, 0))

  lemma UsbBecomesReady()
    ensures RouterInv(RESET) && Move(RESET, UsbState(true)) == USB_READY
  {
    ResetInv();
  }

  lemma CutStartsRecovery()
    ensures SendJson(USB_READY, Rpc, LONG, NO_VIEW, Link(1, Refused)).state.recovery == DetachPending
  {
    hide Encodable, UpdateRoute;
    LongReports(Rpc);
    RouteKeepsRecovery(USB_READY);
  }

  /**
   * The gate does open: in this run the flag reads idle after the first event, a recovery is pending
   * after the second, and a handler that goes by what was read makes USB ready and active again.
   */
  lemma TheGateOpens()
    ensures IsRun(CUT_SHORT[..1]) && End(CUT_SHORT[..1]).recovery == NoRecovery
    ensures IsRun(CUT_SHORT) && End(CUT_SHORT).recovery == DetachPending
    ensures var t := OnUsbStateRead(End(CUT_SHORT), true, true);
      !RouterInv(t) && t.recovery == DetachPending && t.route.usbReady && Selected(t.route) == Some(Usb)
  {
    hide RouterInv, OnUsbState, OnUsbStateRead, SendJson, IsRun, End;
    UsbBecomesReady();
    CutStartsRecovery();
    assert CUT_SHORT[..1] == [CUT_SHORT[0]];
    OneEvent(CUT_SHORT[0]);
    TwoEvents(CUT_SHORT[0], CUT_SHORT[1]);
    StaleReadOpensTheGate(End(CUT_SHORT), true, true);
  }

  // ---------------------------------------------------------------- a torn Bluetooth session

  /** A connection, a text cut short on it, and the same text again before the pin is finalized. */
  const VIEW: BleView := BleView(Some(0), true)
  const CONNECT: Event := BleProfile(0, true)
  const TEAR: Event := Send(Rpc, LONG, VIEW, Link(1, Refused))
  const REPEAT: Event := Send(Rpc, LONG, VIEW, Link(2, Refused))
  const COLLISION: seq<Event> := [CONNECT] + ([TEAR] + ([REPEAT] + []))

  const CONNECTED: State := RESET.(route := Route(Ble, true, false, true, 0, 0, 1), hidsGeneration := 1)

  lemma BleConnects()
    ensures RouterInv(RESET) && Move(RESET, CONNECT) == CONNECTED
  {
    ResetInv();
  }

  lemma FirstEventBle(s: State, a: Event, rest: seq<Event>, past: BlePast)
    requires RouterInv(s) && Enabled(s, a) && Possible(Move(s, a), rest) && BleInv(s, past)
    ensures |past.pinEpochs| == |s.pins| && Possible(s, [a] + rest) && BleInv(Move(s, a), NextBle(s, a, past))
    ensures BleAfter(s, [a] + rest, past) == BleAfter(Move(s, a), rest, NextBle(s, a, past))
  {
    hide RouterInv, Move, BleInv, NextBle;
    BleInvMeans(s, past);
    StepKeepsBle(s, a, past);
    FirstEvent(s, a, rest);
    assert ([a] + rest)[0] == a && ([a] + rest)[1..] == rest;
  }

  lemma NoEventBle(s: State, past: BlePast)
    requires RouterInv(s) && BleInv(s, past)
    ensures Possible(s, []) && BleAfter(s, [], past) == past
  {
    hide RouterInv, BleInv;
  }

  const TORN_ENTRY: BleEntry := BleEntry(Key(1, 0), Transmission(Ble, Rpc, LONG, [PayloadOf(Rpc, FIRST)]), false)
  const WHOLE_ENTRY: BleEntry := BleEntry(Key(1, 0), Transmission(Ble, Rpc, LONG, [PayloadOf(Rpc, FIRST), PayloadOf(Rpc, REST)]), true)

  /** What the two sendings put out, and what the router is like after each. */
  lemma SendingsCollide()
    ensures var first := SendJson(CONNECTED, Rpc, LONG, VIEW, Link(1, Refused));
      var second := SendJson(first.state, Rpc, LONG, VIEW, Link(2, Refused));
      first.out == Some(TORN_ENTRY.out) && first.status == SendFailed
      && |first.state.pins| == 1 && first.state.pins[0].abortBle
      && first.state.hidsGeneration == 1 && first.state.route == CONNECTED.route
      && second.out == Some(WHOLE_ENTRY.out) && second.status == Ok
      && |second.state.pins| == 2 && second.state.hidsGeneration == 1
  {
    hide Encodable, SendJson, PayloadOf, RouterInv;
    LongReports(Rpc);
    BleConnects();
    assert RouterInv(CONNECTED);
    assert Reports(Rpc, LONG)[..1] == [PayloadOf(Rpc, FIRST)];
    TornBleMayBeFollowed(CONNECTED, Rpc, LONG, LONG, VIEW, 1);
  }

  /** The run is possible, and its one session has a whole transmission behind a torn one. */
  lemma CollisionIsRun()
    ensures IsRun(COLLISION) && BleOf(COLLISION).log == [TORN_ENTRY, WHOLE_ENTRY]
  {
    hide RouterInv, BleInv, SendJson, OnBleProfile, Possible, BleAfter, Encodable;
    BleConnects();
    StartBle();
    SendingsCollide();
    var first := SendJson(CONNECTED, Rpc, LONG, VIEW, Link(1, Refused)).state;
    var second := SendJson(first, Rpc, LONG, VIEW, Link(2, Refused)).state;
    assert Move(CONNECTED, TEAR) == first && Move(first, REPEAT) == second;
    NoEvent(second);
    FirstEvent(first, REPEAT, []);
    FirstEvent(CONNECTED, TEAR, [REPEAT] + []);
    FirstEvent(RESET, CONNECT, [TEAR] + ([REPEAT] + []));
    var past1 := BlePast(1, [], [], []);
    assert NextBle(RESET, CONNECT, NO_BLE_PAST) == past1;
    FirstEventBle(RESET, CONNECT, [TEAR] + ([REPEAT] + []), NO_BLE_PAST);
    var past2 := BlePast(1, [1], [], [TORN_ENTRY]);
    assert NextBle(CONNECTED, TEAR, past1) == past2;
    FirstEventBle(CONNECTED, TEAR, [REPEAT] + [], past1);
    var past3 := NextBle(first, REPEAT, past2);
    assert past3.log == [TORN_ENTRY, WHOLE_ENTRY];
    FirstEventBle(first, REPEAT, [], past2);
    NoEventBle(second, past3);
  }

  /** A fragment that leaves the buffer invalid, or only waiting, delivers nothing. */
  lemma FragmentIsSilent(ch: Channel, fragment: Text)
    requires Inv(ch) && !ch.pendingCr && |ch.buffer + fragment| <= JSON_MAX_SIZE && |fragment| > 2
    requires !ScanText(ch.buffer + fragment, JSON_MAX_DEPTH).result.COMPLETE?
    ensures Next(ch, fragment).delivered.None?
    ensures ScanText(ch.buffer + fragment, JSON_MAX_DEPTH) == Scan(INCOMPLETE, RootOther, 0) && !ch.numberWaiting ==>
      Next(ch, fragment).channel == ch.(buffer := ch.buffer + fragment)
    ensures ScanText(ch.buffer + fragment, JSON_MAX_DEPTH).result.INVALID? ==> Next(ch, fragment).channel == IDLE
  {
    hide ScanText, Inv, Deliverable;
    assert fragment[..|fragment|] == fragment;
  }

  lemma FirstIsIncomplete()
    ensures ScanText(FIRST, JSON_MAX_DEPTH) == Scan(INCOMPLETE, RootOther, 0)
  {
    hide StringBody, Value;
    StringScans(Xs(100));
    assert FIRST == LONG[..61];
    ScanPrefix(FIRST, LONG, JSON_MAX_DEPTH);
    AsciiRun(FIRST, 0, |FIRST|);
    assert SkipSpace(FIRST, 0) == 0;
  }

  lemma TwiceFirstIsInvalid()
    ensures ScanText(FIRST + FIRST, JSON_MAX_DEPTH).result.INVALID?
  {
    hide StringBody;
    var s := FIRST + FIRST;
    AsciiRun(s, 0, |s|);
    assert s[0..0 + 62] == Quoted(Xs(60));
    QuotedReads(s, 0, Xs(60));
    assert SkipSpace(s, 0) == 0 && SkipSpace(s, 62) == 62;
  }

  lemma RestIsInvalid()
    ensures ScanText(REST, JSON_MAX_DEPTH).result.INVALID?
  {
    AsciiRun(REST, 0, |REST|);
    assert SkipSpace(REST, 0) == 0;
    assert Number(REST, 0) == Invalid;
    assert Value(REST, 0, JSON_MAX_DEPTH) == Number(REST, 0);
  }

  /** The channel of the receiver: the torn text and the beginning of the other one spoil both. */
  lemma TornRunIsSilent()
    ensures Inv(IDLE) && Run(IDLE, [FIRST, FIRST, REST]).delivered == []
  {
    hide ScanText, Inv, Next;
    IdleIsSound();
    FirstIsIncomplete();
    TwiceFirstIsInvalid();
    RestIsInvalid();
    assert [] + FIRST == FIRST && [] + REST == REST;
    var held := IDLE.(buffer := FIRST);
    FragmentIsSilent(IDLE, FIRST);
    FragmentIsSilent(held, FIRST);
    FragmentIsSilent(IDLE, REST);
    assert Next(IDLE, FIRST).channel == held;
    assert [REST] == [REST] + [] && [FIRST, REST] == [FIRST] + [REST] && [FIRST, FIRST, REST] == [FIRST] + [FIRST, REST];
    SilentStep(IDLE, REST, []);
    SilentStep(held, FIRST, [REST]);
    SilentStep(IDLE, FIRST, [FIRST, REST]);
  }

  lemma SilentStep(ch: Channel, fragment: Text, rest: seq<Text>)
    requires Inv(ch) && Next(ch, fragment).delivered.None?
    requires rest != [] ==> Run(Next(ch, fragment).channel, rest).delivered == []
    ensures Run(ch, [fragment] + rest).delivered == []
  {
    hide Inv, Next;
    assert ([fragment] + rest)[1..] == rest;
  }

  lemma CollisionReports()
    ensures ReportsOf([TORN_ENTRY, WHOLE_ENTRY], Key(1, 0)) == Payloads(Rpc, [FIRST, FIRST, REST])
    ensures WholeOf([TORN_ENTRY, WHOLE_ENTRY], Key(1, 0)) == [Sent(Rpc, LONG)]
  {
    hide PayloadOf;
    var log := [TORN_ENTRY, WHOLE_ENTRY];
    var one := [TORN_ENTRY];
    assert log[..1] == one && one[..0] == [];
    var a, b := PayloadOf(Rpc, FIRST), PayloadOf(Rpc, REST);
    assert ReportsOf([], Key(1, 0)) == [] && WholeOf([], Key(1, 0)) == [];
    assert ReportsOf(one, Key(1, 0)) == [a] && WholeOf(one, Key(1, 0)) == [];
    assert ReportsOf(log, Key(1, 0)) == [a] + [a, b];
  }

  lemma CollisionIsFaithful()
    ensures IsFaithfulRun(COLLISION)
  {
    hide RouterInv, Possible, SendJson, OnBleProfile, BleAfter, BleInv, EncodeSafe, Encodable;
    CollisionIsRun();
    BleConnects();
    LongIsText();
    SendingsCollide();
    var first := SendJson(CONNECTED, Rpc, LONG, VIEW, Link(1, Refused)).state;
    var second := SendJson(first, Rpc, LONG, VIEW, Link(2, Refused)).state;
    assert Move(CONNECTED, TEAR) == first && Move(first, REPEAT) == second;
    NoEvent(second);
    FirstEvent(first, REPEAT, []);
    FirstEvent(CONNECTED, TEAR, [REPEAT] + []);
    FirstFaithful(first, REPEAT, []);
    FirstFaithful(CONNECTED, TEAR, [REPEAT] + []);
    FirstFaithful(RESET, CONNECT, [TEAR] + ([REPEAT] + []));
  }

  lemma FirstFaithful(s: State, a: Event, rest: seq<Event>)
    requires RouterInv(s) && Enabled(s, a) && Faithful(s, a) && Possible(Move(s, a), rest)
    requires FaithfulFrom(Move(s, a), rest) || rest == []
    ensures Possible(s, [a] + rest) && FaithfulFrom(s, [a] + rest)
  {
    hide RouterInv, Move, Faithful;
    FirstEvent(s, a, rest);
    assert ([a] + rest)[0] == a && ([a] + rest)[1..] == rest;
  }

  /**
   * The condition of the Bluetooth sessions is needed: this run, in which only texts that survive encoding
   * are sent, collides; the second text is sent with success, and the receiver gets neither.
   */
  lemma CollisionLosesTheText(generation: u32)
    ensures IsFaithfulRun(COLLISION) && !NeverCollides(COLLISION, Key(1, 0))
    ensures var log := BleOf(COLLISION).log;
      WholeOf(log, Key(1, 0)) == [Sent(Rpc, LONG)]
      && TextsFrom(RunInputs(Receiver(generation), InputsOf(ReportsOf(log, Key(1, 0))), generation, 0).1, Usb, Rpc) == []
  {
    hide RouterInv, BleAfter, BleInv, CollisionFree, Possible, FaithfulFrom, Run, RunAlone, RunInputs, Receiver, For;
    CollisionIsFaithful();
    CollisionIsRun();
    var log := [TORN_ENTRY, WHOLE_ENTRY];
    assert log[0].key == Key(1, 0) && log[1].key == Key(1, 0) && !AllButLastWhole(log, Key(1, 0));
    EveryBleSessionDecided(COLLISION, Key(1, 0));
    CollisionReports();
    TornRunIsSilent();
    var fragments := [FIRST, FIRST, REST];
    var reports := Payloads(Rpc, fragments);
    InputsForChannel(reports, Rpc);
    ForPayloads(Rpc, fragments, Rpc);
    WellFormedRunsAsFragments(IDLE, Rpc, fragments);
    ReceiverIsIdle(generation);
    InterleavingIsIrrelevant(Receiver(generation), InputsOf(reports), generation, 0, Usb, Rpc);
  }

  lemma ReceiverIsIdle(generation: u32)
    ensures Get(TransportOf(Receiver(generation), Usb), Rpc) == IDLE
  {
  }

  // ---------------------------------------------------------------- a generation that comes round

  const ANY_REPORT: Payload := PayloadOf(Rpc, [])

  /** The item that the handler holds while USB is invalidated again and again. */
  const HELD: State := USB_READY.(inFlight := Some(Item(Usb, 1, NO_TOKEN, ANY_REPORT)))

  const RESETS: Event := UsbPhysical(true)

  /** A run that takes a report, and then `n` physical resets. */
  function Resets(n: nat): seq<Event> {
    if n == 0 then [] else [RESETS] + Resets(n - 1)
  }

  function HeldAt(generation: u32): State {
    HELD.(route := HELD.route.(usbGeneration := generation))
  }

  lemma OneReset(generation: u32)
    ensures RouterInv(HeldAt(generation)) && Enabled(HeldAt(generation), RESETS)
    ensures Move(HeldAt(generation), RESETS) == HeldAt(Increment(generation))
  {
    BlankInv();
    NothingCounts();
  }

  lemma NothingCounts()
    ensures Count([], HOLDS) == 0 && Count([], RECOVERS) == 0
  {
  }

  lemma {:induction false} ManyResets(generation: u32, n: nat, past: Past)
    ensures RouterInv(HeldAt(generation)) && Possible(HeldAt(generation), Resets(n))
    ensures After(HeldAt(generation), Resets(n)) == HeldAt((generation + n) % U32)
    ensures var later := PastAfter(HeldAt(generation), Resets(n), past);
      later.usb.epoch == past.usb.epoch + n && later.flightEpoch == past.flightEpoch
    decreases n
  {
    hide RouterInv, Move, NextLane, TakenFrom;
    var s := HeldAt(generation);
    OneReset(generation);
    if n == 0 {
      NoEvent(s);
    } else {
      var next := NextPast(s, RESETS, past);
      ResetCounts(generation, past);
      ManyResets(Increment(generation), n - 1, next);
      FirstEvent(s, RESETS, Resets(n - 1));
      assert Resets(n)[0] == RESETS && Resets(n)[1..] == Resets(n - 1);
      assert (Increment(generation) + (n - 1)) % U32 == (generation + n) % U32;
    }
  }

  lemma ResetCounts(generation: u32, past: Past)
    ensures RouterInv(HeldAt(generation)) && Enabled(HeldAt(generation), RESETS)
    ensures var next := NextPast(HeldAt(generation), RESETS, past);
      next.usb.epoch == past.usb.epoch + 1 && next.flightEpoch == past.flightEpoch
  {
    hide RouterInv, Move, AcceptedBy, FramedBy;
    OneReset(generation);
  }

  const COME: Event := UsbReport(false, ANY_REPORT)
  const QUEUED: State := USB_READY.(usbQueue := [Item(Usb, 1, NO_TOKEN, ANY_REPORT)])

  /** USB becomes ready, a report comes in and is taken, and USB is invalidated 2^32 times. */
  function ComesRound(): seq<Event> {
    [UsbState(true)] + ([COME] + ([TakeItem] + Resets(U32)))
  }

  lemma ReportIsQueued()
    ensures RouterInv(USB_READY) && Move(USB_READY, COME) == QUEUED
  {
    BlankInv();
    NothingCounts();
  }

  lemma ReportIsHeld()
    ensures RouterInv(QUEUED) && Move(QUEUED, TakeItem) == HELD && HeldAt(1) == HELD
  {
    BlankInv();
    NothingCounts();
    assert [QUEUED.usbQueue[0]][1..] == [];
  }

  lemma FirstEventPast(s: State, a: Event, rest: seq<Event>, past: Past)
    requires RouterInv(s) && Enabled(s, a) && Possible(Move(s, a), rest)
    ensures Possible(s, [a] + rest)
    ensures PastAfter(s, [a] + rest, past) == PastAfter(Move(s, a), rest, NextPast(s, a, past))
  {
    hide RouterInv, Move, NextPast;
    FirstEvent(s, a, rest);
    assert ([a] + rest)[0] == a && ([a] + rest)[1..] == rest;
  }

  /** The gap is real: a run in which a report taken 2^32 invalidations ago is still current. */
  lemma AnOldItemPasses()
    ensures IsRun(ComesRound())
    ensures var s, past := End(ComesRound()), PastOf(ComesRound());
      s.inFlight.Some? && ItemIsCurrent(s, s.inFlight.value) && past.usb.epoch - past.flightEpoch == U32
  {
    hide RouterInv, Possible, After, PastAfter, NextPast, Move, Resets, HeldAt;
    UsbBecomesReady();
    ReportIsQueued();
    ReportIsHeld();
    var resets := Resets(U32);
    var past1 := NextPast(RESET, UsbState(true), NO_PAST);
    var past2 := NextPast(USB_READY, COME, past1);
    var past3 := NextPast(QUEUED, TakeItem, past2);
    TakingKeepsEpoch(past2);
    ManyResets(1, U32, past3);
    FirstEvent(QUEUED, TakeItem, resets);
    FirstEvent(USB_READY, COME, [TakeItem] + resets);
    FirstEvent(RESET, UsbState(true), [COME] + ([TakeItem] + resets));
    FirstEventPast(QUEUED, TakeItem, resets, past2);
    FirstEventPast(USB_READY, COME, [TakeItem] + resets, past1);
    FirstEventPast(RESET, UsbState(true), [COME] + ([TakeItem] + resets), NO_PAST);
  }

  lemma TakingKeepsEpoch(past: Past)
    ensures RouterInv(QUEUED) && Enabled(QUEUED, TakeItem)
    ensures var next := NextPast(QUEUED, TakeItem, past); next.usb.epoch == past.usb.epoch == next.flightEpoch
  {
    hide RouterInv, AcceptedBy, FramedBy, Move;
    ReportIsHeld();
  }
}
