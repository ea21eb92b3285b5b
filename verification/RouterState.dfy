/** The static state of src/transport/report_router.c and its handlers, each one locked section. */
module RouterState {
  import opened Bytes
  import opened ChannelSpec
  import opened Encoding
  import opened FramingSpec
  import opened FramingState
  import opened RouterSpec
  import opened Lighting
  import opened LightingState
  import RpcDispatch

  class ReportRouter {
    var route: Route
    var usbQueue: seq<Item>
    var bleQueue: seq<Item>
    var inFlight: Option<Item>
    const usbFraming: TransportState
    const bleFraming: TransportState
    const lights: LightingModel
    var recovery: Recovery
    var recoveryScheduled: bool
    var hidsGeneration: u32
    var references: int
    var pins: seq<Pin>

    /** The router without the lighting model, which only dispatch changes. */
    ghost function Routing(): set<object> {
      {this} + usbFraming.Footprint() + bleFraming.Footprint()
    }

    ghost function Footprint(): set<object> {
      {lights} + Routing()
    }

    ghost predicate Valid()
      reads Footprint()
    {
      usbFraming.Valid() && bleFraming.Valid() && IsModel(lights.model)
      && usbFraming.Footprint() !! bleFraming.Footprint()
      && this !in usbFraming.Footprint() && this !in bleFraming.Footprint()
    }

    ghost function Abs(): State
      requires Valid()
      reads Footprint()
    {
      State(route, usbQueue, bleQueue, inFlight, Framing(usbFraming.Abs(), bleFraming.Abs()),
            recovery, recoveryScheduled, hidsGeneration, references, pins)
    }

    constructor ()
      ensures Valid() && Abs() == RESET && fresh(Footprint())
    {
      hide TransportState.Valid, TransportState.Abs;
      route := Route(Usb, false, false, false, 0, 0, 0);
      usbQueue, bleQueue, inFlight, pins := [], [], None, [];
      usbFraming := new TransportState();
      bleFraming := new TransportState();
      lights := new LightingModel();
      recovery, recoveryScheduled, hidsGeneration, references := NoRecovery, false, 0, 0;
    }

    // -------------------------------------------------------------- the route

    method InvalidateTransport(source: Source)
      requires Valid()
      modifies Routing()
      ensures Valid() && Abs() == Invalidate(old(Abs()), source)
    {
      hide TransportState.Valid, TransportState.Abs;
      if source == Usb {
        route := route.(usbGeneration := Increment(route.usbGeneration));
        usbFraming.Reset();
        usbQueue := [];
      } else {
        route := route.(bleGeneration := Increment(route.bleGeneration));
        bleFraming.Reset();
        bleQueue := [];
      }
    }

    method SettleRoute(usbAlreadyInvalidated: bool, bleAlreadyInvalidated: bool) returns (purge: bool)
      requires Valid()
      modifies Routing()
      ensures Valid() && (Abs(), purge) == UpdateRoute(old(Abs()), usbAlreadyInvalidated, bleAlreadyInvalidated)
    {
      hide TransportState.Valid, TransportState.Abs;
      var nextAvailable := route.usbReady || route.bleConnected;
      var next := if route.usbReady then Usb else Ble;
      purge := false;
      if route.hasActive == nextAvailable && (!nextAvailable || route.active == next) {
        return;
      }
      if route.hasActive {
        if route.active == Usb && !usbAlreadyInvalidated {
          InvalidateTransport(Usb);
        } else if route.active == Ble && !bleAlreadyInvalidated {
          InvalidateTransport(Ble);
          purge := true;
        }
      }
      if nextAvailable {
        route := route.(active := next);
      }
      route := route.(hasActive := nextAvailable);
    }

    /** `codex_ble_hids_purge_queues`. */
    method PurgeQueues()
      requires Valid()
      modifies this
      ensures Valid() && Abs() == PurgeHids(old(Abs()))
    {
      hide TransportState.Valid, TransportState.Abs;
      hidsGeneration := Increment(hidsGeneration);
    }

    /** `idle` is what the caller has read of the recovery before it took the lock. */
    method UsbStateChanged(hid: bool, idle: bool)
      requires Valid()
      modifies Routing()
      ensures Valid() && Abs() == OnUsbStateRead(old(Abs()), hid, idle)
    {
      hide TransportState.Valid, TransportState.Abs, Invalidate, UpdateRoute;
      var ready := hid && idle;
      var invalidated := false;
      if route.usbReady != ready {
        route := route.(usbReady := ready);
        InvalidateTransport(Usb);
        invalidated := true;
      }
      var purge := SettleRoute(invalidated, false);
      if purge {
        PurgeQueues();
      }
    }

    method UsbPhysicalStateChanged(counts: bool)
      requires Valid()
      modifies Routing()
      ensures Valid() && Abs() == OnUsbPhysicalState(old(Abs()), counts)
    {
      hide TransportState.Valid, TransportState.Abs;
      if !counts {
        return;
      }
      InvalidateTransport(Usb);
    }

    method BleProfileChanged(profile: byte, connected: bool)
      requires Valid()
      modifies Routing()
      ensures Valid() && Abs() == OnBleProfile(old(Abs()), profile, connected)
    {
      hide TransportState.Valid, TransportState.Abs, Invalidate, UpdateRoute;
      var changed := route.bleProfile != profile || route.bleConnected != connected;
      route := route.(bleProfile := profile);
      route := route.(bleConnected := connected);
      if changed {
        InvalidateTransport(Ble);
      }
      var purge := SettleRoute(false, changed);
      if changed || purge {
        PurgeQueues();
      }
    }

    method BleConnectionEdge(profile: byte, connected: bool)
      requires Valid()
      modifies Routing()
      ensures Valid() && Abs() == OnBleConnectionEdge(old(Abs()), profile, connected)
    {
      hide TransportState.Valid, TransportState.Abs, Invalidate, UpdateRoute;
      route := route.(bleProfile := profile);
      route := route.(bleConnected := connected);
      InvalidateTransport(Ble);
      var purge := SettleRoute(false, true);
    }

    // -------------------------------------------------------------- reports coming in

    method EnqueueItem(item: Item) returns (status: Status)
      requires Valid()
      modifies this
      ensures Valid() && (Abs(), status) == Enqueue(old(Abs()), item)
    {
      hide TransportState.Valid, TransportState.Abs;
      var queue := if item.source == Usb then usbQueue else bleQueue;
      if |queue| >= INGRESS_DEPTH {
        return NoSpace;
      }
      if item.source == Usb {
        usbQueue := usbQueue + [item];
      } else {
        bleQueue := bleQueue + [item];
      }
      return Ok;
    }

    method UsbReportReceived(busy: bool, payload: Payload) returns (status: Status)
      requires Valid()
      modifies this
      ensures Valid() && (Abs(), status) == IngestUsb(old(Abs()), busy, payload)
    {
      hide TransportState.Valid, TransportState.Abs;
      if busy {
        return TryAgain;
      }
      if recovery != NoRecovery {
        return TryAgain;
      }
      if !route.hasActive || route.active != Usb || !route.usbReady {
        return NotConnected;
      }
      status := EnqueueItem(Item(Usb, route.usbGeneration, NO_TOKEN, payload));
    }

    method BleReportReceived(busy: bool, payload: Payload, token: Token) returns (status: Status)
      requires Valid()
      modifies this
      ensures Valid() && (Abs(), status) == IngestBle(old(Abs()), busy, payload, token)
    {
      hide TransportState.Valid, TransportState.Abs;
      if busy {
        return TryAgain;
      }
      if !route.hasActive || route.active != Ble || !route.bleConnected
         || token.profile != route.bleProfile || token.generation != hidsGeneration {
        return Stale;
      }
      status := EnqueueItem(Item(Ble, route.bleGeneration, token, payload));
    }

    /** The two `k_msgq_get` of `process_one`. */
    method TakeNext() returns (status: Status)
      requires Valid() && inFlight.None?
      modifies this
      ensures Valid() && (Abs(), status) == Take(old(Abs()))
    {
      hide TransportState.Valid, TransportState.Abs;
      if usbQueue != [] {
        inFlight := Some(usbQueue[0]);
        usbQueue := usbQueue[1..];
        return Ok;
      }
      if bleQueue != [] {
        inFlight := Some(bleQueue[0]);
        bleQueue := bleQueue[1..];
        return Ok;
      }
      return NoMessage;
    }

    // -------------------------------------------------------------- pinned routes

    method PinCurrent(pin: Pin, view: BleView) returns (current: bool)
      requires Valid()
      ensures current == PinIsCurrent(Abs(), pin, view)
    {
      hide TransportState.Valid, TransportState.Abs;
      if !route.hasActive || route.active != pin.source || GenerationFor(route, pin.source) != pin.generation {
        return false;
      }
      if pin.source == Ble {
        return pin.holdsConnection && route.bleConnected && route.bleProfile == pin.token.profile
               && pin.token.generation == hidsGeneration && view.connectionCurrent;
      }
      return route.usbReady;
    }

    method CaptureRoute(view: BleView) returns (pin: Option<Pin>)
      requires Valid()
      modifies this
      ensures Valid() && (Abs(), pin) == Capture(old(Abs()), view)
    {
      hide TransportState.Valid, TransportState.Abs, PinIsCurrent;
      if !route.hasActive {
        return None;
      }
      var captured := Pin(route.active, GenerationFor(route, route.active), Token(route.bleProfile, hidsGeneration),
                          false, 0, false, false);
      if route.active == Ble {
        if view.profile.None? {
          return None;
        }
        references := references + 1;
        captured := captured.(holdsConnection := true, token := Token(view.profile.value, hidsGeneration));
      }
      ReferencesAside(old(Abs()), references, captured, view);
      var current := PinCurrent(captured, view);
      if !current {
        if captured.holdsConnection {
          references := references - 1;
        }
        return None;
      }
      return Some(captured);
    }

    method RequestUsbRecovery(pin: Pin) returns (marked: Pin)
      requires Valid()
      modifies Routing()
      ensures Valid() && (Abs(), marked) == RequestRecovery(old(Abs()), pin)
    {
      hide TransportState.Valid, TransportState.Abs, Invalidate, UpdateRoute;
      marked := pin;
      var invalidated := false;
      if recovery == NoRecovery {
        recovery := DetachPending;
        route := route.(usbReady := false);
        InvalidateTransport(Usb);
        invalidated := true;
        marked := pin.(recoverUsb := true);
      }
      if invalidated {
        var purge := SettleRoute(true, false);
      }
    }

    /** `send_json_pinned_locked` and `emit_pinned`; the first refused report ends the encoding. */
    method SendJsonPinned(pin: Pin, channel: ChannelId, json: Text, view: BleView, link: Link)
      returns (used: Pin, out: Option<Transmission>, status: Status)
      requires Valid()
      modifies Routing()
      ensures Valid() && Emission(Abs(), used, out, status) == SendPinned(old(Abs()), pin, channel, json, view, link)
    {
      hide TransportState.Valid, TransportState.Abs, PinIsCurrent, Encodable, Reports, RequestRecovery, PurgeHids, Cut;
      used, out := pin, None;
      var current := PinCurrent(pin, view);
      if !current {
        return used, out, Stale;
      }
      var sent;
      sent, status := EncodeUpTo(channel, json, link.accepts);
      if status == InvalidInput || status == TooLong {
        return;
      }
      used := used.(emitted := used.emitted + |sent|);
      out := Some(Transmission(pin.source, channel, json, sent));
      if status == Ok {
        return;
      }
      if pin.source == Ble && link.refusal == Bumped {
        PurgeQueues();
        return used, out, Stale;
      }
      if pin.source == Ble && link.refusal == Switched {
        return used, out, Stale;
      }
      if used.emitted > 0 {
        if pin.source == Ble {
          used := used.(abortBle := true);
        } else {
          used := RequestUsbRecovery(used);
        }
      }
    }

    /** The pin is finalized after the lock is given back. */
    method Release(pin: Pin)
      requires Valid()
      modifies this
      ensures Valid() && Abs() == Unlock(old(Abs()), pin)
    {
      hide TransportState.Valid, TransportState.Abs;
      pins := pins + [pin];
    }

    method SendText(channel: ChannelId, json: Text, view: BleView, link: Link)
      returns (out: Option<Transmission>, status: Status)
      requires Valid()
      modifies Routing()
      ensures Valid() && Sending(Abs(), out, status) == SendJson(old(Abs()), channel, json, view, link)
    {
      hide TransportState.Valid, TransportState.Abs, Capture, SendPinned;
      if json == [] {
        return None, InvalidInput;
      }
      var pin := CaptureRoute(view);
      if pin.None? {
        return None, NotConnected;
      }
      var used;
      used, out, status := SendJsonPinned(pin.value, channel, json, view, link);
      Release(used);
    }

    // -------------------------------------------------------------- an item

    /**
     * `framed_json_received`. The text goes to dispatch; its response, if any, goes out on the pin. The
     * reply is what that dispatch made of it.
     */
    method JsonReceived(source: Source, channel: ChannelId, json: Text, view: BleView, link: Link, env: RpcDispatch.Surroundings)
      returns (out: Option<Transmission>, status: Status, reply: Reply)
      requires Valid()
      modifies Footprint()
      ensures Valid() && Sending(Abs(), out, status) == Callback(old(Abs()), source, channel, view, reply, link)
      ensures reply.response.Some? ==> RpcDispatch.Dispatches(json, reply.response.value)
    {
      hide TransportState.Valid, TransportState.Abs, Capture, SendPinned, RpcDispatch.Dispatches;
      reply := Reply(Ok, None);
      if channel == Debug {
        return None, Ok, reply;
      }
      var pin := CaptureRoute(view);
      if pin.None? {
        return None, NotConnected, reply;
      }
      if pin.value.source != source {
        Release(pin.value);
        return None, Stale, reply;
      }
      reply := DispatchText(json, lights, env);
      if reply.response.None? {
        Release(pin.value);
        return None, reply.status, reply;
      }
      var used;
      used, out, status := SendJsonPinned(pin.value, Rpc, reply.response.value, view, link);
      Release(used);
    }

    method ItemCurrent(item: Item) returns (current: bool)
      requires Valid()
      ensures current == ItemIsCurrent(Abs(), item)
    {
      hide TransportState.Valid, TransportState.Abs;
      if !route.hasActive || route.active != item.source || GenerationFor(route, item.source) != item.generation {
        return false;
      }
      return item.source != Ble
             || (route.bleConnected && item.token.profile == route.bleProfile && item.token.generation == hidsGeneration);
    }

    /** The framing state of the item's transport takes its payload. */
    method Frame(item: Item) returns (delivered: Option<(ChannelId, Text)>, status: Status)
      requires Valid()
      modifies Routing()
      ensures Valid() && old(FramingInv(Abs().framing))
      ensures Received(TransportOf(Abs().framing, item.source), delivered, status)
           == IngestReport(TransportOf(old(Abs().framing), item.source), item.payload, item.generation)
      ensures Abs() == old(Abs()).(framing := WithTransport(old(Abs().framing), item.source, TransportOf(Abs().framing, item.source)))
    {
      hide TransportState.Valid, TransportState.Abs, IngestReport, TransportInv;
      SoundFraming();
      if item.source == Usb {
        delivered, status := usbFraming.Ingest(item.payload, item.generation);
      } else {
        delivered, status := bleFraming.Ingest(item.payload, item.generation);
      }
    }

    /** `process_item` up to `finalize_pin`. */
    method ProcessTaken(view: BleView, link: Link, env: RpcDispatch.Surroundings)
      returns (delivered: Option<(ChannelId, Text)>, out: Option<Transmission>, status: Status, reply: Reply)
      requires Valid() && inFlight.Some?
      modifies Footprint()
      ensures Valid() && old(FramingInv(Abs().framing))
      ensures Processing(Abs(), delivered, out, status) == Process(old(Abs()), view, reply, link)
      ensures delivered.Some? && reply.response.Some? ==> RpcDispatch.Dispatches(delivered.value.1, reply.response.value)
    {
      hide TransportState.Valid, TransportState.Abs, ItemIsCurrent, IngestReport, Callback, RpcDispatch.Dispatches, TransportInv;
      SoundFraming();
      delivered, out, reply := None, None, Reply(Ok, None);
      var item := inFlight.value;
      inFlight := None;
      ItemAside(old(Abs()), item);
      var current := ItemCurrent(item);
      if !current {
        return delivered, out, Stale, reply;
      }
      delivered, status := Frame(item);
      if delivered.None? {
        return;
      }
      var answer;
      out, answer, reply := JsonReceived(item.source, delivered.value.0, delivered.value.1, view, link, env);
      if status == Ok {
        status := answer;
      }
    }

    lemma SoundFraming()
      requires Valid()
      ensures FramingInv(Abs().framing)
    {
    }

    /** `finalize_pin`. */
    method FinalizePin(i: nat, disconnects: bool)
      requires Valid() && i < |pins|
      modifies this
      ensures Valid() && Abs() == Finalize(old(Abs()), i, disconnects)
    {
      hide TransportState.Valid, TransportState.Abs;
      var pin := pins[i];
      if pin.abortBle && pin.token.generation == hidsGeneration && disconnects {
        PurgeQueues();
      }
      pins := pins[..i] + pins[i + 1..];
      if pin.holdsConnection {
        references := references - 1;
      }
      if pin.recoverUsb {
        recoveryScheduled := true;
      }
    }

    /** `usb_recovery_work_handler`. */
    method RecoveryWork(works: bool)
      requires Valid() && recoveryScheduled
      modifies this
      ensures Valid() && Abs() == RunRecovery(old(Abs()), works)
    {
      hide TransportState.Valid, TransportState.Abs;
      recoveryScheduled := false;
      if recovery == DetachPending {
        if works {
          recovery := ReenablePending;
        }
        recoveryScheduled := true;
        return;
      }
      if recovery == ReenablePending {
        if !works {
          recoveryScheduled := true;
          return;
        }
        recovery := NoRecovery;
      }
    }
  }

  /** `codex_rpc_dispatch` up to its emitter, whose status is that of the sending. */
  method DispatchText(json: Text, lights: LightingModel, env: RpcDispatch.Surroundings) returns (reply: Reply)
    requires IsModel(lights.model)
    modifies lights
    ensures IsModel(lights.model)
    ensures reply.response.Some? ==> RpcDispatch.Dispatches(json, reply.response.value)
  {
    hide RpcDispatch.Asks, RpcDispatch.Effected;
    var effect := RpcDispatch.Dispatch(json, lights, env.(emitter := Ok));
    reply := Reply(effect.status, effect.emitted);
  }

  lemma ReferencesAside(s: State, references: int, pin: Pin, view: BleView)
    ensures PinIsCurrent(s.(references := references), pin, view) == PinIsCurrent(s, pin, view)
  {
  }

  lemma ItemAside(s: State, item: Item)
    ensures ItemIsCurrent(s.(inFlight := None), item) == ItemIsCurrent(s, item)
  {
  }

  /** The reports of a text until the transport has accepted `accepts` of them. */
  method EncodeUpTo(channel: ChannelId, json: Text, accepts: nat) returns (sent: seq<Payload>, status: Status)
    ensures !Encodable(json) ==> sent == [] && status == if |json| > JSON_MAX_SIZE then TooLong else InvalidInput
    ensures Encodable(json) ==> sent == Cut(Reports(channel, json), accepts)
    ensures Encodable(json) ==> status == if |sent| == |Reports(channel, json)| then Ok else SendFailed
  {
    hide Encodable, Reports, Cut, TakesFirst;
    var takes: nat -> bool := i => i < accepts;
    sent, status := Encode(channel, json, takes);
    if Encodable(json) {
      AcceptedAtMost(takes, |sent|, |Reports(channel, json)|, accepts);
      Accepted(sent, Reports(channel, json), accepts);
    }
  }

  lemma AcceptedAtMost(takes: nat -> bool, k: nat, n: nat, accepts: nat)
    requires TakesFirst(takes, k, n) && forall i: nat :: takes(i) <==> i < accepts
    ensures k <= n && k <= accepts && (k < n ==> accepts <= k)
  {
    assert k > 0 ==> takes(k - 1);
  }

  lemma Accepted(sent: seq<Payload>, all: seq<Payload>, accepts: nat)
    requires |sent| <= |all| && sent == all[..|sent|]
    requires |sent| <= accepts
    requires |sent| < |all| ==> accepts <= |sent|
    ensures sent == Cut(all, accepts)
  {
    assert all[..|all|] == all;
  }
}
