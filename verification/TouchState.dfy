/** The ring buffer and the static gesture state of src/input/touch_control.c. */
module TouchState {
  import opened Bytes
  import opened Touch

  /** The items from the head on, wrapping around. */
  function Ring(slots: seq<TouchItem>, head: nat, count: nat): (c: seq<TouchItem>)
    requires head < |slots| && count <= |slots|
    ensures |c| == count
  {
    seq(count, i requires 0 <= i < count => slots[(head + i) % |slots|])
  }

  lemma RingGrows(slots: seq<TouchItem>, head: nat, count: nat, item: TouchItem)
    requires head < |slots| && count < |slots|
    ensures Ring(slots[(head + count) % |slots| := item], head, count + 1) == Ring(slots, head, count) + [item]
  {
    var grown := slots[(head + count) % |slots| := item];
    forall i | 0 <= i < count ensures Ring(grown, head, count + 1)[i] == Ring(slots, head, count)[i] {
      DistinctSlots(head, i, count, |slots|);
    }
  }

  lemma RingShrinks(slots: seq<TouchItem>, head: nat, count: nat)
    requires head < |slots| && 0 < count <= |slots|
    ensures Ring(slots, head, count) == [slots[head]] + Ring(slots, (head + 1) % |slots|, count - 1)
  {
    FirstSlot(head, |slots|);
    var rest := Ring(slots, (head + 1) % |slots|, count - 1);
    forall i | 0 <= i < count - 1 ensures rest[i] == Ring(slots, head, count)[1..][i] {
      NextSlot(head, i, |slots|);
    }
    assert rest == Ring(slots, head, count)[1..];
  }

  /** A ring of fixed size; the build configures a depth between 4 and 32. */
  class TouchQueue {
    const slots: array<TouchItem>
    var head: nat
    var count: nat
    var workerScheduled: bool
    var hasTime: bool
    var lastTime: int
    var hasEdge: bool
    var edgeLevel: bool

    ghost predicate Valid()
      reads this
    {
      4 <= slots.Length <= 32 && head < slots.Length && count <= slots.Length
    }

    ghost function Contents(): (c: seq<TouchItem>)
      requires Valid()
      reads this, slots
    {
      Ring(slots[..], head, count)
    }

    ghost function Abs(): Ingress
      requires Valid()
      reads this, slots
    {
      Ingress(Contents(), workerScheduled, if hasTime then Some(lastTime) else None, if hasEdge then Some(edgeLevel) else None)
    }

    constructor (depth: nat)
      requires 4 <= depth <= 32
      ensures Valid() && Abs() == NO_INGRESS && slots.Length == depth && fresh(slots)
    {
      slots := new TouchItem[depth](_ => Tick(0));
      head, count, workerScheduled := 0, 0, false;
      hasTime, lastTime, hasEdge, edgeLevel := false, 0, false, false;
    }

    /** `submit_item`; `wake`: the worker has to be submitted. */
    method SubmitItem(item: TouchItem) returns (verdict: Verdict, wake: bool)
      requires Valid()
      modifies this, slots
      ensures Valid() && (Abs(), verdict) == Submit(old(Abs()), item, slots.Length)
      ensures wake <==> verdict == Taken && !old(workerScheduled)
    {
      if item.now < 0 {
        return InvalidTime, false;
      }
      if hasTime && item.now < lastTime {
        return InvalidTime, false;
      }
      if item.Edge? && hasEdge && item.level == edgeLevel {
        return SameLevel, false;
      }
      if count == slots.Length {
        return QueueFull, false;
      }
      Put(item);
      hasTime, lastTime := true, item.now;
      if item.Edge? {
        hasEdge, edgeLevel := true, item.level;
      }
      wake := !workerScheduled;
      workerScheduled := true;
      return Taken, wake;
    }

    method Put(item: TouchItem)
      requires Valid() && count < slots.Length
      modifies this`count, slots
      ensures Valid() && Contents() == old(Contents()) + [item]
    {
      hide Ring;
      RingGrows(slots[..], head, count, item);
      var tail := (head + count) % slots.Length;
      slots[tail] := item;
      count := count + 1;
      assert slots[..] == old(slots[..])[tail := item];
    }

    method DropHead()
      requires Valid() && count > 0
      modifies this`head, this`count
      ensures Valid() && old(Contents()) == [slots[old(head)]] + Contents()
    {
      hide Ring;
      RingShrinks(slots[..], head, count);
      head := (head + 1) % slots.Length;
      count := count - 1;
    }

    /** `pop_item`. */
    method PopItem() returns (item: Option<TouchItem>)
      requires Valid()
      modifies this
      ensures Valid() && (Abs(), item) == Pop(old(Abs()))
    {
      if count == 0 {
        workerScheduled := false;
        return None;
      }
      item := Some(slots[head]);
      DropHead();
    }
  }

  lemma Wraps(a: nat, n: nat)
    requires a < 2 * n
    ensures a % n == if a < n then a else a - n
  {
    if a >= n {
      assert a == n + (a - n);
      assert (n + (a - n)) / n == 1;
    }
  }

  lemma FirstSlot(head: nat, n: nat)
    requires head < n
    ensures (head + 0) % n == head
  {
    Wraps(head, n);
  }

  lemma NextSlot(head: nat, i: nat, n: nat)
    requires head < n && i < n
    ensures ((head + 1) % n + i) % n == (head + (i + 1)) % n
  {
    Wraps(head + 1, n);
    Wraps(head + (i + 1), n);
    Wraps((head + 1) % n + i, n);
  }

  lemma DistinctSlots(head: nat, i: nat, j: nat, n: nat)
    requires head < n && i < j < n
    ensures (head + i) % n != (head + j) % n
  {
    Wraps(head + i, n);
    Wraps(head + j, n);
  }

  /** The gesture variables, which only the worker touches. */
  class TouchControl {
    var touched: bool
    var holdHandled: bool
    var pressMs: int
    var lastActivityMs: int
    var choice: nat
    var choiceInitialized: bool
    var connectionMode: bool

    ghost function Abs(): Gesture
      reads this
    {
      Gesture(touched, holdHandled, pressMs, lastActivityMs, choice, choiceInitialized, connectionMode)
    }

    constructor ()
      ensures Abs() == AT_REST
    {
      touched, holdHandled, pressMs, lastActivityMs := false, false, 0, 0;
      choice, choiceInitialized, connectionMode := 0, false, false;
    }

    method EnterMode(now: int, answer: Answer)
      modifies this
      ensures Abs() == EnterConnectionMode(old(Abs()), now, answer)
    {
      var initial := choice;
      if !choiceInitialized || choice != CHOICE_USB {
        if answer.initial.None? {
          return;
        }
        initial := answer.initial.value;
      }
      choice := initial;
      choiceInitialized := true;
      connectionMode := true;
      lastActivityMs := now;
    }

    method Hold(now: int, answer: Answer) returns (actions: seq<Action>)
      modifies this
      ensures (Abs(), actions) == HandleHold(old(Abs()), now, answer)
    {
      actions := [];
      if holdHandled || !touched || !(now >= pressMs && now - pressMs >= HOLD_MS) {
        return;
      }
      holdHandled := true;
      if !connectionMode {
        EnterMode(now, answer);
        return [Action.EnterMode];
      }
      actions := [ClearChoice(choice)];
      if answer.actual >= CHOICES {
        connectionMode := false;
        return;
      }
      choice := answer.actual;
      lastActivityMs := now;
    }

    method EdgeSeen(now: int, level: bool, answer: Answer) returns (actions: seq<Action>)
      modifies this
      ensures (Abs(), actions) == HandleEdge(old(Abs()), now, level, answer)
    {
      actions := [];
      if level {
        touched := true;
        holdHandled := false;
        pressMs := now;
        if connectionMode {
          lastActivityMs := now;
        }
        return;
      }
      if !touched {
        return;
      }
      actions := Hold(now, answer);
      touched := false;
      if connectionMode {
        lastActivityMs := now;
      }
      if holdHandled {
        return;
      }
      if connectionMode {
        actions := actions + [ApplyChoice((choice + 1) % CHOICES)];
        if answer.actual >= CHOICES {
          connectionMode := false;
          return;
        }
        choice := answer.actual;
      } else {
        actions := actions + [CycleLayers];
      }
    }

    method Handle(item: TouchItem, answer: Answer) returns (actions: seq<Action>)
      modifies this
      ensures (Abs(), actions) == HandleItem(old(Abs()), item, answer)
    {
      if item.Edge? {
        actions := EdgeSeen(item.now, item.level, answer);
      } else {
        actions := Hold(item.now, answer);
      }
      if connectionMode && item.now >= lastActivityMs && item.now - lastActivityMs >= IDLE_MS {
        connectionMode := false;
      }
    }
  }
}
