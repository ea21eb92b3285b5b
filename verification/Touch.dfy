/** The touch gestures of src/input/touch_control.c: what is accepted, and what each item does. */
module Touch {
  import opened Bytes

  const HOLD_MS: nat := 3000
  const IDLE_MS: nat := 5000
  const CHOICES: nat := 4
  const CHOICE_USB: nat := 3

  datatype TouchItem = Edge(now: int, level: bool) | Tick(now: int)

  // ---------------------------------------------------------------- the ingress queue

  /** The items that wait, whether the worker will run, and the last accepted time and level. */
  datatype Ingress = Ingress(queue: seq<TouchItem>, workerScheduled: bool, lastTime: Option<int>, lastLevel: Option<bool>)

  const NO_INGRESS: Ingress := Ingress([], false, None, None)

  datatype Verdict = Taken | InvalidTime | SameLevel | QueueFull

  /** `submit_item`; an item that is not taken changes nothing. */
  function Submit(q: Ingress, item: TouchItem, depth: nat): (r: (Ingress, Verdict)) {
    if item.now < 0 || (q.lastTime.Some? && item.now < q.lastTime.value) then (q, InvalidTime)
    else if item.Edge? && q.lastLevel == Some(item.level) then (q, SameLevel)
    else if |q.queue| >= depth then (q, QueueFull)
    else (Ingress(q.queue + [item], true, Some(item.now), if item.Edge? then Some(item.level) else q.lastLevel), Taken)
  }

  /** `pop_item`; the worker goes to rest exactly when nothing waits. */
  function Pop(q: Ingress): (r: (Ingress, Option<TouchItem>)) {
    if q.queue == [] then (q.(workerScheduled := false), None)
    else (q.(queue := q.queue[1..]), Some(q.queue[0]))
  }

  // ---------------------------------------------------------------- gestures

  datatype Gesture = Gesture(
    touched: bool, holdHandled: bool, pressMs: int, lastActivityMs: int,
    choice: nat, choiceInitialized: bool, connectionMode: bool)

  const AT_REST: Gesture := Gesture(false, false, 0, 0, 0, false, false)

  /** What an item may set in motion. */
  datatype Action = EnterMode | ClearChoice(cleared: nat) | ApplyChoice(requested: nat) | CycleLayers

  datatype Kind = Hold | Tap

  function KindOf(action: Action): Kind {
    match action
    case EnterMode => Hold
    case ClearChoice(_) => Hold
    case ApplyChoice(_) => Tap
    case CycleLayers => Tap
  }

  /** How the surroundings answer: the initial choice, if there is one, and the choice that is in force afterwards. */
  datatype Answer = Answer(initial: Option<nat>, actual: nat)

  predicate IsAnswer(a: Answer) {
    a.initial.Some? ==> a.initial.value < CHOICES
  }

  predicate ElapsedAtLeast(now: int, start: int, duration: nat) {
    now >= start && now - start >= duration
  }

  function Adopt(g: Gesture, actual: nat): Gesture {
    if actual >= CHOICES then g.(connectionMode := false) else g.(choice := actual)
  }

  function EnterConnectionMode(g: Gesture, now: int, answer: Answer): Gesture {
    if g.choiceInitialized && g.choice == CHOICE_USB then g.(connectionMode := true, lastActivityMs := now)
    else
      match answer.initial
      case None => g
      case Some(choice) => g.(choice := choice, choiceInitialized := true, connectionMode := true, lastActivityMs := now)
  }

  function HandleHold(g: Gesture, now: int, answer: Answer): (r: (Gesture, seq<Action>)) {
    if g.holdHandled || !g.touched || !ElapsedAtLeast(now, g.pressMs, HOLD_MS) then (g, [])
    else
      var handled := g.(holdHandled := true);
      if !g.connectionMode then (EnterConnectionMode(handled, now, answer), [EnterMode])
      else
        (Adopt(if answer.actual < CHOICES then handled.(lastActivityMs := now) else handled, answer.actual), [ClearChoice(g.choice)])
  }

  function Activity(g: Gesture, now: int): Gesture {
    if g.connectionMode then g.(lastActivityMs := now) else g
  }

  function HandleEdge(g: Gesture, now: int, level: bool, answer: Answer): (r: (Gesture, seq<Action>)) {
    if level then (Activity(g.(touched := true, holdHandled := false, pressMs := now), now), [])
    else if !g.touched then (g, [])
    else
      var (held, actions) := HandleHold(g, now, answer);
      var released := Activity(held.(touched := false), now);
      if released.holdHandled then (released, actions)
      else if released.connectionMode then
        (Adopt(released, answer.actual), actions + [ApplyChoice((released.choice + 1) % CHOICES)])
      else (released, actions + [CycleLayers])
  }

  /** `handle_item`: the edge or the tick, and then the idle limit. */
  function HandleItem(g: Gesture, item: TouchItem, answer: Answer): (r: (Gesture, seq<Action>)) {
    var (handled, actions) := match item
      case Edge(now, level) => HandleEdge(g, now, level, answer)
      case Tick(now) => HandleHold(g, now, answer);
    (if handled.connectionMode && ElapsedAtLeast(item.now, handled.lastActivityMs, IDLE_MS)
     then handled.(connectionMode := false) else handled,
     actions)
  }

  /** `schedule_next_deadline`: how long the next tick may wait. */
  function NextDeadline(g: Gesture, now: int): Option<nat> {
    if g.touched && !g.holdHandled then Some(Remaining(now, g.pressMs, HOLD_MS))
    else if g.connectionMode then Some(Remaining(now, g.lastActivityMs, IDLE_MS))
    else None
  }

  function Remaining(now: int, start: int, duration: nat): nat {
    var elapsed := if now >= start then now - start else 0;
    if elapsed >= duration then 0 else duration - elapsed
  }

  // ---------------------------------------------------------------- proper sequences of items

  /** Times never go back, and an edge always changes the level. */
  predicate Proper(items: seq<TouchItem>) {
    Ordered(items) && Alternating(items)
  }

  predicate Ordered(items: seq<TouchItem>) {
    (forall i :: 0 <= i < |items| ==> 0 <= items[i].now)
    && (forall i, j :: 0 <= i < j < |items| ==> items[i].now <= items[j].now)
  }

  /** Between two edges to the same level lies one to the other level. */
  predicate Alternating(items: seq<TouchItem>) {
    forall i, j :: 0 <= i < j < |items| && items[i].Edge? && items[j].Edge? && items[i].level == items[j].level ==>
      ChangesBetween(items, i, j)
  }

  predicate ChangesBetween(items: seq<TouchItem>, i: nat, j: nat)
    requires i < j < |items| && items[i].Edge?
  {
    exists k :: i < k < j && items[k].Edge? && items[k].level != items[i].level
  }

  function LastTime(items: seq<TouchItem>): Option<int> {
    if items == [] then None else Some(items[|items| - 1].now)
  }

  function LastLevel(items: seq<TouchItem>): Option<bool> {
    if items == [] then None
    else
      var last := items[|items| - 1];
      if last.Edge? then Some(last.level) else LastLevel(items[..|items| - 1])
  }

  /** The edge at `k`, behind which only ticks follow. */
  predicate IsLastEdge(items: seq<TouchItem>, k: nat, level: bool) {
    k < |items| && items[k].Edge? && items[k].level == level && forall i :: k < i < |items| ==> items[i].Tick?
  }

  lemma LastEdgeGrows(items: seq<TouchItem>, item: TouchItem, k: nat, level: bool)
    requires IsLastEdge(items, k, level) && item.Tick?
    ensures IsLastEdge(items + [item], k, level)
  {
  }

  lemma {:induction false} LastLevelMeans(items: seq<TouchItem>)
    ensures LastLevel(items).None? ==> forall i :: 0 <= i < |items| ==> items[i].Tick?
    ensures LastLevel(items).Some? ==> exists k: nat :: IsLastEdge(items, k, LastLevel(items).value)
  {
    if items != [] {
      var n := |items| - 1;
      LastLevelMeans(items[..n]);
      if items[n].Edge? {
        assert IsLastEdge(items, n as nat, LastLevel(items).value);
      } else if LastLevel(items[..n]).Some? {
        var k: nat :| IsLastEdge(items[..n], k, LastLevel(items).value);
        assert items == items[..n] + [items[n]];
        LastEdgeGrows(items[..n], items[n], k, LastLevel(items).value);
      } else {
        assert forall i :: 0 <= i < n ==> items[i] == items[..n][i];
      }
    }
  }

  /** What was accepted so far, and what the queue remembers of it. */
  ghost predicate Remembers(q: Ingress, log: seq<TouchItem>) {
    Proper(log) && q.lastTime == LastTime(log) && q.lastLevel == LastLevel(log)
    && (q.queue != [] ==> q.workerScheduled)
  }

  lemma ProperGrows(log: seq<TouchItem>, item: TouchItem)
    requires Proper(log) && item.now >= 0
    requires LastTime(log).Some? ==> item.now >= LastTime(log).value
    requires item.Edge? ==> LastLevel(log) != Some(item.level)
    ensures Proper(log + [item])
  {
    hide ChangesBetween, LastLevel;
    var n, grown := |log|, log + [item];
    assert forall i :: 0 <= i < n ==> grown[i] == log[i];
    forall i: nat, j: nat | i < j <= n && grown[i].Edge? && grown[j].Edge? && grown[i].level == grown[j].level
      ensures ChangesBetween(grown, i, j)
    {
      if j < n {
        ChangesInLonger(log, grown, i, j);
      } else {
        ChangesBeforeLast(log, item, i);
      }
    }
  }

  lemma ChangesInLonger(a: seq<TouchItem>, b: seq<TouchItem>, i: nat, j: nat)
    requires i < j < |a| && a <= b && a[i].Edge?
    ensures ChangesBetween(a, i, j) <==> ChangesBetween(b, i, j)
  {
    assert forall k :: 0 <= k < |a| ==> a[k] == b[k];
  }

  lemma ChangesBeforeLast(log: seq<TouchItem>, item: TouchItem, i: nat)
    requires i < |log| && log[i].Edge? && item.Edge? && item.level == log[i].level && LastLevel(log) != Some(item.level)
    ensures ChangesBetween(log + [item], i, |log|)
  {
    LastLevelMeans(log);
    assert LastLevel(log).Some?;
    var k: nat :| IsLastEdge(log, k, LastLevel(log).value);
    assert (log + [item])[k] == log[k] && (log + [item])[i] == log[i];
  }

  /** Only proper sequences are accepted, and while an item waits the worker is going to run. */
  lemma SubmitRemembers(q: Ingress, log: seq<TouchItem>, item: TouchItem, depth: nat)
    requires Remembers(q, log)
    ensures var (q', verdict) := Submit(q, item, depth);
      if verdict == Taken then Remembers(q', log + [item]) && q'.queue == q.queue + [item] && q'.workerScheduled
      else Remembers(q', log) && q' == q
    ensures Submit(q, item, depth).1 == Taken <==> |q.queue| < depth && Proper(log + [item])
    ensures Submit(q, item, depth).1 == QueueFull <==> |q.queue| >= depth && Proper(log + [item])
    ensures Submit(q, item, depth).1 == InvalidTime <==> !Ordered(log + [item])
  {
    hide Alternating, LastLevel;
    var n := |log|;
    OrderedGrows(log, item);
    if Submit(q, item, depth).1 == Taken || Submit(q, item, depth).1 == QueueFull {
      ProperGrows(log, item);
      OneMoreLevel(log, item);
      assert (log + [item])[..n] == log;
    } else if Proper(log + [item]) {
      ProperMeans(log, item);
    }
  }

  lemma OneMoreLevel(log: seq<TouchItem>, item: TouchItem)
    ensures LastLevel(log + [item]) == if item.Edge? then Some(item.level) else LastLevel(log)
  {
    assert (log + [item])[..|log|] == log;
  }

  lemma OrderedGrows(log: seq<TouchItem>, item: TouchItem)
    requires Ordered(log)
    ensures Ordered(log + [item]) <==> item.now >= 0 && (LastTime(log).Some? ==> item.now >= LastTime(log).value)
  {
    var n, grown := |log|, log + [item];
    assert grown[n] == item && forall i :: 0 <= i < n ==> grown[i] == log[i];
  }

  lemma ProperMeans(log: seq<TouchItem>, item: TouchItem)
    requires Proper(log + [item])
    ensures item.now >= 0 && (LastTime(log).Some? ==> item.now >= LastTime(log).value)
    ensures item.Edge? ==> LastLevel(log) != Some(item.level)
  {
    hide LastLevel;
    var n, grown := |log|, log + [item];
    assert grown[n] == item && forall i :: 0 <= i < n ==> grown[i] == log[i];
    LastLevelMeans(log);
  }

  // ---------------------------------------------------------------- what the gestures should be

  /** The time of the press that is not released yet. */
  function Pressed(items: seq<TouchItem>): Option<int> {
    if items == [] then None
    else
      match items[|items| - 1]
      case Edge(now, true) => Some(now)
      case Edge(now, false) => None
      case Tick(_) => Pressed(items[..|items| - 1])
  }

  datatype Gesturing = Gesturing(press: int, release: int)

  /** The presses with their releases, whatever ticks lie between. */
  function Gestures(items: seq<TouchItem>): seq<Gesturing> {
    if items == [] then []
    else
      var before, last := items[..|items| - 1], items[|items| - 1];
      Gestures(before)
      + if last.Edge? && !last.level && Pressed(before).Some? then [Gesturing(Pressed(before).value, last.now)] else []
  }

  /** A gesture that lasts three seconds is a hold, a shorter one a tap. */
  function Meaning(gesture: Gesturing): Kind {
    if gesture.release - gesture.press >= HOLD_MS then Hold else Tap
  }

  function Meanings(gestures: seq<Gesturing>): (kinds: seq<Kind>)
    ensures |kinds| == |gestures|
    ensures forall i :: 0 <= i < |kinds| ==> kinds[i] == Meaning(gestures[i])
  {
    seq(|gestures|, i requires 0 <= i < |gestures| => Meaning(gestures[i]))
  }

  function Kinds(actions: seq<Action>): (kinds: seq<Kind>)
    ensures |kinds| == |actions|
    ensures forall i :: 0 <= i < |kinds| ==> kinds[i] == KindOf(actions[i])
  {
    seq(|actions|, i requires 0 <= i < |actions| => KindOf(actions[i]))
  }

  /** A press that has lasted long enough already counts before its release. */
  function HeldKinds(items: seq<TouchItem>): seq<Kind> {
    if Pressed(items).Some? && LastTime(items).value - Pressed(items).value >= HOLD_MS then [Hold] else []
  }

  lemma {:induction false} PressedIsSomewhere(items: seq<TouchItem>)
    requires Pressed(items).Some?
    ensures items != [] && LastLevel(items) == Some(true)
    ensures exists k :: 0 <= k < |items| && items[k] == Edge(Pressed(items).value, true)
  {
    var n := |items| - 1;
    if items[n].Tick? {
      PressedIsSomewhere(items[..n]);
      var k :| 0 <= k < n && items[..n][k] == Edge(Pressed(items).value, true);
      assert items[k] == items[..n][k];
    } else {
      assert items[n] == Edge(Pressed(items).value, true);
    }
  }

  lemma {:induction false} LevelIsPressed(items: seq<TouchItem>)
    ensures LastLevel(items) == Some(true) <==> Pressed(items).Some?
  {
    if items != [] && items[|items| - 1].Tick? {
      LevelIsPressed(items[..|items| - 1]);
    }
  }

  // ---------------------------------------------------------------- the gesture machine meets them

  /** The machine after a proper sequence of items: what it has done, and what it holds. */
  ghost predicate Follows(g: Gesture, items: seq<TouchItem>, actions: seq<Action>) {
    g.choice < CHOICES
    && g.touched == Pressed(items).Some?
    && (g.touched ==> g.pressMs == Pressed(items).value)
    && (g.touched ==> (g.holdHandled <==> LastTime(items).value - g.pressMs >= HOLD_MS))
    && Kinds(actions) == Meanings(Gestures(items)) + HeldKinds(items)
    && (g.connectionMode ==> LastTime(items).Some? && g.lastActivityMs <= LastTime(items).value < g.lastActivityMs + IDLE_MS)
    && (g.connectionMode && g.touched && !g.holdHandled ==> g.pressMs <= g.lastActivityMs)
  }

  lemma AtRestFollows()
    ensures Follows(AT_REST, [], [])
  {
  }

  lemma KindsConcat(a: seq<Action>, b: seq<Action>)
    ensures Kinds(a + b) == Kinds(a) + Kinds(b)
  {
  }

  lemma MeaningsAppend(gestures: seq<Gesturing>, gesture: Gesturing)
    ensures Meanings(gestures + [gesture]) == Meanings(gestures) + [Meaning(gesture)]
  {
  }

  /** What the reference says after one more item. */
  lemma OneMoreItem(items: seq<TouchItem>, item: TouchItem)
    ensures LastTime(items + [item]) == Some(item.now)
    ensures Pressed(items + [item]) == match item case Edge(now, true) => Some(now) case Edge(_, false) => None case Tick(_) => Pressed(items)
    ensures Meanings(Gestures(items + [item])) == Meanings(Gestures(items))
      + if item.Edge? && !item.level && Pressed(items).Some? then [Meaning(Gesturing(Pressed(items).value, item.now))] else []
  {
    var grown := items + [item];
    assert grown[..|grown| - 1] == items && grown[|grown| - 1] == item;
    if item.Edge? && !item.level && Pressed(items).Some? {
      MeaningsAppend(Gestures(items), Gesturing(Pressed(items).value, item.now));
    } else {
      assert Gestures(items) + [] == Gestures(items);
      assert Meanings(Gestures(items)) + [] == Meanings(Gestures(items));
    }
  }

  /** What one item does to the machine, compared with what was pressed before. */
  lemma HandledKinds(g: Gesture, item: TouchItem, answer: Answer)
    requires IsAnswer(answer) && g.choice < CHOICES && item.now >= 0
    ensures var (g', actions) := HandleItem(g, item, answer);
      g'.choice < CHOICES
      && (item.Edge? && item.level ==> g'.touched && !g'.holdHandled && g'.pressMs == item.now && actions == [])
      && (item.Edge? && !item.level ==> !g'.touched)
      && (item.Edge? && !item.level && !g.touched ==> actions == [])
      && (item.Edge? && !item.level && g.touched ==>
            Kinds(actions) == if g.holdHandled then [] else if ElapsedAtLeast(item.now, g.pressMs, HOLD_MS) then [Hold] else [Tap])
      && (item.Tick? ==> g'.touched == g.touched && g'.pressMs == g.pressMs)
      && (item.Tick? ==> g'.holdHandled == (g.holdHandled || (g.touched && ElapsedAtLeast(item.now, g.pressMs, HOLD_MS))))
      && (item.Tick? ==> Kinds(actions) == if g'.holdHandled && !g.holdHandled then [Hold] else [])
      && (g'.connectionMode ==> item.now < g'.lastActivityMs + IDLE_MS)
      && (g'.connectionMode ==> g'.lastActivityMs == item.now || (g.connectionMode && g'.lastActivityMs == g.lastActivityMs))
      && (item.Edge? && item.level && g'.connectionMode ==> g'.lastActivityMs == item.now)
      && (item.Tick? && !g'.holdHandled && g'.connectionMode ==> g.connectionMode && g'.lastActivityMs == g.lastActivityMs)
  {
  }

  /**
   * Every item of a proper sequence keeps the machine in step with the reference: one action for every
   * press and release, a hold if they are three seconds apart and a tap otherwise, whatever ticks fall
   * between; a hold as soon as an item shows that the time is up; and connection mode is left as soon
   * as an item shows five seconds without activity.
   */
  lemma ItemFollows(g: Gesture, items: seq<TouchItem>, actions: seq<Action>, item: TouchItem, answer: Answer)
    requires Follows(g, items, actions) && Proper(items + [item]) && IsAnswer(answer)
    ensures var (g', more) := HandleItem(g, item, answer); Follows(g', items + [item], actions + more)
  {
    hide HandleItem, Gestures, Meanings, Kinds;
    ProperMeans(items, item);
    OneMoreItem(items, item);
    HandledKinds(g, item, answer);
    LevelIsPressed(items);
    var (g', more) := HandleItem(g, item, answer);
    KindsConcat(actions, more);
    var done := Meanings(Gestures(items));
    assert done + [] == done;
    if item.Tick? && g'.holdHandled && !g.holdHandled && g.touched {
      assert done + [] + [Hold] == done + [Hold];
    }
  }

  /** A tick after the scheduled delay does what it was scheduled for, and an earlier one does nothing. */
  lemma DeadlineIsExact(g: Gesture, now: int, tick: int, answer: Answer)
    requires NextDeadline(g, now).Some? && now <= tick
    requires g.touched && !g.holdHandled ==> g.pressMs <= now && (g.connectionMode ==> g.pressMs <= g.lastActivityMs)
    requires !g.touched || g.holdHandled ==> g.lastActivityMs <= now
    ensures var (g', actions) := HandleItem(g, Tick(tick), answer);
      if g.touched && !g.holdHandled then g'.holdHandled <==> tick >= now + NextDeadline(g, now).value
      else !g'.connectionMode <==> tick >= now + NextDeadline(g, now).value
    ensures tick < now + NextDeadline(g, now).value ==> HandleItem(g, Tick(tick), answer) == (g, [])
  {
  }

  // ---------------------------------------------------------------- runs

  /** Everything: the queue, the machine, all accepted items, those handled with the answers to them, and what was done. */
  datatype World = World(
    ingress: Ingress, gesture: Gesture, accepted: seq<TouchItem>, handled: seq<TouchItem>, answers: seq<Answer>, actions: seq<Action>)

  const START: World := World(NO_INGRESS, AT_REST, [], [], [], [])

  /** An edge or a tick comes in, in any thread; or the worker pops an item, and handles it. */
  datatype Event = Come(item: TouchItem) | Work(answer: Answer)

  function Next(w: World, e: Event, depth: nat): World {
    match e
    case Come(item) =>
      var (ingress, verdict) := Submit(w.ingress, item, depth);
      w.(ingress := ingress, accepted := if verdict == Taken then w.accepted + [item] else w.accepted)
    case Work(answer) =>
      var (ingress, item) := Pop(w.ingress);
      if item.None? then w.(ingress := ingress)
      else
        var (gesture, actions) := HandleItem(w.gesture, item.value, answer);
        World(ingress, gesture, w.accepted, w.handled + [item.value], w.answers + [answer], w.actions + actions)
  }

  predicate Sane(events: seq<Event>) {
    forall i :: 0 <= i < |events| && events[i].Work? ==> IsAnswer(events[i].answer)
  }

  function Run(events: seq<Event>, depth: nat): World {
    if events == [] then START
    else Next(Run(events[..|events| - 1], depth), events[|events| - 1], depth)
  }

  ghost predicate WorldInv(w: World, depth: nat) {
    Remembers(w.ingress, w.accepted) && |w.ingress.queue| <= depth
    && w.accepted == w.handled + w.ingress.queue
    && Follows(w.gesture, w.handled, w.actions)
  }

  lemma ProperPrefix(a: seq<TouchItem>, b: seq<TouchItem>)
    requires Proper(a + b)
    ensures Proper(a)
  {
    hide ChangesBetween;
    var c := a + b;
    assert forall i :: 0 <= i < |a| ==> c[i] == a[i];
    forall i: nat, j: nat | i < j < |a| && a[i].Edge? && a[j].Edge? && a[i].level == a[j].level
      ensures ChangesBetween(a, i, j)
    {
      ChangesInLonger(a, c, i, j);
      assert c[i] == a[i] && c[j] == a[j];
    }
  }

  lemma NextKeeps(w: World, e: Event, depth: nat)
    requires WorldInv(w, depth) && (e.Work? ==> IsAnswer(e.answer))
    ensures WorldInv(Next(w, e, depth), depth)
  {
    hide Proper, Follows, HandleItem, LastLevel;
    match e
    case Come(item) =>
      SubmitRemembers(w.ingress, w.accepted, item, depth);
      assert w.handled + (w.ingress.queue + [item]) == (w.handled + w.ingress.queue) + [item];
    case Work(answer) =>
      var queue := w.ingress.queue;
      if queue != [] {
        assert w.accepted == (w.handled + [queue[0]]) + queue[1..];
        ProperPrefix(w.handled + [queue[0]], queue[1..]);
        ItemFollows(w.gesture, w.handled, w.actions, queue[0], answer);
      }
  }

  /**
   * In every run, however edges, ticks and the worker interleave: the accepted items are proper and are
   * handled in their order; while one waits the worker is going to run; each press and release of the
   * handled items has brought about exactly one action, of the kind that their times decide; and in
   * connection mode the last handled item is less than five seconds after the last activity.
   */
  lemma {:induction false} EveryRunFollows(events: seq<Event>, depth: nat)
    requires Sane(events)
    ensures var w := Run(events, depth);
      Proper(w.accepted) && |w.ingress.queue| <= depth && w.accepted == w.handled + w.ingress.queue
      && (w.ingress.queue != [] ==> w.ingress.workerScheduled)
      && Kinds(w.actions) == Meanings(Gestures(w.handled)) + HeldKinds(w.handled)
      && (w.gesture.connectionMode ==> w.handled != [] && LastTime(w.handled).value - w.gesture.lastActivityMs < IDLE_MS)
    ensures WorldInv(Run(events, depth), depth)
    decreases |events|
  {
    hide Proper, Next, Kinds, Meanings, Gestures, HeldKinds;
    if events == [] {
      StartInv(depth);
    } else {
      var before := events[..|events| - 1];
      EveryRunFollows(before, depth);
      NextKeeps(Run(before, depth), events[|events| - 1], depth);
    }
  }

  lemma StartInv(depth: nat)
    ensures WorldInv(START, depth)
  {
    AtRestFollows();
  }

  lemma {:induction false} PressIsPast(items: seq<TouchItem>)
    requires Ordered(items) && Pressed(items).Some?
    ensures LastTime(items).Some? && Pressed(items).value <= LastTime(items).value
  {
    PressedIsSomewhere(items);
    var k :| 0 <= k < |items| && items[k] == Edge(Pressed(items).value, true);
  }

  /**
   * In every run: when the worker has handled its items and sets the deadline, at a time that is not
   * before the last of them, the tick that comes at the deadline or later does what it is for, and a tick
   * that comes earlier does nothing.
   */
  lemma EveryDeadlineIsExact(events: seq<Event>, depth: nat, now: int, tick: int, answer: Answer)
    requires Sane(events) && now <= tick
    requires var w := Run(events, depth); LastTime(w.handled).Some? ==> LastTime(w.handled).value <= now
    ensures var g := Run(events, depth).gesture;
      NextDeadline(g, now).Some? <==> (g.touched && !g.holdHandled) || g.connectionMode
    ensures var g := Run(events, depth).gesture;
      NextDeadline(g, now).Some? ==>
        var g' := HandleItem(g, Tick(tick), answer).0;
        (if g.touched && !g.holdHandled then g'.holdHandled <==> tick >= now + NextDeadline(g, now).value
         else !g'.connectionMode <==> tick >= now + NextDeadline(g, now).value)
        && (tick < now + NextDeadline(g, now).value ==> HandleItem(g, Tick(tick), answer) == (g, []))
  {
    hide Run, HandleItem, NextDeadline, Gestures, Meanings, Kinds, Alternating, HeldKinds;
    EveryRunFollows(events, depth);
    var w := Run(events, depth);
    assert Ordered(w.handled) by { ProperPrefix(w.handled, w.ingress.queue); }
    if w.gesture.touched {
      PressIsPast(w.handled);
    }
    DeadlineMeans(w.gesture, now);
    if NextDeadline(w.gesture, now).Some? {
      DeadlineIsExact(w.gesture, now, tick, answer);
    }
  }

  lemma DeadlineMeans(g: Gesture, now: int)
    ensures NextDeadline(g, now).Some? <==> (g.touched && !g.holdHandled) || g.connectionMode
  {
  }
}
