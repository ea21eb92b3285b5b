/** Which actions the gestures are, and with which choice: a reference over the items, their times and the answers. */
module TouchActions {
  import opened Bytes
  import opened Touch

  // ---------------------------------------------------------------- what an item means, from the times alone

  datatype Deed = Touches | Holds | Taps | LetsGo | Nothing

  /** A press; a hold, as soon as three seconds have passed; a release before that, or after a hold that was seen; or nothing. */
  function DeedOf(items: seq<TouchItem>, item: TouchItem): Deed {
    if item.Edge? && item.level then Touches
    else
      match Pressed(items)
      case None => Nothing
      case Some(press) =>
        var seen := items != [] && items[|items| - 1].now - press >= 3000;
        if !seen && item.now - press >= 3000 then Holds
        else if item.Tick? then Nothing
        else if seen then LetsGo
        else Taps
  }

  // ---------------------------------------------------------------- the mode and the choice in force

  /** Connection mode is off, after some last choice; or it is on, with its last activity and the choice in force. */
  datatype Standing = Off(last: Option<nat>) | On(activity: int, choice: nat)

  predicate IsChoice(n: nat) { n < 4 }

  /** A hold enters with USB if that was the last choice, and otherwise with what the surroundings answer, if they do. */
  function Entered(last: Option<nat>, now: int, answer: Answer): Standing {
    if last == Some(3) then On(now, 3)
    else if answer.initial.Some? then On(now, answer.initial.value)
    else Off(last)
  }

  /** A hold and a tap ask for a choice, and an answer that is none ends the mode; so do five seconds without activity. */
  function StandingAfter(before: Standing, deed: Deed, now: int, answer: Answer): Standing {
    match before
    case Off(last) => if deed == Holds then Entered(last, now, answer) else before
    case On(activity, choice) =>
      if deed == Holds || deed == Taps then if IsChoice(answer.actual) then On(now, answer.actual) else Off(Some(choice))
      else if deed == Touches || deed == LetsGo then On(now, choice)
      else if now - activity >= 5000 then Off(Some(choice))
      else before
  }

  function StandingOf(items: seq<TouchItem>, answers: seq<Answer>): Standing
    requires |items| == |answers|
  {
    if items == [] then Off(None)
    else
      var n := |items| - 1;
      StandingAfter(StandingOf(items[..n], answers[..n]), DeedOf(items[..n], items[n]), items[n].now, answers[n])
  }

  // ---------------------------------------------------------------- the actions that are due

  /** The choices go round. */
  function Successor(choice: nat): nat {
    if choice == 3 then 0 else choice + 1
  }

  function Due(before: Standing, deed: Deed): seq<Action> {
    match deed
    case Holds => [if before.On? then ClearChoice(before.choice) else EnterMode]
    case Taps => [if before.On? then ApplyChoice(Successor(before.choice)) else CycleLayers]
    case _ => []
  }

  function AllDue(items: seq<TouchItem>, answers: seq<Answer>): seq<Action>
    requires |items| == |answers|
  {
    if items == [] then []
    else
      var n := |items| - 1;
      AllDue(items[..n], answers[..n]) + Due(StandingOf(items[..n], answers[..n]), DeedOf(items[..n], items[n]))
  }

  // ---------------------------------------------------------------- the machine does what is due

  /** The variables of the machine hold what the reference says. */
  predicate Holding(g: Gesture, standing: Standing) {
    match standing
    case Off(last) =>
      !g.connectionMode && (g.choiceInitialized <==> last.Some?) && (last.Some? ==> g.choice == last.value)
    case On(activity, choice) =>
      g.connectionMode && g.choiceInitialized && g.choice == choice && g.lastActivityMs == activity && IsChoice(choice)
  }

  /** One item, for a machine that knows what is pressed and since when. */
  lemma ItemIsDue(g: Gesture, items: seq<TouchItem>, actions: seq<Action>, item: TouchItem, answer: Answer, standing: Standing)
    requires Follows(g, items, actions) && Proper(items + [item]) && IsAnswer(answer) && Holding(g, standing)
    ensures var (g', more) := HandleItem(g, item, answer);
      more == Due(standing, DeedOf(items, item))
      && Holding(g', StandingAfter(standing, DeedOf(items, item), item.now, answer))
  {
    hide Gestures, Meanings, Kinds, Alternating;
    ProperMeans(items, item);
    if Pressed(items).Some? {
      PressedIsSomewhere(items);
    }
  }

  lemma OneMoreDue(items: seq<TouchItem>, answers: seq<Answer>, item: TouchItem, answer: Answer)
    requires |items| == |answers|
    ensures StandingOf(items + [item], answers + [answer])
      == StandingAfter(StandingOf(items, answers), DeedOf(items, item), item.now, answer)
    ensures AllDue(items + [item], answers + [answer])
      == AllDue(items, answers) + Due(StandingOf(items, answers), DeedOf(items, item))
  {
    hide DeedOf, StandingAfter, Due;
    assert (items + [item])[..|items|] == items && (answers + [answer])[..|items|] == answers;
  }

  /** What has been done is what was due, and what is in force is what the reference says. */
  ghost predicate DoesWhatIsDue(w: World) {
    |w.handled| == |w.answers|
    && w.actions == AllDue(w.handled, w.answers)
    && Holding(w.gesture, StandingOf(w.handled, w.answers))
  }

  lemma NextIsDue(w: World, e: Event, depth: nat)
    requires WorldInv(w, depth) && (e.Work? ==> IsAnswer(e.answer)) && DoesWhatIsDue(w)
    ensures DoesWhatIsDue(Next(w, e, depth))
  {
    hide Proper, Follows, HandleItem, LastLevel, Holding, AllDue, StandingOf, Due, StandingAfter, DeedOf, Submit;
    var queue := w.ingress.queue;
    if e.Work? && queue != [] {
      assert w.accepted == (w.handled + [queue[0]]) + queue[1..];
      ProperPrefix(w.handled + [queue[0]], queue[1..]);
      ItemIsDue(w.gesture, w.handled, w.actions, queue[0], e.answer, StandingOf(w.handled, w.answers));
      OneMoreDue(w.handled, w.answers, queue[0], e.answer);
    }
  }

  lemma StartIsDue()
    ensures DoesWhatIsDue(START)
  {
  }

  /**
   * In every run the actions are, one by one, those that the times of the handled items and the answers
   * make due: a tap cycles the layers exactly if connection mode is off when it ends, and asks for the
   * successor of the choice in force otherwise; a hold enters the mode exactly if it is off, and clears
   * the choice in force otherwise. Mode and choice are those of the reference.
   */
  lemma {:induction false} EveryActionIsDue(events: seq<Event>, depth: nat)
    requires Sane(events)
    ensures var w := Run(events, depth);
      |w.handled| == |w.answers| && w.actions == AllDue(w.handled, w.answers)
      && var standing := StandingOf(w.handled, w.answers);
         (w.gesture.connectionMode <==> standing.On?)
         && (standing.On? ==> w.gesture.choice == standing.choice && w.gesture.lastActivityMs == standing.activity)
    ensures DoesWhatIsDue(Run(events, depth))
    decreases |events|
  {
    hide Next, AllDue, StandingOf, WorldInv;
    if events == [] {
      StartIsDue();
    } else {
      var before := events[..|events| - 1];
      EveryActionIsDue(before, depth);
      EveryRunFollows(before, depth);
      NextIsDue(Run(before, depth), events[|events| - 1], depth);
    }
  }
}
