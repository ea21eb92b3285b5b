/** What one fragment does to a channel, decided by the octets that the channel has then received. */
module ChannelLaws {
  import opened Bytes
  import opened JsonSyntax
  import opened JsonPrefix
  import opened ChannelSpec
  import opened ChannelRuns
  import opened Encoding

  // ---------------------------------------------------------------- what can be delivered

  /** At most 1024 octets, an acceptable text, and behind its value only spaces and tabs. */
  lemma DeliverableIs(s: Text)
    ensures Deliverable(s) <==>
      |s| <= 1024 && ScanText(s, 32).result.COMPLETE?
      && forall i :: ScanText(s, 32).valueEnd <= i < |s| ==> s[i] == 0x20 || s[i] == 0x09
  {
    hide ScanText;
    var scan := ScanText(s, JSON_MAX_DEPTH);
    if scan.result.COMPLETE? && forall i :: scan.valueEnd <= i < |s| ==> s[i] == 0x20 || s[i] == 0x09 {
      SkipBlanksTo(s, scan.valueEnd, |s|);
    }
  }

  /** What may stand behind a text to end it: a line feed, or a carriage return and a line feed. */
  predicate Ends(t: Text) {
    t == [0x0A] || t == [0x0D, 0x0A]
  }

  predicate EndsIn(all: Text, d: Text, t: Text) {
    all == d + t && Deliverable(d) && (t == [] || t == [0x0D] || Ends(t))
  }

  /** The octets are a text that can be delivered, and perhaps its terminator or the first half of it. */
  ghost predicate Splits(all: Text) {
    exists d: Text, t: Text :: EndsIn(all, d, t)
  }

  // ---------------------------------------------------------------- the split in the buffer

  lemma TrailingDecides(s: Text)
    requires |s| <= JSON_MAX_SIZE && ScanText(s, JSON_MAX_DEPTH).result.COMPLETE?
    ensures match AnalyzeTrailing(s, ScanText(s, JSON_MAX_DEPTH).valueEnd)
      case JsonWhitespace(n) => n == |s| && EndsIn(s, s, [])
      case ProtocolTerminator(n) => Ends(s[n..]) && EndsIn(s, s[..n], s[n..])
      case PendingCr(n) => s[n..] == [0x0D] && EndsIn(s, s[..n], [0x0D])
      case InvalidTrailing => true
  {
    hide ScanText, Deliverable;
    var e := ScanText(s, JSON_MAX_DEPTH).valueEnd;
    var n := SkipBlanks(s, e);
    CutIsDeliverable(s, n);
    assert s == s[..n] + s[n..];
    if n == |s| {
      assert s[..n] == s && s[n..] == [];
    } else if n + 1 == |s| {
      assert s[n..] == [s[n]];
    } else if n + 2 == |s| {
      assert s[n..] == [s[n], s[n + 1]];
    }
  }

  /** A text that can be delivered, with a terminator behind it. */
  lemma SplitScans(d: Text, t: Text)
    requires Deliverable(d) && (t == [] || t == [0x0D] || Ends(t))
    ensures ScanText(d + t, JSON_MAX_DEPTH) == ScanText(d, JSON_MAX_DEPTH) && ScanText(d, JSON_MAX_DEPTH).result.COMPLETE?
    ensures AnalyzeTrailing(d + t, ScanText(d, JSON_MAX_DEPTH).valueEnd)
      == if t == [] then JsonWhitespace(|d|) else if t == [0x0D] then PendingCr(|d|) else ProtocolTerminator(|d|)
  {
    hide ScanText, Deliverable;
    DeliverableIs(d);
    var e := ScanText(d, JSON_MAX_DEPTH).valueEnd;
    ScanThenSpace(d, d + t, JSON_MAX_DEPTH);
    assert forall i :: e <= i < |d| ==> (d + t)[i] == d[i];
    SkipBlanksTo(d + t, e, |d|);
  }

  // ---------------------------------------------------------------- a fragment that is not empty

  /** Something more may follow a text that is complete already: blanks or a number that a full report may have cut. */
  predicate MayBeCut(ch: Channel, all: Text, size: nat)
    requires Deliverable(all)
  {
    if ScanText(all, JSON_MAX_DEPTH).valueEnd < |all| then size == 61
    else ScanText(all, JSON_MAX_DEPTH).rootKind.RootNumber? && (ch.numberWaiting || size >= 61)
  }

  /** What a channel that only collects does with the octets it has then received. */
  ghost predicate Collects(ch: Channel, all: Text, size: nat, step: Step) {
    (forall d: Text, t: Text | EndsIn(all, d, t) && t != [] ::
       step == if t == [0x0D] then Step(Channel(d, ch.numberWaiting, true, true, |d|), None, Ok) else Step(IDLE, Some(d), Ok))
    && (Deliverable(all) ==>
          step == if !MayBeCut(ch, all, size) then Step(IDLE, Some(all), Ok)
                  else Step(ch.(buffer := all, numberWaiting := ch.numberWaiting || ScanText(all, JSON_MAX_DEPTH).valueEnd == |all|), None, Ok))
    && (!Splits(all) && |all| > 1024 ==> step == Step(IDLE, None, TooLong))
    && (!Splits(all) && |all| <= 1024 ==>
          var scan := ScanText(all, JSON_MAX_DEPTH);
          step == if scan.result.INCOMPLETE?
                  then Step(ch.(buffer := all, numberWaiting := ch.numberWaiting || scan.rootKind.RootNumber?), None, Ok)
                  else Step(IDLE, None, InvalidInput))
  }

  /** The buffer takes the whole fragment. */
  lemma FitsDecided(ch: Channel, fragment: Text)
    requires Valid(ch) && |ch.buffer + fragment| <= JSON_MAX_SIZE
    requires !ch.pendingCr && !ch.pendingHasDelivery && ch.pendingLen == 0
    ensures Collects(ch, ch.buffer + fragment, |fragment|, Append(ch, fragment))
  {
    hide ScanText, Deliverable, AnalyzeTrailing;
    var all := ch.buffer + fragment;
    assert fragment[..|fragment|] == fragment && all[..|all|] == all;
    forall d: Text, t: Text | EndsIn(all, d, t) && t != []
      ensures Append(ch, fragment)
        == if t == [0x0D] then Step(Channel(d, ch.numberWaiting, true, true, |d|), None, Ok) else Step(IDLE, Some(d), Ok)
    {
      SplitFits(ch, fragment, d, t);
    }
    if Deliverable(all) {
      assert all + [] == all;
      SplitScans(all, []);
    }
    if !Splits(all) && ScanText(all, JSON_MAX_DEPTH).result.COMPLETE? {
      UnsplitTrailing(all);
    }
  }

  lemma SplitFits(ch: Channel, fragment: Text, d: Text, t: Text)
    requires Valid(ch) && |ch.buffer + fragment| <= JSON_MAX_SIZE && EndsIn(ch.buffer + fragment, d, t) && t != []
    requires !ch.pendingCr && !ch.pendingHasDelivery && ch.pendingLen == 0
    ensures Append(ch, fragment)
      == if t == [0x0D] then Step(Channel(d, ch.numberWaiting, true, true, |d|), None, Ok) else Step(IDLE, Some(d), Ok)
  {
    hide ScanText, Deliverable, AnalyzeTrailing;
    var all := ch.buffer + fragment;
    assert fragment[..|fragment|] == fragment && all[..|d|] == d;
    SplitScans(d, t);
  }

  lemma UnsplitTrailing(all: Text)
    requires !Splits(all) && |all| <= JSON_MAX_SIZE && ScanText(all, JSON_MAX_DEPTH).result.COMPLETE?
    ensures AnalyzeTrailing(all, ScanText(all, JSON_MAX_DEPTH).valueEnd).InvalidTrailing?
  {
    hide ScanText, Deliverable, AnalyzeTrailing, EndsIn;
    TrailingDecides(all);
  }

  /** The buffer is full before the fragment ends. */
  lemma OverflowDecided(ch: Channel, fragment: Text)
    requires Valid(ch) && |ch.buffer + fragment| > JSON_MAX_SIZE
    requires !ch.pendingCr && !ch.pendingHasDelivery && ch.pendingLen == 0
    ensures Collects(ch, ch.buffer + fragment, |fragment|, Append(ch, fragment))
  {
    hide ScanText, Deliverable, AnalyzeTrailing;
    var all := ch.buffer + fragment;
    var room := JSON_MAX_SIZE - |ch.buffer|;
    assert all[..JSON_MAX_SIZE] == ch.buffer + fragment[..room] && all[JSON_MAX_SIZE..] == fragment[room..];
    forall d: Text, t: Text | EndsIn(all, d, t) && t != []
      ensures Append(ch, fragment)
        == if t == [0x0D] then Step(Channel(d, ch.numberWaiting, true, true, |d|), None, Ok) else Step(IDLE, Some(d), Ok)
    {
      SplitOverflows(ch, all, d, t);
    }
    assert !Deliverable(all) by { DeliverableIs(all); }
    if !Splits(all) {
      UnsplitOverflows(ch, all);
    }
  }

  lemma SplitOverflows(ch: Channel, all: Text, d: Text, t: Text)
    requires |all| > JSON_MAX_SIZE && EndsIn(all, d, t)
    requires !ch.pendingCr && !ch.pendingHasDelivery && ch.pendingLen == 0
    ensures var full, over := all[..JSON_MAX_SIZE], all[JSON_MAX_SIZE..];
      HandleOverflow(ch.(buffer := full), ScanText(full, JSON_MAX_DEPTH), over)
      == if t == [0x0D] then Step(Channel(d, ch.numberWaiting, true, true, |d|), None, Ok) else Step(IDLE, Some(d), Ok)
  {
    hide ScanText, Deliverable, AnalyzeTrailing;
    DeliverableIs(d);
    var full, over := all[..JSON_MAX_SIZE], all[JSON_MAX_SIZE..];
    var n := JSON_MAX_SIZE - |d|;
    assert full == d + t[..n] && over == t[n..] && full[..|d|] == d;
    if n > 0 {
      assert t[..n] == [0x0D] && over == [0x0A];
    } else {
      assert t[..n] == [] && over == t;
    }
    SplitScans(d, t[..n]);
  }

  lemma UnsplitOverflows(ch: Channel, all: Text)
    requires |all| > JSON_MAX_SIZE && !Splits(all)
    ensures var full, over := all[..JSON_MAX_SIZE], all[JSON_MAX_SIZE..];
      HandleOverflow(ch.(buffer := full), ScanText(full, JSON_MAX_DEPTH), over) == Step(IDLE, None, TooLong)
  {
    hide ScanText, Deliverable, AnalyzeTrailing;
    var full, over := all[..JSON_MAX_SIZE], all[JSON_MAX_SIZE..];
    assert all == full + over;
    if ScanText(full, JSON_MAX_DEPTH).result.COMPLETE? {
      TrailingDecides(full);
      var trailing := AnalyzeTrailing(full, ScanText(full, JSON_MAX_DEPTH).valueEnd);
      if trailing.JsonWhitespace? {
        assert over == [CR] || Ends(over) ==> EndsIn(all, full, over);
      } else if trailing.PendingCr? {
        var n := trailing.deliveryLen;
        assert all == full[..n] + (full[n..] + over);
        assert over == [LF] ==> full[n..] + over == [CR, LF];
        assert over == [LF] ==> EndsIn(all, full[..n], full[n..] + over);
      }
    }
  }

  /** A line break that is no part of a text. */
  predicate IsBreak(fragment: Text) {
    fragment == [0x0D] || Ends(fragment)
  }

  /**
   * The whole decision about one fragment. A channel that waits for the line feed takes nothing else. A
   * line break before any text is dropped. An empty fragment ends the text that is there, if it can be
   * delivered. Any other fragment is decided by what the channel has then received, however much of it
   * its buffer can hold.
   */
  lemma FragmentDecided(ch: Channel, fragment: Text)
    requires Inv(ch)
    ensures ch.pendingCr ==>
      Next(ch, fragment) == if fragment == [0x0A] then Step(IDLE, if ch.pendingHasDelivery then Some(ch.buffer) else None, Ok)
                            else Step(IDLE, None, InvalidInput)
    ensures !ch.pendingCr && fragment == [] ==>
      Next(ch, fragment) == if Deliverable(ch.buffer) then Step(IDLE, Some(ch.buffer), Ok) else Step(IDLE, None, InvalidInput)
    ensures !ch.pendingCr && ch.buffer == [] && IsBreak(fragment) ==>
      Next(ch, fragment) == if fragment == [0x0D] then Step(Channel([], false, true, false, 0), None, Ok) else Step(IDLE, None, Ok)
    ensures !ch.pendingCr && fragment != [] && !(ch.buffer == [] && IsBreak(fragment)) ==>
      Collects(ch, ch.buffer + fragment, |fragment|, Next(ch, fragment))
  {
    hide ScanText, Deliverable, Append, Flush, Collects;
    if ch.pendingCr {
      assert ch.buffer[..ch.pendingLen] == ch.buffer;
    } else if fragment == [] {
      EmptyDecided(ch);
    } else if !(ch.buffer == [] && IsBreak(fragment)) {
      if |ch.buffer + fragment| <= JSON_MAX_SIZE {
        FitsDecided(ch, fragment);
      } else {
        OverflowDecided(ch, fragment);
      }
    }
  }

  lemma EmptyDecided(ch: Channel)
    requires Inv(ch) && !ch.pendingCr
    ensures Flush(ch) == if Deliverable(ch.buffer) then Step(IDLE, Some(ch.buffer), Ok) else Step(IDLE, None, InvalidInput)
  {
    hide ScanText, AnalyzeTrailing;
    EmptyIsIncomplete();
    assert ch.buffer[..|ch.buffer|] == ch.buffer;
  }

  /** What an empty fragment makes of everything that was received before. */
  lemma EmptyFragmentDelivers(ch: Channel)
    requires Inv(ch) && !ch.pendingCr
    ensures Run(ch, [[]]) == if Deliverable(ch.buffer) then Trace(IDLE, [ch.buffer], true) else Trace(IDLE, [], false)
  {
    hide Inv, Next, Deliverable;
    FragmentDecided(ch, []);
    var step := Next(ch, [[]][0]);
    assert Run(step.channel, [[]][1..]) == Trace(IDLE, [], true);
    assert Values(step.delivered) + [] == Values(step.delivered);
  }

  // ---------------------------------------------------------------- numbers that wait

  /** A number from the first octet to the last. */
  predicate IsNumberText(s: Text) {
    var scan := ScanText(s, JSON_MAX_DEPTH);
    0 < |s| <= JSON_MAX_SIZE && scan.result.COMPLETE? && scan.rootKind.RootNumber? && scan.valueEnd == |s| && !IsSpace(s[0])
  }

  /** The channel has kept the first `n` octets of a number. */
  function Keeping(s: Text, n: nat): Channel
    requires n <= |s|
  {
    Channel(s[..n], n > 0, false, false, 0)
  }

  lemma NumberBegins(s: Text, n: nat)
    requires IsNumberText(s) && 0 < n <= |s|
    ensures var cut := ScanText(s[..n], JSON_MAX_DEPTH);
      cut.rootKind.RootNumber? && !cut.result.INVALID? && (cut.result.COMPLETE? ==> cut.valueEnd == n)
    ensures Deliverable(s[..n]) <==> ScanText(s[..n], JSON_MAX_DEPTH).result.COMPLETE?
    ensures Inv(Keeping(s, n)) && Inv(Keeping(s, 0))
  {
    hide ScanText, Deliverable;
    assert SkipSpace(s, 0) == 0;
    if n < |s| {
      CutOfNumber(s, n);
    } else {
      assert s[..n] == s;
    }
    DeliverableIs(s[..n]);
    assert s[..0] == [];
    IdleIsSound();
  }

  /** One more piece: it is kept, unless it is the first, does not fill its report, and reads as a number already. */
  lemma NumberPiece(s: Text, n: nat, piece: Text)
    requires IsNumberText(s) && piece != [] && n + |piece| <= |s| && s[n..n + |piece|] == piece
    ensures Inv(Keeping(s, n))
    ensures Next(Keeping(s, n), piece)
      == if n > 0 || |piece| >= 61 || ScanText(piece, JSON_MAX_DEPTH).result.INCOMPLETE? then Step(Keeping(s, n + |piece|), None, Ok)
         else Step(IDLE, Some(piece), Ok)
  {
    hide ScanText, Deliverable, Inv, Next;
    var ch, m := Keeping(s, n), n + |piece|;
    NumberBegins(s, m);
    if n > 0 {
      NumberBegins(s, n);
    }
    assert ch.buffer + piece == s[..m];
    assert n == 0 ==> piece == s[..m];
    assert n == 0 ==> piece[0] == s[0];
    assert [LF][0] == LF && [CR][0] == CR && [CR, LF][0] == CR;
    FragmentDecided(ch, piece);
    KeptOrDelivered(ch, s[..m], |piece|, Next(ch, piece));
  }

  lemma KeptOrDelivered(ch: Channel, all: Text, size: nat, step: Step)
    requires |all| <= JSON_MAX_SIZE && Collects(ch, all, size, step)
    requires var scan := ScanText(all, JSON_MAX_DEPTH);
      scan.rootKind.RootNumber? && !scan.result.INVALID? && (scan.result.COMPLETE? ==> scan.valueEnd == |all| && Deliverable(all))
    ensures step == if ch.numberWaiting || size >= 61 || ScanText(all, JSON_MAX_DEPTH).result.INCOMPLETE?
                    then Step(ch.(buffer := all, numberWaiting := true), None, Ok)
                    else Step(IDLE, Some(all), Ok)
  {
    hide ScanText, Deliverable;
    forall d: Text, t: Text | EndsIn(all, d, t) ensures ScanText(all, JSON_MAX_DEPTH).result.COMPLETE? {
      SplitScans(d, t);
    }
  }

  /** The number was held back from its first piece on. */
  predicate HeldBack(pieces: seq<Text>) {
    pieces != [] && (|pieces[0]| >= 61 || ScanText(pieces[0], JSON_MAX_DEPTH).result.INCOMPLETE?)
  }

  lemma {:induction false} NumberIsKept(s: Text, n: nat, pieces: seq<Text>)
    requires IsNumberText(s) && 0 < n <= |s| && IsCut(pieces, s[n..])
    ensures Inv(Keeping(s, n)) && Run(Keeping(s, n), pieces) == Trace(Keeping(s, |s|), [], true)
    decreases |s| - n
  {
    hide IsNumberText, Inv, Next, IsCut;
    NumberBegins(s, n);
    if n == |s| {
      CutEmpty(pieces, s[n..]);
    } else {
      CutNotEmpty(pieces, s[n..]);
      CutTail(pieces, s[n..]);
      var m := n + |pieces[0]|;
      assert s[n..m] == s[n..][..|pieces[0]|];
      NumberPiece(s, n, pieces[0]);
      assert s[n..][|pieces[0]|..] == s[m..];
      NumberIsKept(s, m, pieces[1..]);
    }
  }

  /**
   * A number in any pieces and then an empty fragment is delivered by the empty fragment, and not before,
   * exactly if its first piece fills a report or does not read as a number yet.
   */
  lemma NumberNeedsEmptyFragment(s: Text, pieces: seq<Text>)
    requires IsNumberText(s) && IsCut(pieces, s)
    ensures Run(IDLE, pieces + [[]]) == Trace(IDLE, [s], true) <==> HeldBack(pieces)
    ensures HeldBack(pieces) ==> Run(IDLE, pieces).delivered == []
  {
    hide IsNumberText, Inv, Next, IsCut, ScanText;
    NumberScans(s);
    CutNotEmpty(pieces, s);
    CutTail(pieces, s);
    var n := |pieces[0]|;
    NumberBegins(s, n);
    NumberBegins(s, |s|);
    assert s[..0] == [] && s[0..n] == s[..n] && Keeping(s, 0) == IDLE;
    NumberPiece(s, 0, pieces[0]);
    RunAppend(IDLE, pieces, [[]]);
    RunStep(IDLE, pieces);
    if HeldBack(pieces) {
      NumberIsKept(s, n, pieces[1..]);
      assert s[..|s|] == s;
      EmptyFragmentDelivers(Keeping(s, |s|));
    } else {
      TooEarly(s, pieces);
    }
  }

  lemma NumberScans(s: Text)
    requires IsNumberText(s)
    ensures s != [] && ScanText(s, JSON_MAX_DEPTH).result.COMPLETE?
  {
  }

  /** Delivered at the first piece, the number cannot be delivered again by the empty fragment. */
  lemma TooEarly(s: Text, pieces: seq<Text>)
    requires Inv(IDLE) && pieces != [] && Next(IDLE, pieces[0]) == Step(IDLE, Some(pieces[0]), Ok) && IsCut(pieces, s)
    ensures Run(IDLE, pieces + [[]]) != Trace(IDLE, [s], true)
  {
    hide Inv, Next, ScanText;
    RunStep(IDLE, pieces + [[]]);
    assert (pieces + [[]])[1..] == pieces[1..] + [[]];
    if pieces[1..] == [] {
      EmptyFragmentDelivers(IDLE);
      EmptyIsIncomplete();
      DeliverableIs([]);
    } else {
      assert Run(IDLE, pieces + [[]]).delivered[0] == pieces[0];
      CutTail(pieces, s);
      CutTail(pieces[1..], s[|pieces[0]|..]);
    }
  }

  // ---------------------------------------------------------------- any texts

  /** A text in pieces: with any terminator or none; or a number that is held back, and an empty fragment. */
  datatype Parcel = Delimited(message: Message, cut: seq<Text>) | Held(number: Text, cut: seq<Text>)

  ghost predicate IsParcel(p: Parcel) {
    match p
    case Delimited(m, cut) => IsMessage(m) && IsCut(cut, m.text + m.terminator)
    case Held(s, cut) => IsNumberText(s) && IsCut(cut, s) && HeldBack(cut)
  }

  function FragmentsOf(p: Parcel): seq<Text> {
    if p.Delimited? then p.cut else p.cut + [[]]
  }

  function TextOf(p: Parcel): Text {
    if p.Delimited? then p.message.text else p.number
  }

  function AllFragments(parcels: seq<Parcel>): seq<Text> {
    if parcels == [] then [] else FragmentsOf(parcels[0]) + AllFragments(parcels[1..])
  }

  function AllTexts(parcels: seq<Parcel>): seq<Text> {
    if parcels == [] then [] else [TextOf(parcels[0])] + AllTexts(parcels[1..])
  }

  lemma ParcelArrives(p: Parcel)
    requires IsParcel(p)
    ensures Run(IDLE, FragmentsOf(p)) == Trace(IDLE, [TextOf(p)], true)
  {
    hide IsMessage, IsNumberText, IsCut, HeldBack, Run;
    match p
    case Delimited(m, cut) =>
      FragmentationIndependence([m], [cut]);
      assert Flatten([cut]) == cut && Texts([m]) == [m.text] by { OneMessage(m, cut); }
    case Held(s, cut) =>
      NumberNeedsEmptyFragment(s, cut);
  }

  lemma OneMessage(m: Message, cut: seq<Text>)
    ensures Flatten([cut]) == cut && Texts([m]) == [m.text]
  {
    assert [cut][1..] == [] && [m][1..] == [];
  }

  /** Objects, arrays, strings, literals and numbers one after the other, each in any pieces: exactly these texts come out. */
  lemma {:induction false} EveryParcelArrives(parcels: seq<Parcel>)
    requires forall i :: 0 <= i < |parcels| ==> IsParcel(parcels[i])
    ensures Run(IDLE, AllFragments(parcels)) == Trace(IDLE, AllTexts(parcels), true)
  {
    hide IsParcel, FragmentsOf, Inv, Next;
    IdleIsSound();
    if parcels != [] {
      ParcelArrives(parcels[0]);
      EveryParcelArrives(parcels[1..]);
      RunAppend(IDLE, FragmentsOf(parcels[0]), AllFragments(parcels[1..]));
    }
  }
}
