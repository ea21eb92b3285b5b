/** Runs of one channel: conservation over any run, and independence of how messages are cut. */
module ChannelRuns {
  import opened Bytes
  import opened JsonSyntax
  import opened JsonPrefix
  import opened ChannelSpec

  /** The outcome of a run: the last state, the delivered values in order, and whether no call failed. */
  datatype Trace = Trace(channel: Channel, delivered: seq<Text>, clean: bool)

  function Values(delivered: Option<Text>): seq<Text> {
    match delivered
    case None => []
    case Some(value) => [value]
  }

  function Next(ch: Channel, fragment: Text): (step: Step)
    requires Inv(ch)
    ensures Inv(step.channel)
  {
    IngestAccounts(ch, fragment);
    Ingest(ch, fragment)
  }

  function Run(ch: Channel, fragments: seq<Text>): (t: Trace)
    requires Inv(ch)
    ensures Inv(t.channel)
    decreases |fragments|
  {
    hide Inv, Ingest;
    if fragments == [] then Trace(ch, [], true)
    else
      var step := Next(ch, fragments[0]);
      var rest := Run(step.channel, fragments[1..]);
      Trace(rest.channel, Values(step.delivered) + rest.delivered, step.status == Ok && rest.clean)
  }

  function Concat(parts: seq<Text>): Text {
    if parts == [] then [] else parts[0] + Concat(parts[1..])
  }

  lemma {:induction false} ConcatAppend(a: seq<Text>, b: seq<Text>)
    ensures Concat(a + b) == Concat(a) + Concat(b)
  {
    if a == [] {
      assert a + b == b;
    } else {
      assert (a + b)[1..] == a[1..] + b;
      ConcatAppend(a[1..], b);
    }
  }

  lemma RunStep(ch: Channel, fragments: seq<Text>)
    requires Inv(ch)
    ensures if fragments == [] then Run(ch, fragments) == Trace(ch, [], true)
            else
              var step := Next(ch, fragments[0]);
              var rest := Run(step.channel, fragments[1..]);
              Run(ch, fragments) == Trace(rest.channel, Values(step.delivered) + rest.delivered, step.status == Ok && rest.clean)
  {
    hide Inv, Next;
  }

  lemma {:induction false} RunAppend(ch: Channel, a: seq<Text>, b: seq<Text>)
    requires Inv(ch)
    ensures var first := Run(ch, a);
      var second := Run(first.channel, b);
      Run(ch, a + b) == Trace(second.channel, first.delivered + second.delivered, first.clean && second.clean)
    decreases |a|
  {
    hide Inv, Next, Run;
    RunStep(ch, a);
    if a == [] {
      assert a + b == b;
      assert [] + Run(ch, b).delivered == Run(ch, b).delivered;
    } else {
      var step := Next(ch, a[0]);
      RunAppend(step.channel, a[1..], b);
      assert (a + b)[1..] == a[1..] + b;
      RunStep(ch, a + b);
      var first := Run(step.channel, a[1..]);
      var second := Run(first.channel, b);
      assert Values(step.delivered) + (first.delivered + second.delivered)
          == (Values(step.delivered) + first.delivered) + second.delivered;
    }
  }

  lemma {:induction false} DeliveredIsDeliverable(ch: Channel, fragments: seq<Text>)
    requires Inv(ch)
    ensures forall i :: 0 <= i < |Run(ch, fragments).delivered| ==> Deliverable(Run(ch, fragments).delivered[i])
    decreases |fragments|
  {
    hide Deliverable, Ingest;
    if fragments != [] {
      IngestAccounts(ch, fragments[0]);
      DeliveredIsDeliverable(Next(ch, fragments[0]).channel, fragments[1..]);
    }
  }

  // ---------------------------------------------------------------- conservation

  /** What one call finishes: a value, if any, and a line terminator. */
  datatype Segment = Segment(value: Option<Text>, terminator: Text)

  function SegmentBytes(segment: Segment): Text {
    (match segment.value case None => [] case Some(v) => v) + segment.terminator
  }

  function AllSegmentBytes(segments: seq<Segment>): Text {
    if segments == [] then [] else SegmentBytes(segments[0]) + AllSegmentBytes(segments[1..])
  }

  function SegmentValues(segments: seq<Segment>): seq<Text> {
    if segments == [] then [] else Values(segments[0].value) + SegmentValues(segments[1..])
  }

  /** Nothing, or the one segment that a call finishes. */
  function Finished(step: Step, taken: Text): seq<Segment> {
    match step.delivered
    case Some(v) => if |v| <= |taken| then [Segment(Some(v), taken[|v|..])] else []
    case None => if step.channel == IDLE then [Segment(None, taken)] else []
  }

  lemma StepConserves(ch: Channel, fragment: Text)
    requires Inv(ch) && Next(ch, fragment).status == Ok
    ensures var step, taken := Next(ch, fragment), Received(ch) + fragment;
      var done := Finished(step, taken);
      taken == AllSegmentBytes(done) + Received(step.channel)
      && SegmentValues(done) == Values(step.delivered)
      && forall i :: 0 <= i < |done| ==> IsTerminator(done[i].terminator)
  {
    hide Ingest, Inv, Deliverable;
    IngestAccounts(ch, fragment);
    var step, taken := Next(ch, fragment), Received(ch) + fragment;
    if step.channel == IDLE {
      assert Received(IDLE) == [];
    }
  }

  lemma {:induction false} SegmentsAppend(a: seq<Segment>, b: seq<Segment>)
    ensures AllSegmentBytes(a + b) == AllSegmentBytes(a) + AllSegmentBytes(b)
    ensures SegmentValues(a + b) == SegmentValues(a) + SegmentValues(b)
  {
    hide SegmentBytes, Values;
    if a == [] {
      assert a + b == b;
    } else {
      assert (a + b)[1..] == a[1..] + b;
      SegmentsAppend(a[1..], b);
    }
  }

  /**
   * Conservation: in a run without errors the fragments, put together, are the delivered values,
   * each followed by at most one line terminator, stray terminators between them, and what the
   * channel still holds.
   */
  lemma {:induction false} RunConserves(ch: Channel, fragments: seq<Text>) returns (segments: seq<Segment>)
    requires Inv(ch) && Run(ch, fragments).clean
    ensures Received(ch) + Concat(fragments) == AllSegmentBytes(segments) + Received(Run(ch, fragments).channel)
    ensures SegmentValues(segments) == Run(ch, fragments).delivered
    ensures forall i :: 0 <= i < |segments| ==> IsTerminator(segments[i].terminator)
    decreases |fragments|
  {
    hide Next, Inv, Received, Finished;
    if fragments == [] {
      segments := [];
    } else {
      var step, taken := Next(ch, fragments[0]), Received(ch) + fragments[0];
      var done := Finished(step, taken);
      StepConserves(ch, fragments[0]);
      var rest := RunConserves(step.channel, fragments[1..]);
      segments := done + rest;
      hide AllSegmentBytes, SegmentValues;
      SegmentsAppend(done, rest);
      var kept := Received(Run(step.channel, fragments[1..]).channel);
      Associative(Received(ch), fragments[0], Concat(fragments[1..]));
      Associative(AllSegmentBytes(done), Received(step.channel), Concat(fragments[1..]));
      Associative(AllSegmentBytes(done), AllSegmentBytes(rest), kept);
    }
  }

  lemma Associative(a: Text, b: Text, c: Text)
    ensures (a + b) + c == a + (b + c)
  {
  }

  // ---------------------------------------------------------------- fragmentation independence

  /** A message: a JSON text whose root is no number, without space around it, and a line terminator or nothing. */
  datatype Message = Message(text: Text, terminator: Text)

  predicate Trimmed(s: Text) {
    var scan := ScanText(s, JSON_MAX_DEPTH);
    0 < |s| <= JSON_MAX_SIZE && scan.result.COMPLETE? && !scan.rootKind.RootNumber?
    && scan.valueEnd == |s| && !IsSpace(s[0])
  }

  predicate IsMessage(m: Message) {
    Trimmed(m.text) && IsTerminator(m.terminator)
  }

  /** Any way to cut a text into non-empty pieces that fit a report. */
  predicate IsCut(pieces: seq<Text>, whole: Text) {
    Concat(pieces) == whole && forall i :: 0 <= i < |pieces| ==> 1 <= |pieces[i]| <= FRAGMENT_MAX
  }

  lemma CutTail(pieces: seq<Text>, whole: Text)
    requires IsCut(pieces, whole) && pieces != []
    ensures 1 <= |pieces[0]| <= FRAGMENT_MAX && pieces[0] <= whole && IsCut(pieces[1..], whole[|pieces[0]|..])
  {
  }

  lemma CutNotEmpty(pieces: seq<Text>, whole: Text)
    requires IsCut(pieces, whole) && whole != []
    ensures pieces != []
  {
  }

  lemma CutEmpty(pieces: seq<Text>, whole: Text)
    requires IsCut(pieces, whole) && whole == []
    ensures pieces == []
  {
  }

  lemma {:induction false} LoneLf(ch: Channel, pieces: seq<Text>)
    requires Inv(ch) && IsCut(pieces, [LF]) && ch.pendingCr
    ensures Run(ch, pieces) == Trace(IDLE, if ch.pendingHasDelivery then [ch.buffer] else [], true)
  {
    CutNotEmpty(pieces, [LF]);
    CutTail(pieces, [LF]);
    assert pieces[0] == [LF];
    assert [LF][1..] == [];
    CutEmpty(pieces[1..], []);
    assert ch.buffer[..ch.pendingLen] == ch.buffer;
    assert Run(Next(ch, pieces[0]).channel, pieces[1..]) == Trace(IDLE, [], true);
  }

  /** A terminator that arrives after the value was delivered is dropped, however it is cut. */
  lemma LateTerminator(pieces: seq<Text>, terminator: Text)
    requires IsTerminator(terminator) && IsCut(pieces, terminator)
    ensures Run(IDLE, pieces) == Trace(IDLE, [], true)
  {
    if terminator == [] {
      CutEmpty(pieces, []);
    } else {
      CutNotEmpty(pieces, terminator);
      CutTail(pieces, terminator);
      var rest := terminator[|pieces[0]|..];
      if rest == [] {
        assert pieces[0] == terminator;
        CutEmpty(pieces[1..], rest);
      } else {
        assert terminator == [CR, LF] && pieces[0] == [CR] && rest == [LF];
        LoneLf(Next(IDLE, pieces[0]).channel, pieces[1..]);
      }
      var step := Next(IDLE, pieces[0]);
      assert Values(step.delivered) + Run(step.channel, pieces[1..]).delivered == [];
    }
  }

  /** The state in which a channel waits for more of a text. */
  function Holding(s: Text, n: nat): Channel
    requires n <= |s|
  {
    Channel(s[..n], false, false, false, 0)
  }

  lemma ProperPrefixIsIncomplete(s: Text, n: nat)
    requires Trimmed(s) && n < |s|
    ensures ScanText(s[..n], JSON_MAX_DEPTH).result.INCOMPLETE?
    ensures !ScanText(s[..n], JSON_MAX_DEPTH).rootKind.RootNumber?
    ensures Inv(Holding(s, n))
  {
    ScanPrefix(s[..n], s, JSON_MAX_DEPTH);
  }

  /** A piece that does not reach the end of the text is kept. */
  lemma KeepPiece(s: Text, n: nat, piece: Text)
    requires Trimmed(s) && piece != [] && n + |piece| < |s| && s[n..n + |piece|] == piece
    ensures Inv(Holding(s, n)) && Next(Holding(s, n), piece) == Step(Holding(s, n + |piece|), None, Ok)
  {
    hide ScanText;
    ProperPrefixIsIncomplete(s, n);
    ProperPrefixIsIncomplete(s, n + |piece|);
    assert s[..n] + piece == s[..n + |piece|];
    assert piece[..|piece|] == piece;
    assert n == 0 ==> piece[0] == s[0];
    assert [LF][0] == LF && [CR][0] == CR && [CR, LF][0] == CR;
  }

  /** A text with (a part of) its terminator behind it. */
  lemma TerminatedScan(s: Text, t: Text)
    requires Trimmed(s) && (t == [] || t == [CR] || t == [LF] || t == [CR, LF])
    ensures ScanText(s + t, JSON_MAX_DEPTH) == ScanText(s, JSON_MAX_DEPTH)
    ensures SkipBlanks(s + t, |s|) == |s|
  {
    ScanThenSpace(s, s + t, JSON_MAX_DEPTH);
  }

  /** How a text that just arrived in full is handled, with a part `t` of the terminator behind it. */
  lemma TextArrived(s: Text, t: Text, fragmentLen: nat)
    requires Trimmed(s) && (t == [] || t == [CR] || t == [LF] || t == [CR, LF])
    ensures var step := HandleComplete(Channel(s + t, false, false, false, 0), ScanText(s, JSON_MAX_DEPTH), fragmentLen);
      step == if t == [CR] then Step(Channel(s, false, true, true, |s|), None, Ok) else Step(IDLE, Some(s), Ok)
  {
    hide ScanText;
    TerminatedScan(s, t);
    assert (s + t)[..|s|] == s;
  }

  /** The same when the terminator does not fit into the buffer any more. */
  lemma TextOverflowed(s: Text, t: Text, over: Text)
    requires Trimmed(s) && over != [] && (t + over == [CR] || t + over == [LF] || t + over == [CR, LF])
    ensures var step := HandleOverflow(Channel(s + t, false, false, false, 0), ScanText(s, JSON_MAX_DEPTH), over);
      step == if t + over == [CR] then Step(Channel(s, false, true, true, |s|), None, Ok) else Step(IDLE, Some(s), Ok)
  {
    hide ScanText;
    assert t == [] || (t == [CR] && over == [LF]) by {
      assert t + over == [CR, LF] && |t| == 1 ==> t == (t + over)[..1] && over == (t + over)[1..];
    }
    if t == [] {
      assert t + over == over && s + t == s;
    }
    TerminatedScan(s, t);
    assert (s + t)[..|s|] == s;
  }

  lemma LastPieceIsAppended(s: Text, n: nat, piece: Text, t: Text)
    requires Trimmed(s) && n < |s| && s[n..] + t == piece && Inv(Holding(s, n))
    ensures Next(Holding(s, n), piece) == Append(Holding(s, n), piece)
  {
    hide ScanText, HandleOverflow, HandleComplete, Append;
    assert piece[0] == s[n];
    assert [LF][0] == LF && [CR][0] == CR && [CR, LF][0] == CR;
  }

  /** The piece in which the text ends, with a part `t` of the terminator. */
  lemma LastPiece(s: Text, n: nat, piece: Text, t: Text)
    requires Trimmed(s) && n < |s| && s[n..] + t == piece && (t == [] || t == [CR] || t == [LF] || t == [CR, LF])
    ensures Inv(Holding(s, n))
    ensures t != [CR] ==> Next(Holding(s, n), piece) == Step(IDLE, Some(s), Ok)
    ensures t == [CR] ==> Next(Holding(s, n), piece) == Step(Channel(s, false, true, true, |s|), None, Ok)
  {
    hide ScanText, HandleOverflow, HandleComplete, Next, Inv;
    ProperPrefixIsIncomplete(s, n);
    LastPieceIsAppended(s, n, piece, t);
    var room := JSON_MAX_SIZE - |s|;
    if |t| <= room {
      assert s[..n] + piece == s + t;
      TerminatedScan(s, t);
      assert piece[..|piece|] == piece;
      TextArrived(s, t, |piece|);
    } else {
      var copied := JSON_MAX_SIZE - n;
      var fits, over := t[..room], t[room..];
      assert s[..n] + piece[..copied] == s + fits;
      assert piece[copied..] == over && fits + over == t;
      TerminatedScan(s, fits);
      TextOverflowed(s, fits, over);
    }
  }

  /** One message, from any of its positions on. */
  lemma {:induction false} RestOfMessage(m: Message, n: nat, pieces: seq<Text>)
    requires IsMessage(m) && n < |m.text| && IsCut(pieces, m.text[n..] + m.terminator)
    ensures Inv(Holding(m.text, n)) && Run(Holding(m.text, n), pieces) == Trace(IDLE, [m.text], true)
    decreases |m.text| - n
  {
    hide Next, Inv, Trimmed, IsCut, Concat;
    var s, whole := m.text, m.text[n..] + m.terminator;
    ProperPrefixIsIncomplete(s, n);
    CutNotEmpty(pieces, whole);
    CutTail(pieces, whole);
    var piece := pieces[0];
    var rest := whole[|piece|..];
    if n + |piece| < |s| {
      assert s[n..n + |piece|] == whole[..|piece|];
      KeepPiece(s, n, piece);
      assert rest == s[n + |piece|..] + m.terminator;
      RestOfMessage(m, n + |piece|, pieces[1..]);
      assert [] + [s] == [s];
    } else {
      var k := n + |piece| - |s|;
      var t := m.terminator[..k];
      assert piece == s[n..] + t && rest == m.terminator[k..];
      LastPiece(s, n, piece, t);
      var step := Next(Holding(s, n), piece);
      if t == [CR] {
        assert m.terminator[0] == t[0];
        assert m.terminator == [CR, LF] && rest == [LF];
        LoneLf(step.channel, pieces[1..]);
      } else {
        LateTerminator(pieces[1..], rest);
      }
      assert [s] + [] == [s] && [] + [s] == [s];
    }
  }

  /** Cuts of several messages: no piece spans two of them. */
  predicate AreCuts(messages: seq<Message>, cuts: seq<seq<Text>>) {
    |cuts| == |messages|
    && forall i :: 0 <= i < |messages| ==>
         IsMessage(messages[i]) && IsCut(cuts[i], messages[i].text + messages[i].terminator)
  }

  function Flatten(cuts: seq<seq<Text>>): seq<Text> {
    if cuts == [] then [] else cuts[0] + Flatten(cuts[1..])
  }

  function Texts(messages: seq<Message>): seq<Text> {
    if messages == [] then [] else [messages[0].text] + Texts(messages[1..])
  }

  /** Whatever the cuts, the channel delivers exactly the texts, in order, and ends idle. */
  lemma {:induction false} FragmentationIndependence(messages: seq<Message>, cuts: seq<seq<Text>>)
    requires AreCuts(messages, cuts)
    ensures Run(IDLE, Flatten(cuts)) == Trace(IDLE, Texts(messages), true)
  {
    if messages != [] {
      var m := messages[0];
      assert m.text[0..] == m.text && m.text[..0] == [];
      RestOfMessage(m, 0, cuts[0]);
      FragmentationIndependence(messages[1..], cuts[1..]);
      RunAppend(IDLE, cuts[0], Flatten(cuts[1..]));
    }
  }
}
