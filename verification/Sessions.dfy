/** The reports that one connection carries, and what a receiver at its other end makes of them. */
module Sessions {
  import opened Bytes
  import opened ChannelSpec
  import opened ChannelRuns
  import opened Encoding
  import opened FramingSpec
  import opened RouterSpec
  import opened RouterEpochs

  datatype Sent = Sent(channel: ChannelId, text: Text)

  /** The reports of one connection: whole texts, then possibly the beginning of one. */
  datatype Session = Session(reports: seq<Payload>, whole: seq<Sent>, torn: Option<Sent>)

  const NEW_SESSION: Session := Session([], [], None)

  predicate IsTransmission(out: Transmission, status: Status) {
    Encodable(out.text)
    && var all := Reports(out.channel, out.text);
       out.sent <= all && (status == Ok <==> out.sent == all)
  }

  predicate AllEncodable(whole: seq<Sent>) {
    forall i :: 0 <= i < |whole| ==> Encodable(whole[i].text)
  }

  /** The reports of whole texts, one after the other. */
  function AllReports(whole: seq<Sent>): seq<Payload>
    requires AllEncodable(whole)
  {
    if whole == [] then []
    else
      var n := |whole| - 1;
      AllReports(whole[..n]) + Reports(whole[n].channel, whole[n].text)
  }

  ghost predicate Torn(m: Sent, k: nat) {
    Encodable(m.text) && 0 < k < |Reports(m.channel, m.text)|
  }

  /** Whole texts, and then nothing or the beginning of one. */
  ghost predicate IsSession(session: Session) {
    AllEncodable(session.whole)
    && match session.torn
       case None => session.reports == AllReports(session.whole)
       case Some(m) =>
         exists k: nat :: Torn(m, k) && session.reports == AllReports(session.whole) + Reports(m.channel, m.text)[..k]
  }

  lemma OneMore(whole: seq<Sent>, m: Sent)
    requires AllEncodable(whole) && Encodable(m.text)
    ensures AllEncodable(whole + [m]) && AllReports(whole + [m]) == AllReports(whole) + Reports(m.channel, m.text)
  {
    hide Encodable, Reports;
    assert (whole + [m])[..|whole|] == whole;
  }

  /** What one more transmission makes of a session that is not torn. */
  function Extended(session: Session, out: Transmission, status: Status): Session {
    if status == Ok then
      session.(reports := session.reports + out.sent, whole := session.whole + [Sent(out.channel, out.text)])
    else session.(reports := session.reports + out.sent, torn := Some(Sent(out.channel, out.text)))
  }

  lemma ExtendedIsSession(session: Session, out: Transmission, status: Status)
    requires IsSession(session) && session.torn.None? && IsTransmission(out, status) && out.sent != []
    ensures IsSession(Extended(session, out, status))
  {
    hide Encodable, Reports, AllReports;
    var m, all := Sent(out.channel, out.text), Reports(out.channel, out.text);
    if status == Ok {
      OneMore(session.whole, m);
    } else {
      assert Torn(m, |out.sent|) && all[..|out.sent|] == out.sent;
    }
  }

  // ---------------------------------------------------------------- what a decoder makes of a session

  function TextsOn(whole: seq<Sent>, id: ChannelId): seq<Text> {
    if whole == [] then []
    else
      var n := |whole| - 1;
      TextsOn(whole[..n], id) + if whole[n].channel == id then [whole[n].text] else []
  }

  function FragmentsOn(whole: seq<Sent>, id: ChannelId): seq<Text>
    requires AllEncodable(whole)
  {
    if whole == [] then []
    else
      var n := |whole| - 1;
      FragmentsOn(whole[..n], id) + if whole[n].channel == id then Fragments(whole[n].text, 0) else []
  }

  predicate AreFragments(fragments: seq<Text>) {
    forall i :: 0 <= i < |fragments| ==> |fragments[i]| <= FRAGMENT_MAX
  }

  lemma {:induction false} ForConcat(a: seq<Payload>, b: seq<Payload>, id: ChannelId)
    ensures For(a + b, id) == For(a, id) + For(b, id)
  {
    hide ChannelOf;
    if a == [] {
      assert a + b == b;
    } else {
      assert (a + b)[1..] == a[1..] + b;
      ForConcat(a[1..], b, id);
    }
  }

  lemma {:induction false} ForPayloads(channel: ChannelId, fragments: seq<Text>, id: ChannelId)
    requires AreFragments(fragments)
    ensures For(Payloads(channel, fragments), id) == if channel == id then Payloads(channel, fragments) else []
    decreases |fragments|
  {
    hide ChannelOf;
    if fragments != [] {
      assert Payloads(channel, fragments)[1..] == Payloads(channel, fragments[1..]);
      ForPayloads(channel, fragments[1..], id);
    }
  }

  lemma ForReports(m: Sent, k: nat, id: ChannelId)
    requires Encodable(m.text) && k <= |Reports(m.channel, m.text)|
    ensures AreFragments(Fragments(m.text, 0)[..k])
    ensures For(Reports(m.channel, m.text)[..k], id)
      == if m.channel == id then Payloads(id, Fragments(m.text, 0)[..k]) else []
  {
    hide Encodable, Fragments, For;
    SafeMeans(m.text);
    FragmentsFit(m.text, 0);
    assert Reports(m.channel, m.text)[..k] == Payloads(m.channel, Fragments(m.text, 0)[..k]);
    ForPayloads(m.channel, Fragments(m.text, 0)[..k], id);
  }

  lemma PayloadsConcat(id: ChannelId, a: seq<Text>, b: seq<Text>)
    requires AreFragments(a) && AreFragments(b)
    ensures AreFragments(a + b) && Payloads(id, a + b) == Payloads(id, a) + Payloads(id, b)
  {
  }

  lemma {:induction false} WholeFragments(whole: seq<Sent>, id: ChannelId)
    requires AllEncodable(whole)
    ensures AreFragments(FragmentsOn(whole, id)) && For(AllReports(whole), id) == Payloads(id, FragmentsOn(whole, id))
    decreases |whole|
  {
    hide Encodable, Fragments, For, Reports;
    if whole != [] {
      var n := |whole| - 1;
      var m, before := whole[n], FragmentsOn(whole[..n], id);
      WholeFragments(whole[..n], id);
      SafeMeans(m.text);
      var all := Reports(m.channel, m.text);
      ForReports(m, |all|, id);
      assert all[..|all|] == all && Fragments(m.text, 0)[..|all|] == Fragments(m.text, 0);
      ForConcat(AllReports(whole[..n]), all, id);
      if m.channel == id {
        PayloadsConcat(id, before, Fragments(m.text, 0));
      } else {
        assert before + [] == before && Payloads(id, before) + [] == Payloads(id, before);
      }
    } else {
      assert For([], id) == [] by { NothingFor(id); }
    }
  }

  lemma NothingFor(id: ChannelId)
    ensures For([], id) == []
  {
  }

  predicate AllSafe(whole: seq<Sent>) {
    AllEncodable(whole) && forall i :: 0 <= i < |whole| ==> EncodeSafe(whole[i].text)
  }

  lemma SafeRuns(text: Text)
    requires Encodable(text) && EncodeSafe(text)
    ensures text != [] && Inv(IDLE) && Run(IDLE, Fragments(text, 0)) == Trace(IDLE, [text], true)
  {
    hide Fragments, Inv, EncodeSafe, Run;
    IdleIsSound();
    SafeMeans(text);
    RoundTripDecided(text);
  }

  lemma NothingRuns()
    ensures Inv(IDLE) && Run(IDLE, []) == Trace(IDLE, [], true)
  {
  }

  lemma {:induction false} RunOfWhole(whole: seq<Sent>, id: ChannelId)
    requires AllSafe(whole)
    ensures Inv(IDLE) && Run(IDLE, FragmentsOn(whole, id)) == Trace(IDLE, TextsOn(whole, id), true)
    decreases |whole|
  {
    hide Encodable, Fragments, Inv, EncodeSafe, Run;
    NothingRuns();
    if whole != [] {
      var n := |whole| - 1;
      var m, before := whole[n], FragmentsOn(whole[..n], id);
      assert AllSafe(whole[..n]);
      RunOfWhole(whole[..n], id);
      if m.channel == id {
        SafeRuns(m.text);
        RunAppend(IDLE, before, Fragments(m.text, 0));
      } else {
        assert before + [] == before && TextsOn(whole[..n], id) + [] == TextsOn(whole[..n], id);
      }
    }
  }

  lemma SafeMeans(text: Text)
    requires Encodable(text)
    ensures text != []
  {
  }

  ghost predicate SafeSession(session: Session) {
    AllSafe(session.whole)
    && (session.torn.Some? ==> Encodable(session.torn.value.text) && EncodeSafe(session.torn.value.text))
  }

  /** A fresh decoder gets the whole texts of a channel, in order, and nothing else. */
  lemma SessionDelivers(session: Session, id: ChannelId)
    requires IsSession(session) && SafeSession(session)
    ensures Delivered(session.reports, id) == TextsOn(session.whole, id)
  {
    hide Encodable, Fragments, Inv, Next, EncodeSafe, Reports, AllReports, For, TextsOn, FragmentsOn, Run, RunAlone;
    IdleIsSound();
    var whole := FragmentsOn(session.whole, id);
    WholeFragments(session.whole, id);
    RunOfWhole(session.whole, id);
    WellFormedRunsAsFragments(IDLE, id, whole);
    if session.torn.Some? {
      var m := session.torn.value;
      var k: nat :| Torn(m, k) && session.reports == AllReports(session.whole) + Reports(m.channel, m.text)[..k];
      ForConcat(AllReports(session.whole), Reports(m.channel, m.text)[..k], id);
      ForReports(m, k, id);
      if m.channel == id {
        SafeMeans(m.text);
        var part := Fragments(m.text, 0)[..k];
        PayloadsConcat(id, whole, part);
        SafePrefixIsSilent(m.text, k);
        RunAppend(IDLE, whole, part);
        WellFormedRunsAsFragments(IDLE, id, whole + part);
        assert TextsOn(session.whole, id) + [] == TextsOn(session.whole, id);
      } else {
        assert Payloads(id, whole) + [] == Payloads(id, whole);
      }
    }
  }

  function InputsOf(reports: seq<Payload>): seq<Input> {
    if reports == [] then [] else [Input(Usb, reports[0])] + InputsOf(reports[1..])
  }

  lemma {:induction false} InputsForChannel(reports: seq<Payload>, id: ChannelId)
    ensures PayloadsFor(InputsOf(reports), Usb, id) == For(reports, id)
  {
    hide ChannelOf;
    if reports != [] {
      InputsForChannel(reports[1..], id);
      assert InputsOf(reports)[1..] == InputsOf(reports[1..]);
      assert [] + For(reports[1..], id) == For(reports[1..], id);
    }
  }

  /** The framing layer of a receiver that has heard nothing yet. */
  function Receiver(generation: u32): (f: Framing)
    ensures FramingInv(f) && FixedAt(f, generation, 0)
  {
    Framing(Transport(IDLE, IDLE, generation, true), Transport(IDLE, IDLE, 0, true))
  }

  /** The framing layer of a receiver that hears the session from its beginning delivers just that. */
  lemma ReceiverReads(session: Session, generation: u32, id: ChannelId)
    requires IsSession(session) && SafeSession(session)
    ensures TextsFrom(RunInputs(Receiver(generation), InputsOf(session.reports), generation, 0).1, Usb, id)
      == TextsOn(session.whole, id)
  {
    hide RunInputs, IsSession, SafeSession;
    SessionDelivers(session, id);
    InputsForChannel(session.reports, id);
    InterleavingIsIrrelevant(Receiver(generation), InputsOf(session.reports), generation, 0, Usb, id);
  }
}
