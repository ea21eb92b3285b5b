/** `codex_framing_encode`, and exactly when the decoder gives back the text that was encoded. */
module Encoding {
  import opened Bytes
  import opened JsonSyntax
  import opened JsonPrefix
  import opened ChannelSpec
  import opened ChannelRuns

  /** How many octets the report at `offset` carries when the terminator does not fit behind the rest. */
  function Chunk(remaining: nat): (n: nat)
    requires remaining + 2 > FRAGMENT_MAX
    ensures 0 < n < remaining && n <= FRAGMENT_MAX
  {
    if remaining > FRAGMENT_MAX then FRAGMENT_MAX else remaining - 1
  }

  /** The contents of the reports for the octets of `json` from `offset` on. */
  function Fragments(json: Text, offset: nat): (f: seq<Text>)
    requires offset < |json|
    ensures f != []
    decreases |json| - offset
  {
    var remaining := |json| - offset;
    if remaining + 2 > FRAGMENT_MAX then
      var chunk := Chunk(remaining);
      [json[offset..offset + chunk]] + Fragments(json, offset + chunk)
    else [json[offset..] + [CR, LF]]
  }

  predicate Encodable(s: Text) {
    0 < |s| <= JSON_MAX_SIZE && ScanText(s, JSON_MAX_DEPTH).result.COMPLETE?
  }

  lemma {:induction false} FragmentsFit(json: Text, offset: nat)
    requires offset < |json|
    ensures forall i :: 0 <= i < |Fragments(json, offset)| ==> 1 <= |Fragments(json, offset)[i]| <= FRAGMENT_MAX
    ensures Concat(Fragments(json, offset)) == json[offset..] + [CR, LF]
    ensures 3 <= |Fragments(json, offset)[|Fragments(json, offset)| - 1]|
    decreases |json| - offset
  {
    var remaining := |json| - offset;
    if remaining + 2 > FRAGMENT_MAX {
      var chunk := Chunk(remaining);
      FragmentsFit(json, offset + chunk);
      assert json[offset..] == json[offset..offset + chunk] + json[offset + chunk..];
    } else {
      assert Concat([]) == [];
    }
  }

  /** The decoder gives back exactly the text, at the last report. */
  ghost predicate RoundTrips(s: Text)
    requires s != []
  {
    Run(IDLE, Fragments(s, 0)) == Trace(IDLE, [s], true)
  }

  /**
   * When the round trip works, in terms of the text alone. The reports are cut at the multiples of 61;
   * if 60 or 61 octets remain behind the last of these cuts, also in front of the last octet.
   */
  predicate EncodeSafe(s: Text)
    requires Encodable(s)
  {
    var n, end, start := |s|, ScanText(s, JSON_MAX_DEPTH).valueEnd, SkipSpace(s, 0);
    var lastCut := (n - 1) / FRAGMENT_MAX * FRAGMENT_MAX;
    var extraCut := n - lastCut >= 60;
    (forall i :: end <= i < n ==> IsBlank(s[i]))
    && if !ScanText(s, JSON_MAX_DEPTH).rootKind.RootNumber? then
         end == n || (end % FRAGMENT_MAX != 0 && !extraCut)
       else
         !extraCut
         || (end == n && (start < lastCut || !IsDigit(s[n - 2])))
         || (end == n - 1 && start < lastCut)
  }

  // ---------------------------------------------------------------- one report

  /** The channel holds the first `c` octets. */
  function At(s: Text, c: nat, waiting: bool): Channel
    requires c <= |s|
  {
    Channel(s[..c], waiting, false, false, 0)
  }

  /** A cut behind `c` octets, at the end of a report of `size` octets, makes the channel deliver. */
  predicate Early(s: Text, c: nat, size: nat, waiting: bool)
    requires c <= |s|
  {
    var scan := ScanText(s[..c], JSON_MAX_DEPTH);
    scan.result.COMPLETE?
    && if c > scan.valueEnd then size < FRAGMENT_MAX
       else !scan.rootKind.RootNumber? || (!waiting && size < FRAGMENT_MAX)
  }

  function StillWaiting(s: Text, c: nat, waiting: bool): bool
    requires c <= |s|
  {
    var scan := ScanText(s[..c], JSON_MAX_DEPTH);
    waiting || (scan.rootKind.RootNumber? && (scan.result.INCOMPLETE? || scan.valueEnd == c))
  }

  lemma DeliverableMeans(s: Text)
    requires Encodable(s)
    ensures Deliverable(s) <==> forall i :: ScanText(s, JSON_MAX_DEPTH).valueEnd <= i < |s| ==> IsBlank(s[i])
  {
    hide ScanText;
    var e := ScanText(s, JSON_MAX_DEPTH).valueEnd;
    if forall i :: e <= i < |s| ==> IsBlank(s[i]) {
      SkipBlanksTo(s, e, |s|);
    }
  }

  lemma CutScan(s: Text, c: nat)
    requires Encodable(s) && Deliverable(s) && c < |s|
    ensures var cut := ScanText(s[..c], JSON_MAX_DEPTH);
      !cut.result.INVALID?
      && (cut.result.COMPLETE? ==> AnalyzeTrailing(s[..c], cut.valueEnd) == JsonWhitespace(c))
  {
    hide ScanText;
    ScanPrefix(s[..c], s, JSON_MAX_DEPTH);
    DeliverableMeans(s);
    var cut := ScanText(s[..c], JSON_MAX_DEPTH);
    if cut.result.COMPLETE? {
      if c < ScanText(s, JSON_MAX_DEPTH).valueEnd {
        assert cut.valueEnd == c;
      }
      SkipBlanksTo(s[..c], cut.valueEnd, c);
    }
  }

  lemma ReportStep(s: Text, o: nat, c: nat, waiting: bool)
    requires Encodable(s) && Deliverable(s) && o < c < |s| && 59 <= c - o <= FRAGMENT_MAX
    requires Inv(At(s, o, waiting))
    ensures var step := Next(At(s, o, waiting), s[o..c]);
      step == if Early(s, c, c - o, waiting) then Step(IDLE, Some(s[..c]), Ok)
              else Step(At(s, c, StillWaiting(s, c, waiting)), None, Ok)
  {
    hide ScanText, Inv, AnalyzeTrailing, HandleOverflow, Flush, Deliverable;
    var piece := s[o..c];
    CutScan(s, c);
    assert s[..o] + piece == s[..c] && piece[..|piece|] == piece;
    assert s[..c][..c] == s[..c];
    assert Next(At(s, o, waiting), piece) == Append(At(s, o, waiting), piece);
  }

  /** A deliverable text with as much of the terminator as fits into the buffer. */
  lemma TerminatedText(s: Text, fits: Text)
    requires Encodable(s) && Deliverable(s) && (fits == [CR, LF] || fits == [CR] || fits == [])
    ensures ScanText(s + fits, JSON_MAX_DEPTH) == ScanText(s, JSON_MAX_DEPTH)
    ensures var e := ScanText(s, JSON_MAX_DEPTH).valueEnd;
      AnalyzeTrailing(s + fits, e) == if |fits| == 2 then ProtocolTerminator(|s|) else if |fits| == 1 then PendingCr(|s|) else JsonWhitespace(|s|)
  {
    hide ScanText, Deliverable;
    var e := ScanText(s, JSON_MAX_DEPTH).valueEnd;
    DeliverableMeans(s);
    ScanThenSpace(s, s + fits, JSON_MAX_DEPTH);
    SkipBlanksTo(s + fits, e, |s|);
  }

  lemma FinalStep(s: Text, o: nat, waiting: bool)
    requires Encodable(s) && Deliverable(s) && o < |s| && |s| - o <= 59
    requires Inv(At(s, o, waiting))
    ensures Next(At(s, o, waiting), s[o..] + [CR, LF]) == Step(IDLE, Some(s), Ok)
  {
    hide ScanText, Inv, Deliverable, AnalyzeTrailing;
    var piece := s[o..] + [CR, LF];
    assert Next(At(s, o, waiting), piece) == Append(At(s, o, waiting), piece);
    var room := JSON_MAX_SIZE - |s|;
    assert s[..o] + piece == s + [CR, LF];
    if room >= 2 {
      TerminatedText(s, [CR, LF]);
      assert piece[..|piece|] == piece;
      assert (s + [CR, LF])[..|s|] == s;
    } else {
      var fits, over := if room == 1 then [CR] else [], if room == 1 then [LF] else [CR, LF];
      TerminatedText(s, fits);
      var copied := JSON_MAX_SIZE - o;
      assert piece[..copied] == s[o..] + fits && piece[copied..] == over;
      assert s[..o] + piece[..copied] == s + fits;
      assert (s + fits)[..|s|] == s;
    }
  }

  // ---------------------------------------------------------------- all reports

  /** Some report before the last makes the channel deliver. */
  predicate AnyEarly(s: Text, o: nat, waiting: bool)
    requires o < |s|
    decreases |s| - o
  {
    var remaining := |s| - o;
    remaining + 2 > FRAGMENT_MAX
    && (Early(s, o + Chunk(remaining), Chunk(remaining), waiting)
        || AnyEarly(s, o + Chunk(remaining), StillWaiting(s, o + Chunk(remaining), waiting)))
  }

  lemma {:induction false} RunOfFragments(s: Text, o: nat, waiting: bool)
    requires Encodable(s) && Deliverable(s) && o < |s| && Inv(At(s, o, waiting))
    ensures !AnyEarly(s, o, waiting) ==> Run(At(s, o, waiting), Fragments(s, o)) == Trace(IDLE, [s], true)
    ensures AnyEarly(s, o, waiting) ==>
      Run(At(s, o, waiting), Fragments(s, o)).delivered != [] && Run(At(s, o, waiting), Fragments(s, o)).delivered[0] != s
    decreases |s| - o
  {
    hide Encodable, Deliverable, Inv, Early, StillWaiting, Next;
    var remaining := |s| - o;
    var f := Fragments(s, o);
    if remaining + 2 > FRAGMENT_MAX {
      var c := o + Chunk(remaining);
      ReportStep(s, o, c, waiting);
      assert f[0] == s[o..c] && f[1..] == Fragments(s, c);
      var step := Next(At(s, o, waiting), f[0]);
      if Early(s, c, c - o, waiting) {
        assert Values(step.delivered) == [s[..c]];
      } else {
        RunOfFragments(s, c, StillWaiting(s, c, waiting));
        assert Values(None) + Run(step.channel, f[1..]).delivered == Run(step.channel, f[1..]).delivered;
      }
    } else {
      FinalStep(s, o, waiting);
      assert f[0] == s[o..] + [CR, LF] && f[1..] == [];
      assert [s] + [] == [s];
    }
  }

  /** Up to the last report a safe text is only collected. */
  lemma {:induction false} PrefixDeliversNothing(s: Text, o: nat, waiting: bool, k: nat) returns (c: nat, w: bool)
    requires Encodable(s) && Deliverable(s) && o < |s| && Inv(At(s, o, waiting))
    requires !AnyEarly(s, o, waiting) && k < |Fragments(s, o)|
    ensures c < |s| && Inv(At(s, c, w))
    ensures Run(At(s, o, waiting), Fragments(s, o)[..k]) == Trace(At(s, c, w), [], true)
    decreases |s| - o
  {
    hide Encodable, Deliverable, Inv, Early, StillWaiting, Next;
    var f := Fragments(s, o);
    if k == 0 {
      c, w := o, waiting;
      assert f[..0] == [];
    } else {
      var m := o + Chunk(|s| - o);
      ReportStep(s, o, m, waiting);
      assert f[0] == s[o..m] && f[1..] == Fragments(s, m);
      assert f[..k][0] == f[0] && f[..k][1..] == f[1..][..k - 1];
      c, w := PrefixDeliversNothing(s, m, StillWaiting(s, m, waiting), k - 1);
      assert Values(None) + [] == [];
    }
  }

  // ---------------------------------------------------------------- the condition in closed form

  /** A cut of a text whose root is no number. */
  lemma CutOfOther(s: Text, c: nat)
    requires Encodable(s) && !ScanText(s, JSON_MAX_DEPTH).rootKind.RootNumber? && c < |s|
    ensures var cut, whole := ScanText(s[..c], JSON_MAX_DEPTH), ScanText(s, JSON_MAX_DEPTH);
      if c < whole.valueEnd then cut.result.INCOMPLETE? else cut == whole
  {
    ScanPrefix(s[..c], s, JSON_MAX_DEPTH);
  }

  lemma {:induction false} OtherRoots(s: Text, k: nat, waiting: bool)
    requires Encodable(s) && !ScanText(s, JSON_MAX_DEPTH).rootKind.RootNumber?
    requires FRAGMENT_MAX * k < |s|
    ensures var n, end := |s|, ScanText(s, JSON_MAX_DEPTH).valueEnd;
      AnyEarly(s, FRAGMENT_MAX * k, waiting) <==>
      end < n && ((FRAGMENT_MAX * k < end && end % FRAGMENT_MAX == 0) || n - (n - 1) / FRAGMENT_MAX * FRAGMENT_MAX >= 60)
    decreases |s| - FRAGMENT_MAX * k
  {
    hide ScanText;
    var n, end, o := |s|, ScanText(s, JSON_MAX_DEPTH).valueEnd, FRAGMENT_MAX * k;
    var remaining := n - o;
    if remaining > FRAGMENT_MAX {
      var c := o + FRAGMENT_MAX;
      assert c == FRAGMENT_MAX * (k + 1);
      CutOfOther(s, c);
      OtherRoots(s, k + 1, StillWaiting(s, c, waiting));
      Multiples(k, end);
    } else {
      LastMultiple(n, k);
      Multiples(k, end);
      if remaining >= 60 {
        CutOfOther(s, n - 1);
      }
    }
  }

  lemma LastMultiple(n: nat, k: nat)
    requires FRAGMENT_MAX * k < n <= FRAGMENT_MAX * k + FRAGMENT_MAX
    ensures (n - 1) / FRAGMENT_MAX * FRAGMENT_MAX == FRAGMENT_MAX * k
  {
    assert (n - 1) / FRAGMENT_MAX == k;
  }

  lemma Multiples(k: nat, e: nat)
    ensures FRAGMENT_MAX * k < e <= FRAGMENT_MAX * (k + 1) ==> (e % FRAGMENT_MAX == 0 <==> e == FRAGMENT_MAX * (k + 1))
  {
    if FRAGMENT_MAX * k < e < FRAGMENT_MAX * (k + 1) {
      assert e / FRAGMENT_MAX == k;
    }
  }

  /** The last octet of a number is a digit, and a number that lacks something does not end in one. */
  lemma NumberTail(s: Text, p: nat)
    requires p < |s|
    ensures Number(s, p).Complete? ==> IsDigit(s[Number(s, p).end - 1])
    ensures Number(s, p).Incomplete? ==> !IsDigit(s[|s| - 1])
  {
  }

  /** In front of the end of a number, UTF-8 is never cut. */
  lemma NumberCutIsUtf8(s: Text, c: nat)
    requires Encodable(s) && ScanText(s, JSON_MAX_DEPTH).rootKind.RootNumber?
    requires c < ScanText(s, JSON_MAX_DEPTH).valueEnd
    ensures Utf8(s[..c], 0).COMPLETE?
  {
    hide Utf8, Number, Value;
    var start := SkipSpace(s, 0);
    SkipSpaceTwice(s, 0);
    Utf8Extends(s[..c], s, 0);
    NumberIsValue(s, start);
    NumberOctets(s, start);
    assert IsSpace(s[c]) || IsNumberByte(s[c]);
  }

  /** A cut inside a number text, after its start. */
  lemma CutInsideNumber(s: Text, c: nat)
    requires Encodable(s) && ScanText(s, JSON_MAX_DEPTH).rootKind.RootNumber?
    requires SkipSpace(s, 0) < c < ScanText(s, JSON_MAX_DEPTH).valueEnd
    ensures ScanText(s[..c], JSON_MAX_DEPTH).rootKind.RootNumber?
    ensures ScanText(s[..c], JSON_MAX_DEPTH).result.COMPLETE? <==> IsDigit(s[c - 1])
  {
    hide Utf8, Number, SkipSpace, Value;
    var t, start := s[..c], SkipSpace(s, 0);
    NumberCutIsUtf8(s, c);
    ScanPrefix(t, s, JSON_MAX_DEPTH);
    SkipSpaceIs(t, start);
    SkipSpaceTwice(t, 0);
    NumberTail(t, start);
    NumberIsValue(t, start);
    if Number(t, start).Complete? {
      AllSpace(t, Number(t, start).end);
    }
  }

  lemma NumberIsValue(s: Text, p: nat)
    requires p < |s| && RootKindAt(s, p).RootNumber?
    ensures Value(s, p, JSON_MAX_DEPTH) == Number(s, p)
  {
    hide Number, Object, Array, String, Literal;
  }

  /** A cut of a number text in front of the end of the number, or behind it. */
  lemma CutOfNumber(s: Text, c: nat)
    requires Encodable(s) && ScanText(s, JSON_MAX_DEPTH).rootKind.RootNumber? && c < |s|
    ensures var cut, whole, start := ScanText(s[..c], JSON_MAX_DEPTH), ScanText(s, JSON_MAX_DEPTH), SkipSpace(s, 0);
      && start < whole.valueEnd
      && !cut.result.INVALID?
      && (whole.valueEnd <= c ==> cut == whole)
      && (c < whole.valueEnd ==> (cut.rootKind.RootNumber? <==> start < c))
      && (c < whole.valueEnd && cut.result.COMPLETE? ==> cut.valueEnd == c)
      && (0 < c < whole.valueEnd ==> (cut.result.COMPLETE? <==> IsDigit(s[c - 1])))
  {
    var t, start := s[..c], SkipSpace(s, 0);
    ScanPrefix(t, s, JSON_MAX_DEPTH);
    SkipSpaceTwice(s, 0);
    assert start < ScanText(s, JSON_MAX_DEPTH).valueEnd;
    hide ScanText;
    if 0 < c < ScanText(s, JSON_MAX_DEPTH).valueEnd {
      if start < c {
        CutInsideNumber(s, c);
      } else {
        BlankCut(t);
        assert IsSpace(s[c - 1]);
      }
    } else if c == 0 {
      BlankCut(t);
    }
  }

  lemma BlankCut(t: Text)
    requires forall i :: 0 <= i < |t| ==> IsSpace(t[i])
    ensures ScanText(t, JSON_MAX_DEPTH).result.INCOMPLETE? && !ScanText(t, JSON_MAX_DEPTH).rootKind.RootNumber?
  {
    AllSpace(t, 0);
    SpaceIsUtf8(t, 0);
    SkipSpaceTwice(t, 0);
  }

  lemma SkipSpaceIs(t: Text, start: nat)
    requires start < |t| && !IsSpace(t[start]) && forall i :: 0 <= i < start ==> IsSpace(t[i])
    ensures SkipSpace(t, 0) == start
  {
  }

  lemma {:induction false} NumberRoots(s: Text, k: nat, waiting: bool)
    requires Encodable(s) && ScanText(s, JSON_MAX_DEPTH).rootKind.RootNumber?
    requires var o := FRAGMENT_MAX * k; o < |s| && (o <= ScanText(s, JSON_MAX_DEPTH).valueEnd ==> waiting == (SkipSpace(s, 0) < o))
    ensures var n, cut, lastCut := |s|, ScanText(s[..|s| - 1], JSON_MAX_DEPTH), (|s| - 1) / FRAGMENT_MAX * FRAGMENT_MAX;
      AnyEarly(s, FRAGMENT_MAX * k, waiting) <==>
      n - lastCut >= 60 && cut.result.COMPLETE? && (n - 1 > cut.valueEnd || SkipSpace(s, 0) >= lastCut)
    decreases |s| - FRAGMENT_MAX * k
  {
    hide ScanText, SkipSpace;
    var n, o := |s|, FRAGMENT_MAX * k;
    var remaining := n - o;
    if remaining > FRAGMENT_MAX {
      var c := o + FRAGMENT_MAX;
      assert c == FRAGMENT_MAX * (k + 1);
      CutOfNumber(s, c);
      NumberRoots(s, k + 1, StillWaiting(s, c, waiting));
    } else {
      LastMultiple(n, k);
      CutOfNumber(s, n - 1);
    }
  }

  lemma AnyEarlyDecided(s: Text)
    requires Encodable(s) && Deliverable(s)
    ensures AnyEarly(s, 0, false) <==> !EncodeSafe(s)
  {
    hide ScanText, SkipSpace, AnyEarly, Deliverable;
    DeliverableMeans(s);
    var n := |s|;
    if !ScanText(s, JSON_MAX_DEPTH).rootKind.RootNumber? {
      OtherRoots(s, 0, false);
    } else {
      NumberRoots(s, 0, false);
      CutOfNumber(s, n - 1);
    }
  }

  // ---------------------------------------------------------------- the theorems

  /** The round trip works exactly for the safe texts. */
  lemma RoundTripDecided(s: Text)
    requires Encodable(s)
    ensures RoundTrips(s) <==> EncodeSafe(s)
  {
    hide ScanText, AnyEarly;
    DeliverableMeans(s);
    if Deliverable(s) {
      assert At(s, 0, false) == IDLE;
      RunOfFragments(s, 0, false);
      AnyEarlyDecided(s);
    } else {
      DeliveredIsDeliverable(IDLE, Fragments(s, 0));
      assert [s][0] == s;
    }
  }

  /** Short of its last report a safe text delivers nothing, and disturbs nothing. */
  lemma SafePrefixIsSilent(s: Text, k: nat)
    requires Encodable(s) && EncodeSafe(s) && k < |Fragments(s, 0)|
    ensures Run(IDLE, Fragments(s, 0)[..k]).delivered == [] && Run(IDLE, Fragments(s, 0)[..k]).clean
  {
    hide ScanText, AnyEarly;
    DeliverableMeans(s);
    AnyEarlyDecided(s);
    assert At(s, 0, false) == IDLE;
    var c, w := PrefixDeliversNothing(s, 0, false, k);
  }

  /** A root that is no number and has no white space behind it is always safe. */
  lemma TrimmedIsSafe(s: Text)
    requires Encodable(s) && !ScanText(s, JSON_MAX_DEPTH).rootKind.RootNumber? && ScanText(s, JSON_MAX_DEPTH).valueEnd == |s|
    ensures EncodeSafe(s) && RoundTrips(s)
    ensures forall k :: 0 <= k < |Fragments(s, 0)| ==>
      Run(IDLE, Fragments(s, 0)[..k]).delivered == [] && Run(IDLE, Fragments(s, 0)[..k]).clean
  {
    hide ScanText, AnyEarly;
    RoundTripDecided(s);
    forall k | 0 <= k < |Fragments(s, 0)|
      ensures Run(IDLE, Fragments(s, 0)[..k]).delivered == [] && Run(IDLE, Fragments(s, 0)[..k]).clean
    {
      SafePrefixIsSilent(s, k);
    }
  }

  /** Numbers from the first octet on are safe at every length but 60 and 61. */
  lemma PlainNumberIsSafe(s: Text)
    requires Encodable(s) && RootKindAt(s, 0).RootNumber? && ScanText(s, JSON_MAX_DEPTH).valueEnd == |s|
    requires |s| != 60 && |s| != 61
    ensures RoundTrips(s)
  {
    hide ScanText, RoundTrips, SkipSpace;
    NumberAtZero(s);
    RoundTripDecided(s);
  }

  lemma NumberAtZero(s: Text)
    requires Encodable(s) && RootKindAt(s, 0).RootNumber?
    ensures SkipSpace(s, 0) == 0 && ScanText(s, JSON_MAX_DEPTH).rootKind.RootNumber?
  {
    hide Value, Utf8;
  }

  /** The condition is needed: of a number of 60 digits the first 59 are delivered, and then the last one. */
  lemma SixtyDigitsAreCut()
    ensures var s: Text := seq(60, _ => 0x31);
      Encodable(s) && !RoundTrips(s) && Run(IDLE, Fragments(s, 0)).delivered == [s[..59], s[59..]]
  {
    hide ScanText, EncodeSafe, Next, Inv;
    var s: Text := seq(60, _ => 0x31);
    DigitsScan(s);
    SixtyDigitsAreUnsafe(s);
    RoundTripDecided(s);
    assert Chunk(60) == 59 && Fragments(s, 59) == [s[59..] + [CR, LF]];
    var first, last := s[..59], s[59..] + [CR, LF];
    assert Fragments(s, 0) == [first, last];
    DigitsDeliver(first, []);
    DigitsDeliver(s[59..], [CR, LF]);
    assert first + [] == first;
    OneByOne(first, first, last, s[59..]);
  }

  /** Two fragments that are delivered at once. */
  lemma OneByOne(a: Text, x: Text, b: Text, y: Text)
    requires Inv(IDLE) && Next(IDLE, a) == Step(IDLE, Some(x), Ok) && Next(IDLE, b) == Step(IDLE, Some(y), Ok)
    ensures Run(IDLE, [a, b]).delivered == [x, y]
  {
    hide Inv, Next;
    var both: seq<Text> := [a, b];
    assert both[1..] == [b] && both[1..][1..] == [];
    assert Run(IDLE, []).delivered == [];
    assert Run(IDLE, [b]).delivered == [y] + [];
    assert Run(IDLE, both).delivered == [x] + [y];
  }

  lemma SixtyDigitsAreUnsafe(s: Text)
    requires Encodable(s) && |s| == 60 && ScanText(s, JSON_MAX_DEPTH) == Scan(COMPLETE, RootNumber, 60)
    requires SkipSpace(s, 0) == 0 && IsDigit(s[58])
    ensures !EncodeSafe(s)
  {
    hide ScanText;
  }

  /** Fewer than 61 digits, with or without a line break behind them, are delivered at once. */
  lemma DigitsDeliver(s: Text, ending: Text)
    requires 0 < |s| < 60 && (forall i :: 0 <= i < |s| ==> s[i] == 0x31) && (ending == [] || ending == [CR, LF])
    ensures Inv(IDLE) && Next(IDLE, s + ending) == Step(IDLE, Some(s), Ok)
  {
    hide ScanText;
    EmptyIsIncomplete();
    var t := s + ending;
    DigitsScan(s);
    assert forall i :: |s| <= i < |t| ==> IsSpace(t[i]);
    ScanThenSpace(s, t, JSON_MAX_DEPTH);
    assert [] + t[..|t|] == t;
    assert SkipBlanks(t, |s|) == |s|;
    assert t[..|s|] == s;
  }

  lemma DigitsScan(s: Text)
    requires s != [] && forall i :: 0 <= i < |s| ==> s[i] == 0x31
    ensures ScanText(s, JSON_MAX_DEPTH) == Scan(COMPLETE, RootNumber, |s|) && SkipSpace(s, 0) == 0
  {
    hide Utf8, Number, String, Object, Array, Literal;
    AsciiRun(s, 0, |s|);
    assert Utf8(s, |s|).COMPLETE? by { EndIsUtf8(s); }
    DigitsAreNumber(s);
    assert SkipSpace(s, 0) == 0 && Value(s, 0, JSON_MAX_DEPTH) == Number(s, 0) && SkipSpace(s, |s|) == |s|;
  }

  lemma DigitsAreNumber(s: Text)
    requires s != [] && forall i :: 0 <= i < |s| ==> s[i] == 0x31
    ensures Number(s, 0) == Complete(|s|)
  {
    hide SkipDigits;
    DigitRunEnds(s, 0, |s|);
    assert IntegerPart(s, 0) == Complete(|s|) && AfterInteger(s, |s|) == Complete(|s|);
  }

  lemma EndIsUtf8(s: Text)
    ensures Utf8(s, |s|).COMPLETE?
  {
  }
}
