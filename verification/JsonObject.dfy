/** The members of an object text, moving units between texts, and compact printing of response trees. */
module JsonObject {
  import opened Bytes
  import opened JsonSyntax
  import opened JsonPrefix
  import opened JsonGrammar
  import opened Unicode
  import opened JsonString

  // ---------------------------------------------------------------- members

  /** The octets of a key, with its quotes, and of a value. */
  datatype Field = Field(key: Text, value: Text)

  /** The parts of a member. */
  lemma MemberShape(s: Text, p: nat, room: nat)
    requires p <= |s| && Member(s, p, room).Complete?
    ensures String(s, p).Complete?
    ensures var c := SkipSpace(s, String(s, p).end);
      c < |s| && s[c] == COLON && Value(s, c + 1, room) == Member(s, p, room)
      && SkipSpace(s, c + 1) < Member(s, p, room).end
  {
    hide String, Value, SkipSpace, Member, MemberTail;
    MemberStep(s, p, room);
    MemberTailStep(s, String(s, p).end, room);
    ValueStarts(s, SkipSpace(s, String(s, p).end) + 1, room);
  }

  /** What follows a member of an object. */
  lemma MembersShape(s: Text, p: nat, room: nat)
    requires p <= |s| && Members(s, p, room).Complete?
    ensures Member(s, p, room).Complete?
    ensures var t := SkipSpace(s, Member(s, p, room).end);
      t < |s|
      && (s[t] == RBRACE ||
          (s[t] == COMMA && SkipSpace(s, t + 1) < |s|
           && Members(s, SkipSpace(s, t + 1), room) == Members(s, p, room)))
  {
    hide SkipSpace, Members, MembersTail, Member;
    MembersStep(s, p, room);
    MembersTailStep(s, Member(s, p, room).end, room);
  }

  function FieldAt(s: Text, p: nat, room: nat): Field
    requires p <= |s| && Member(s, p, room).Complete?
  {
    hide String, Member, SkipSpace, Value;
    MemberShape(s, p, room);
    var k := String(s, p).end;
    Field(s[p..k], s[SkipSpace(s, SkipSpace(s, k) + 1)..Member(s, p, room).end])
  }

  /** The start of the next key, if there is one. */
  function NextKey(s: Text, p: nat, room: nat): (n: Option<nat>)
    requires p <= |s| && Members(s, p, room).Complete?
    ensures n.Some? ==> p < n.value < |s| && Members(s, n.value, room) == Members(s, p, room)
  {
    hide Members, Member;
    MembersShape(s, p, room);
    var t := SkipSpace(s, Member(s, p, room).end);
    if s[t] == RBRACE then None else Some(SkipSpace(s, t + 1))
  }

  /** The members of an object from the start of a key on. */
  function FieldsOf(s: Text, p: nat, room: nat): (f: seq<Field>)
    requires p <= |s| && Members(s, p, room).Complete?
    ensures f != []
    decreases |s| - p
  {
    hide Members, Member, FieldAt, NextKey;
    MembersShape(s, p, room);
    var n := NextKey(s, p, room);
    [FieldAt(s, p, room)] + if n.None? then [] else FieldsOf(s, n.value, room)
  }

  lemma ValueStarts(s: Text, p: nat, room: nat)
    requires p <= |s| && Value(s, p, room).Complete?
    ensures SkipSpace(s, p) < Value(s, p, room).end
    ensures Value(s, SkipSpace(s, p), room) == Value(s, p, room)
  {
    SkipSpaceTwice(s, p);
  }

  // ---------------------------------------------------------------- moving units between texts

  /** The octets p up to e of s stand at q in t. */
  ghost predicate Copied(s: Text, p: nat, e: nat, t: Text, q: nat) {
    p <= e <= |s| && q + (e - p) <= |t| && forall i :: p <= i < e ==> s[i] == t[q + (i - p)]
  }

  lemma {:induction false} StringBodyMoves(s: Text, p: nat, e: nat, t: Text, q: nat)
    requires Copied(s, p, e, t, q) && StringBody(s, p) == Complete(e)
    ensures StringBody(t, q) == Complete(q + (e - p))
    decreases e - p
  {
    assert s[p] == t[q];
    if s[p] != QUOTE {
      if s[p] != BACKSLASH {
        StringBodyMoves(s, p + 1, e, t, q + 1);
      } else {
        var m := Escape(s, p).end;
        StringBodyGoesOn(s, m, e);
        EscapeMoves(s, p, e, t, q);
        StringBodyMoves(s, m, e, t, q + (m - p));
      }
    }
  }

  lemma StringBodyGoesOn(s: Text, p: nat, e: nat)
    requires p <= |s| && StringBody(s, p) == Complete(e)
    ensures p < e
  {
  }

  lemma EscapeMoves(s: Text, p: nat, e: nat, t: Text, q: nat)
    requires Copied(s, p, e, t, q) && p < e && s[p] == BACKSLASH && Escape(s, p).Complete? && Escape(s, p).end < e
    ensures Escape(t, q) == Complete(q + (Escape(s, p).end - p))
  {
    assert s[p] == t[q] && s[p + 1] == t[q + 1];
    if s[p + 1] == LOWER_U {
      assert s[p + 2] == t[q + 2] && s[p + 3] == t[q + 3] && s[p + 4] == t[q + 4] && s[p + 5] == t[q + 5];
      assert Hex4Value(s, p + 2) == Hex4Value(t, q + 2);
      if Escape(s, p).end == p + 12 {
        assert s[p + 6] == t[q + 6] && s[p + 7] == t[q + 7] && s[p + 8] == t[q + 8];
        assert s[p + 9] == t[q + 9] && s[p + 10] == t[q + 10] && s[p + 11] == t[q + 11];
        assert Hex4Value(s, p + 8) == Hex4Value(t, q + 8);
      }
    }
  }

  lemma StringMoves(s: Text, p: nat, e: nat, t: Text, q: nat)
    requires Copied(s, p, e, t, q) && String(s, p) == Complete(e)
    ensures String(t, q) == Complete(q + (e - p))
  {
    assert s[p] == t[q];
    StringBodyMoves(s, p + 1, e, t, q + 1);
  }

  lemma NumberMoves(s: Text, p: nat, e: nat, t: Text, q: nat)
    requires Copied(s, p, e, t, q) && IsNumber(s, p, e)
    ensures IsNumber(t, q, q + (e - p))
  {
    var a: nat, b: nat :| NumberParts(s, p, a, b, e);
    NumberPartsMove(s, p, a, b, e, t, q);
  }

  lemma DigitsMove(s: Text, p: nat, e: nat, t: Text, q: nat, lo: nat, hi: nat)
    requires Copied(s, p, e, t, q) && p <= lo && hi <= e && AllDigits(s, lo, hi)
    ensures AllDigits(t, q + (lo - p), q + (hi - p))
  {
    var d := q - p;
    forall i | q + (lo - p) <= i < q + (hi - p) ensures IsDigit(t[i]) {
      assert s[i - d] == t[q + (i - d - p)];
    }
  }

  lemma NumberPartsMove(s: Text, p: nat, a: nat, b: nat, e: nat, t: Text, q: nat)
    requires Copied(s, p, e, t, q) && NumberParts(s, p, a, b, e)
    ensures NumberParts(t, q, q + (a - p), q + (b - p), q + (e - p))
  {
    var i := if s[p] == MINUS then p + 1 else p;
    assert s[p] == t[q] && s[i] == t[q + (i - p)];
    DigitsMove(s, p, e, t, q, i, a);
    if b != a {
      assert s[a] == t[q + (a - p)];
      DigitsMove(s, p, e, t, q, a + 1, b);
    }
    if e != b {
      assert s[b] == t[q + (b - p)] && s[b + 1] == t[q + (b + 1 - p)];
      DigitsMove(s, p, e, t, q, if IsSign(s[b + 1]) then b + 2 else b + 1, e);
    }
  }

  // ---------------------------------------------------------------- UTF-8 of parts

  /** In well-formed UTF-8 every octet that continues no sequence starts one. */
  lemma {:induction false} Utf8AtBoundary(s: Text, i: nat, p: nat)
    requires i <= p <= |s| && Utf8(s, i).COMPLETE? && (p < |s| ==> !IsContinuation(s[p]))
    ensures Utf8(s, p).COMPLETE?
    decreases p - i
  {
    if i < p {
      var n := SequenceLength(s[i]);
      if n == 1 || p >= i + n {
        Utf8AtBoundary(s, i + n, p);
      } else {
        InsideIsContinuation(s, i, p);
      }
    }
  }

  lemma InsideIsContinuation(s: Text, i: nat, p: nat)
    requires i < p < |s| && Utf8(s, i).COMPLETE? && p < i + SequenceLength(s[i])
    ensures IsContinuation(s[p])
  {
    assert p == i + 1 || p == i + 2 || p == i + 3;
  }

  lemma BoundaryIsNoContinuation(s: Text, p: nat)
    requires p < |s| && Utf8(s, p).COMPLETE?
    ensures !IsContinuation(s[p])
  {
  }

  /** A part between two boundaries is well-formed on its own. */
  lemma PartIsUtf8(s: Text, p: nat, e: nat)
    requires p <= e <= |s| && Utf8(s, p).COMPLETE? && (e < |s| ==> !IsContinuation(s[e]))
    ensures Utf8(s[p..e], 0).COMPLETE?
  {
    var t := s[p..];
    assert t[0..] == s[p..];
    Utf8Shift(s, p, t, 0);
    assert t[..e - p] == s[p..e];
    Utf8Extends(s[p..e], t, 0);
  }

  lemma ConcatIsUtf8(a: Text, b: Text)
    requires Utf8(a, 0).COMPLETE? && Utf8(b, 0).COMPLETE?
    ensures Utf8(a + b, 0).COMPLETE?
  {
    Utf8Extends(a, a + b, 0);
    assert (a + b)[|a|..] == b[0..];
    Utf8Shift(a + b, |a|, b, 0);
  }

  /** A string inside a well-formed text is a token on its own. */
  lemma KeyIsToken(s: Text, p: nat)
    requires Utf8(s, 0).COMPLETE? && p < |s| && String(s, p).Complete?
    ensures IsToken(s[p..String(s, p).end])
  {
    hide StringBody;
    var k := String(s, p).end;
    StringMoves(s, p, k, s[p..k], 0);
    Utf8AtBoundary(s, 0, p);
    StringEndsInQuote(s, p + 1);
    Utf8AtBoundary(s, 0, k - 1);
    if k < |s| {
      assert Utf8(s, k - 1) == Utf8(s, k);
      BoundaryIsNoContinuation(s, k);
    }
    PartIsUtf8(s, p, k);
  }

  // ---------------------------------------------------------------- leaves

  /** A string, a number or a literal on its own. */
  predicate IsLeaf(t: Text) {
    IsToken(t) || (t != [] && Number(t, 0) == Complete(|t|)) || t == TRUE || t == FALSE || t == NULL
  }

  lemma LeafIsUtf8(t: Text)
    requires IsLeaf(t)
    ensures Utf8(t, 0).COMPLETE?
  {
    hide Number, String;
    if t == TRUE || t == FALSE || t == NULL {
      AsciiRun(t, 0, |t|);
    } else if !IsToken(t) {
      NumberOctets(t, 0);
      AsciiRun(t, 0, |t|);
    }
  }

  /** A leaf is a value wherever it is copied to. */
  lemma LeafIsValue(t: Text, s: Text, p: nat, room: nat)
    requires IsLeaf(t) && StartsAt(s, p, t)
    ensures IsValue(s, p, p + |t|, room)
  {
    hide Number, String, IsNumber, IsString, IsArray, IsObject, Utf8;
    SliceAt(s, p, t);
    assert Copied(t, 0, |t|, s, p);
    if IsToken(t) {
      StringMoves(t, 0, |t|, s, p);
      StringSound(s, p, p + |t|);
    } else if t != TRUE && t != FALSE && t != NULL {
      NumberSound(t, 0, |t|);
      NumberMoves(t, 0, |t|, s, p);
    }
  }

  /** A scalar member of a text is a leaf on its own. */
  lemma ScalarIsLeaf(s: Text, p: nat, room: nat)
    requires Utf8(s, 0).COMPLETE? && p < |s| && Value(s, p, room).Complete?
    requires !IsSpace(s[p]) && s[p] != LBRACE && s[p] != LBRACKET
    ensures IsLeaf(s[p..Value(s, p, room).end])
  {
    hide Number, String, Utf8;
    var e := Value(s, p, room).end;
    assert SkipSpace(s, p) == p;
    if s[p] == QUOTE {
      KeyIsToken(s, p);
    } else if s[p] != LOWER_T && s[p] != LOWER_F && s[p] != LOWER_N {
      NumberStandsAlone(s, p, e);
    }
  }

  lemma NumberStandsAlone(s: Text, p: nat, e: nat)
    requires p < |s| && Number(s, p) == Complete(e)
    ensures Number(s[p..e], 0) == Complete(e - p)
  {
    hide Number;
    NumberSound(s, p, e);
    NumberMoves(s, p, e, s[p..e], 0);
    NumberParses(s[p..e], 0, e - p);
  }

  // ---------------------------------------------------------------- printing trees

  datatype Tree = Leaf(text: Text) | Obj(fields: seq<Entry>)

  /** A member; the name needs no escapes. */
  datatype Entry = Entry(name: Text, tree: Tree)

  predicate IsName(name: Text) {
    forall i :: 0 <= i < |name| ==> 0x20 <= name[i] < 0x80 && name[i] != QUOTE && name[i] != BACKSLASH
  }

  function Quoted(name: Text): Text {
    [QUOTE] + name + [QUOTE]
  }

  function Render(tree: Tree): Text
    decreases tree, 0
  {
    match tree
    case Leaf(text) => text
    case Obj(fields) => [LBRACE] + RenderFields(fields) + [RBRACE]
  }

  function RenderFields(fields: seq<Entry>): Text
    decreases fields, 1
  {
    if fields == [] then []
    else RenderField(fields[0]) + if |fields| == 1 then [] else [COMMA] + RenderFields(fields[1..])
  }

  function RenderField(entry: Entry): Text
    decreases entry, 1
  {
    Quoted(entry.name) + [COLON] + Render(entry.tree)
  }

  /** Well-formed, with at most `room` nested objects. */
  predicate IsTree(tree: Tree, room: nat)
    decreases tree, 0
  {
    match tree
    case Leaf(text) => IsLeaf(text)
    case Obj(fields) => room > 0 && AreEntries(fields, room - 1)
  }

  predicate AreEntries(fields: seq<Entry>, room: nat)
    decreases fields, 1
  {
    fields == [] || (IsName(fields[0].name) && IsTree(fields[0].tree, room) && AreEntries(fields[1..], room))
  }

  lemma {:induction false} NameReads(s: Text, p: nat, name: Text)
    requires IsName(name) && StartsAt(s, p, name + [QUOTE])
    ensures StringBody(s, p) == Complete(p + |name| + 1)
    decreases |name|
  {
    hide Escape;
    SliceAt(s, p, name + [QUOTE]);
    assert s[p + 0] == (name + [QUOTE])[0];
    if name != [] {
      assert name + [QUOTE] == [name[0]] + (name[1..] + [QUOTE]);
      StartsSplit(s, p, [name[0]], name[1..] + [QUOTE]);
      NameReads(s, p + 1, name[1..]);
    }
  }

  lemma QuotedReads(s: Text, p: nat, name: Text)
    requires IsName(name) && StartsAt(s, p, Quoted(name))
    ensures String(s, p) == Complete(p + |name| + 2) && s[p] == QUOTE
    ensures s[p..p + |name| + 2] == Quoted(name)
  {
    hide StringBody;
    assert Quoted(name) == [QUOTE] + (name + [QUOTE]);
    StartsSplit(s, p, [QUOTE], name + [QUOTE]);
    assert s[p + 0] == QUOTE;
    NameReads(s, p + 1, name);
  }

  /** What the parser finds in a printed object. */
  function Expected(fields: seq<Entry>): (f: seq<Field>)
    ensures |f| == |fields|
  {
    if fields == [] then []
    else [Field(Quoted(fields[0].name), Render(fields[0].tree))] + Expected(fields[1..])
  }

  /** A printed tree is a value of the grammar, wherever it stands. */
  lemma {:induction false} TreeIsValue(tree: Tree, s: Text, p: nat, room: nat)
    requires IsTree(tree, room) && StartsAt(s, p, Render(tree))
    ensures IsValue(s, p, p + |Render(tree)|, room)
    decreases tree, 0
  {
    hide IsValue, IsLeaf, Object, Members, FieldsOf, Expected, StartsAt;
    match tree
    case Leaf(text) => LeafIsValue(text, s, p, room);
    case Obj(fields) =>
      ObjectReads(fields, s, p, room - 1);
      ObjectIsValue(s, p, room, p + |Render(tree)|);
  }

  lemma ObjectIsValue(s: Text, p: nat, room: nat, e: nat)
    requires p < |s| && s[p] == LBRACE && room > 0 && Object(s, p, room - 1) == Complete(e)
    ensures IsValue(s, p, e, room)
  {
    hide IsObject, IsArray, IsString, IsNumber, Object;
    ObjectSound(s, p, room - 1, e);
  }

  /** A printed object is parsed, and its members are the printed ones, in order. */
  lemma {:induction false} ObjectReads(fields: seq<Entry>, s: Text, p: nat, room: nat)
    requires AreEntries(fields, room) && StartsAt(s, p, Render(Obj(fields)))
    ensures p < |s| && s[p] == LBRACE && Object(s, p, room) == Complete(p + |Render(Obj(fields))|)
    ensures fields != [] ==>
      p + 1 < |s| && SkipSpace(s, p + 1) == p + 1 && Members(s, p + 1, room).Complete?
      && FieldsOf(s, p + 1, room) == Expected(fields)
    decreases fields, 2
  {
    hide Members, FieldsOf, Expected, AreEntries, StartsAt;
    var inner := RenderFields(fields) + [RBRACE];
    assert Render(Obj(fields)) == [LBRACE] + inner;
    StartsSplit(s, p, [LBRACE], inner);
    assert s[p + 0] == LBRACE;
    if fields == [] {
      StartsSplit(s, p + 1, [RBRACE], []) by { assert inner == [RBRACE] + []; }
      assert s[p + 1 + 0] == RBRACE;
    } else {
      FieldsRead(fields, s, p + 1, room);
    }
  }

  lemma RenderSplits(fields: seq<Entry>)
    requires fields != []
    ensures |fields| == 1 ==> RenderFields(fields) + [RBRACE] == RenderField(fields[0]) + [RBRACE]
    ensures |fields| > 1 ==>
      RenderFields(fields) + [RBRACE] == RenderField(fields[0]) + ([COMMA] + (RenderFields(fields[1..]) + [RBRACE]))
      && |RenderFields(fields)| == |RenderField(fields[0])| + 1 + |RenderFields(fields[1..])|
  {
    hide RenderField;
  }

  lemma EntriesSplit(fields: seq<Entry>, room: nat)
    requires fields != [] && AreEntries(fields, room)
    ensures IsName(fields[0].name) && IsTree(fields[0].tree, room) && AreEntries(fields[1..], room)
  {
  }

  lemma {:induction false} FieldsRead(fields: seq<Entry>, s: Text, p: nat, room: nat)
    requires fields != [] && AreEntries(fields, room) && StartsAt(s, p, RenderFields(fields) + [RBRACE])
    ensures p < |s| && s[p] == QUOTE
    ensures Members(s, p, room) == Complete(p + |RenderFields(fields)| + 1)
    ensures FieldsOf(s, p, room) == Expected(fields)
    decreases fields, 1
  {
    hide Members, MembersTail, Member, StartsAt, RenderField, RenderFields, SkipSpace, IsTree, IsName, FieldAt, Quoted, Render, AreEntries;
    var f := RenderField(fields[0]);
    var e := p + |f|;
    RenderSplits(fields);
    EntriesSplit(fields, room);
    if |fields| == 1 {
      StartsSplit(s, p, f, [RBRACE]);
      NextOctet(s, e, [RBRACE]);
      FieldReads(fields[0], s, p, room);
      MembersStep(s, p, room);
      MembersTailStep(s, e, room);
      assert fields[1..] == [];
    } else {
      var rest := RenderFields(fields[1..]) + [RBRACE];
      StartsSplit(s, p, f, [COMMA] + rest);
      NextOctet(s, e, [COMMA] + rest);
      StartsSplit(s, e, [COMMA], rest);
      FieldReads(fields[0], s, p, room);
      FieldsRead(fields[1..], s, e + 1, room);
      NoSpaceAt(s, e + 1);
      MembersStep(s, p, room);
      MembersTailStep(s, e, room);
    }
  }

  lemma NextOctet(s: Text, p: nat, t: Text)
    requires t != [] && StartsAt(s, p, t)
    ensures p < |s| && s[p] == t[0]
    ensures !IsSpace(t[0]) ==> SkipSpace(s, p) == p
  {
    SliceAt(s, p, t);
    assert s[p + 0] == t[0];
  }

  lemma NoSpaceAt(s: Text, p: nat)
    requires p < |s| && !IsSpace(s[p])
    ensures SkipSpace(s, p) == p
  {
  }

  lemma QuotedLength(name: Text)
    ensures |Quoted(name)| == |name| + 2
  {
  }

  /** The colon and the value of a printed member. */
  lemma FieldTailReads(tree: Tree, s: Text, k: nat, room: nat)
    requires IsTree(tree, room) && StartsAt(s, k, [COLON] + Render(tree))
    requires var e := k + 1 + |Render(tree)|; e < |s| && (s[e] == COMMA || s[e] == RBRACE)
    ensures var e := k + 1 + |Render(tree)|;
      k + 1 < e && s[k] == COLON && SkipSpace(s, k) == k && SkipSpace(s, k + 1) == k + 1 && SkipSpace(s, e) == e
      && MemberTail(s, k, room) == Complete(e) && s[k + 1..e] == Render(tree)
    decreases tree, 2
  {
    hide MemberTail, Value, IsValue, IsTree, Render, SkipSpace, StartsAt;
    var e := k + 1 + |Render(tree)|;
    NextOctet(s, k, [COLON] + Render(tree));
    StartsSplit(s, k, [COLON], Render(tree));
    TreeIsValue(tree, s, k + 1, room);
    ValueParses(s, k + 1, e, room);
    NoSpaceAt(s, k);
    NoSpaceAt(s, k + 1);
    NoSpaceAt(s, e);
    MemberTailStep(s, k, room);
    StartsMeans(s, k + 1, Render(tree));
  }

  /** A printed member is read as such, up to its last octet. */
  lemma FieldReads(entry: Entry, s: Text, p: nat, room: nat)
    requires IsName(entry.name) && IsTree(entry.tree, room) && StartsAt(s, p, RenderField(entry))
    requires var e := p + |RenderField(entry)|; e < |s| && (s[e] == COMMA || s[e] == RBRACE)
    ensures var e := p + |RenderField(entry)|;
      s[p] == QUOTE && Member(s, p, room) == Complete(e) && SkipSpace(s, e) == e
      && FieldAt(s, p, room) == Field(Quoted(entry.name), Render(entry.tree))
    decreases entry, 0
  {
    hide Member, MemberTail, Value, String, IsTree, IsName, Render, SkipSpace, Quoted, StartsAt;
    var k := p + |entry.name| + 2;
    var tail := [COLON] + Render(entry.tree);
    QuotedLength(entry.name);
    assert RenderField(entry) == Quoted(entry.name) + tail;
    StartsSplit(s, p, Quoted(entry.name), tail);
    QuotedReads(s, p, entry.name);
    FieldTailReads(entry.tree, s, k, room);
    MemberStep(s, p, room);
  }

  lemma StartsMeans(s: Text, p: nat, e: Text)
    requires StartsAt(s, p, e)
    ensures p + |e| <= |s| && s[p..p + |e|] == e
  {
  }

  // ---------------------------------------------------------------- printed texts as a whole

  lemma {:induction false} TreeIsUtf8(tree: Tree, room: nat)
    requires IsTree(tree, room)
    ensures Utf8(Render(tree), 0).COMPLETE?
    decreases tree, 0
  {
    hide Utf8, IsLeaf;
    match tree
    case Leaf(text) => LeafIsUtf8(text);
    case Obj(fields) =>
      FieldsAreUtf8(fields, room - 1);
      OneIsUtf8(LBRACE);
      OneIsUtf8(RBRACE);
      ConcatIsUtf8([LBRACE], RenderFields(fields));
      ConcatIsUtf8([LBRACE] + RenderFields(fields), [RBRACE]);
  }

  lemma OneIsUtf8(b: byte)
    requires b < 0x80
    ensures Utf8([b], 0).COMPLETE? && Utf8([], 0).COMPLETE?
  {
  }

  lemma {:induction false} FieldsAreUtf8(fields: seq<Entry>, room: nat)
    requires AreEntries(fields, room)
    ensures Utf8(RenderFields(fields), 0).COMPLETE?
    decreases fields, 1
  {
    hide Utf8, IsTree;
    OneIsUtf8(COMMA);
    if fields != [] {
      var name, tree := fields[0].name, fields[0].tree;
      TreeIsUtf8(tree, room);
      NumberIsAsciiName(name);
      OneIsUtf8(COLON);
      ConcatIsUtf8(Quoted(name), [COLON]);
      ConcatIsUtf8(Quoted(name) + [COLON], Render(tree));
      if |fields| > 1 {
        FieldsAreUtf8(fields[1..], room);
        ConcatIsUtf8([COMMA], RenderFields(fields[1..]));
        ConcatIsUtf8(RenderField(fields[0]), [COMMA] + RenderFields(fields[1..]));
      } else {
        assert RenderField(fields[0]) + [] == RenderField(fields[0]);
      }
    }
  }

  lemma NumberIsAsciiName(name: Text)
    requires IsName(name)
    ensures Utf8(Quoted(name), 0).COMPLETE?
  {
    AsciiRun(Quoted(name), 0, |name| + 2);
  }

  /** A printed object is an acceptable text whose members are the printed ones. */
  lemma PrintedObjectScans(fields: seq<Entry>, depth: nat)
    requires fields != [] && IsTree(Obj(fields), depth)
    ensures var s := Render(Obj(fields));
      ScanText(s, depth) == Scan(COMPLETE, RootOther, |s|)
      && s[0] == LBRACE && s[|s| - 1] == RBRACE
      && Members(s, 1, depth - 1).Complete? && SkipSpace(s, 1) == 1 && FieldsOf(s, 1, depth - 1) == Expected(fields)
  {
    hide Utf8, Object, Members, FieldsOf, Expected, RenderFields, AreEntries;
    var s := Render(Obj(fields));
    assert s[0..0 + |s|] == s;
    ObjectReads(fields, s, 0, depth - 1);
    TreeIsUtf8(Obj(fields), depth);
  }
}
