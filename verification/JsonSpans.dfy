/** An object and an array are their members and elements, with white space and punctuation between them, and nothing else. */
module JsonSpans {
  import opened Bytes
  import opened JsonSyntax
  import opened JsonPrefix
  import opened JsonObject
  import opened JsonMembers
  import opened RpcRequest

  predicate IsWhite(t: Text) {
    forall i :: 0 <= i < |t| ==> t[i] == 0x20 || t[i] == 0x09 || t[i] == 0x0A || t[i] == 0x0D
  }

  lemma SpaceIsWhite(s: Text, p: nat)
    requires p <= |s|
    ensures IsWhite(s[p..SkipSpace(s, p)])
  {
  }

  // ---------------------------------------------------------------- arrays

  /** An element with white space around it, and what follows. */
  predicate StartsWithElement(t: Text, v: Text, a: Text, b: Text, rest: Text) {
    IsWhite(a) && IsWhite(b) && t == a + (v + (b + rest))
  }

  /** The elements, with commas between them, up to the bracket. */
  ghost predicate AreListed(t: Text, vs: seq<Text>)
    decreases |vs|
  {
    vs != []
    && exists a: Text, b: Text, rest: Text :: StartsWithElement(t, vs[0], a, b, rest)
         && if |vs| == 1 then rest == [0x5D] else rest != [] && rest[0] == 0x2C && AreListed(rest[1..], vs[1..])
  }

  lemma ElementsEnd(s: Text, p: nat, room: nat)
    requires p <= |s| && Elements(s, p, room).Complete?
    ensures var t := (ElementsShape(s, p, room); SkipSpace(s, Value(s, p, room).end));
      t < Elements(s, p, room).end <= |s| && (s[t] == RBRACKET ==> Elements(s, p, room).end == t + 1)
  {
    hide SkipSpace, Elements, ElementsTail, Value;
    ElementsShape(s, p, room);
    ElementsStep(s, p, room);
    ElementsTailStep(s, Value(s, p, room).end, room);
  }

  lemma {:induction false} ElementsAreListed(s: Text, p: nat, room: nat)
    requires p <= |s| && Elements(s, p, room).Complete?
    ensures p <= Elements(s, p, room).end <= |s| && AreListed(s[p..Elements(s, p, room).end], ElementsOf(s, p, room))
    decreases |s| - p
  {
    hide Elements, Value, SkipSpace, ElementAt, NextElement, IsWhite, AreListed;
    ElementsShape(s, p, room);
    ElementsEnd(s, p, room);
    ElementsUnfold(s, p, room);
    ElementIs(s, p, room);
    var e := Elements(s, p, room).end;
    var v := Value(s, p, room).end;
    var t := SkipSpace(s, v);
    SpaceIsWhite(s, p);
    SpaceIsWhite(s, v);
    var a, b := s[p..SkipSpace(s, p)], s[v..t];
    var vs := ElementsOf(s, p, room);
    assert s[p..e] == a + (vs[0] + (b + s[t..e]));
    assert StartsWithElement(s[p..e], vs[0], a, b, s[t..e]);
    NextIs(s, p, room);
    if s[t] == RBRACKET {
      assert s[t..e] == [0x5D];
      OneListed(s[p..e], vs, a, b);
    } else {
      NextElementGoesOn(s, p, room);
      var n := SkipSpace(s, t + 1);
      ElementsAreListed(s, n, room);
      SpaceIsWhite(s, t + 1);
      assert s[t..e][1..] == s[t + 1..n] + s[n..e];
      WhiteListed(s[t + 1..n], s[n..e], vs[1..]);
      MoreListed(s[p..e], vs, a, b, s[t..e]);
    }
  }

  lemma NextIs(s: Text, p: nat, room: nat)
    requires p <= |s| && Elements(s, p, room).Complete?
    ensures Value(s, p, room).Complete?
    ensures var t := SkipSpace(s, Value(s, p, room).end);
      t < |s| && NextElement(s, p, room) == if s[t] == RBRACKET then None else Some(SkipSpace(s, t + 1))
  {
    hide Elements, Value, SkipSpace;
    ElementsShape(s, p, room);
  }

  lemma ElementIs(s: Text, p: nat, room: nat)
    requires p <= |s| && Value(s, p, room).Complete?
    ensures SkipSpace(s, p) < Value(s, p, room).end && ElementAt(s, p, room) == s[SkipSpace(s, p)..Value(s, p, room).end]
  {
    hide Value, SkipSpace;
    ValueStarts(s, p, room);
  }

  lemma OneListed(t: Text, vs: seq<Text>, a: Text, b: Text)
    requires vs != [] && vs[1..] == [] && StartsWithElement(t, vs[0], a, b, [0x5D])
    ensures AreListed(t, vs)
  {
    hide IsWhite;
    assert |vs| == 1;
  }

  lemma MoreListed(t: Text, vs: seq<Text>, a: Text, b: Text, rest: Text)
    requires |vs| > 1 && StartsWithElement(t, vs[0], a, b, rest) && rest != [] && rest[0] == 0x2C && AreListed(rest[1..], vs[1..])
    ensures AreListed(t, vs)
  {
    hide IsWhite;
  }

  /** White space before the first element changes nothing. */
  lemma WhiteListed(w: Text, t: Text, vs: seq<Text>)
    requires IsWhite(w) && AreListed(t, vs)
    ensures AreListed(w + t, vs)
  {
    var a: Text, b: Text, rest: Text :| StartsWithElement(t, vs[0], a, b, rest)
      && if |vs| == 1 then rest == [0x5D] else rest != [] && rest[0] == 0x2C && AreListed(rest[1..], vs[1..]);
    assert w + t == (w + a) + (vs[0] + (b + rest));
    assert StartsWithElement(w + t, vs[0], w + a, b, rest);
  }

  /** An array on its own. */
  lemma ArrayIsItsElements(t: Text, room: nat)
    requires IsArrayOf(t, room)
    ensures var vs := ArrayElements(t, room);
      t != [] && t[0] == 0x5B
      && if vs == [] then t[|t| - 1] == 0x5D && |t| >= 2 && IsWhite(t[1..|t| - 1]) else AreListed(t[1..], vs)
  {
    hide Elements, Value, IsWhite, AreListed, ElementsOf;
    ArrayOpens(t, room);
    var q := SkipSpace(t, 1);
    SpaceIsWhite(t, 1);
    if t[q] == RBRACKET {
      EmptyArrayEnds(t, room);
    } else {
      ElementsAreListed(t, q, room - 1);
      assert t[1..] == t[1..q] + t[q..];
      assert t[q..|t|] == t[q..];
      WhiteListed(t[1..q], t[q..], ElementsOf(t, q, room - 1));
    }
  }

  lemma EmptyArrayEnds(t: Text, room: nat)
    requires IsArrayOf(t, room) && SkipSpace(t, 1) < |t| && t[SkipSpace(t, 1)] == RBRACKET
    ensures SkipSpace(t, 1) + 1 == |t|
  {
    hide Elements, Utf8;
    assert SkipSpace(t, 0) == 0;
    assert Value(t, 0, room) == if room == 0 then Invalid else Array(t, 0, room - 1);
  }

  // ---------------------------------------------------------------- objects

  /** A key, a colon and a value with white space around each, and what follows. */
  predicate StartsWithMember(t: Text, f: Field, a: Text, b: Text, c: Text, d: Text, rest: Text) {
    IsWhite(a) && IsWhite(b) && IsWhite(c) && IsWhite(d)
    && t == a + (f.key + (b + ([0x3A] + (c + (f.value + (d + rest))))))
  }

  /** The members, with commas between them, up to the brace. */
  ghost predicate AreJoined(t: Text, fs: seq<Field>)
    decreases |fs|
  {
    fs != []
    && exists a: Text, b: Text, c: Text, d: Text, rest: Text :: StartsWithMember(t, fs[0], a, b, c, d, rest)
         && if |fs| == 1 then rest == [0x7D] else rest != [] && rest[0] == 0x2C && AreJoined(rest[1..], fs[1..])
  }

  lemma OneJoined(t: Text, fs: seq<Field>, a: Text, b: Text, c: Text, d: Text)
    requires fs != [] && fs[1..] == [] && StartsWithMember(t, fs[0], a, b, c, d, [0x7D])
    ensures AreJoined(t, fs)
  {
    hide IsWhite, StartsWithMember;
    assert |fs| == 1;
  }

  lemma MoreJoined(t: Text, fs: seq<Field>, a: Text, b: Text, c: Text, d: Text, rest: Text)
    requires |fs| > 1 && StartsWithMember(t, fs[0], a, b, c, d, rest) && rest != [] && rest[0] == 0x2C && AreJoined(rest[1..], fs[1..])
    ensures AreJoined(t, fs)
  {
    hide IsWhite, StartsWithMember;
  }

  lemma WhiteJoined(w: Text, t: Text, fs: seq<Field>)
    requires IsWhite(w) && AreJoined(t, fs)
    ensures AreJoined(w + t, fs)
  {
    var a: Text, b: Text, c: Text, d: Text, rest: Text :| StartsWithMember(t, fs[0], a, b, c, d, rest)
      && if |fs| == 1 then rest == [0x7D] else rest != [] && rest[0] == 0x2C && AreJoined(rest[1..], fs[1..]);
    var tail := fs[0].key + (b + ([0x3A] + (c + (fs[0].value + (d + rest)))));
    assert w + (a + tail) == (w + a) + tail;
    assert StartsWithMember(w + t, fs[0], w + a, b, c, d, rest);
  }

  /** The spans of one member, from its key on. */
  lemma MemberIs(s: Text, p: nat, e: nat, room: nat) returns (b: Text, c: Text, d: Text, rest: Text)
    requires p <= |s| && Member(s, p, room).Complete? && SkipSpace(s, Member(s, p, room).end) <= e <= |s|
    ensures StartsWithMember(s[p..e], FieldAt(s, p, room), [], b, c, d, rest)
    ensures rest == s[SkipSpace(s, Member(s, p, room).end)..e]
  {
    hide String, Value, Member, SkipSpace, IsWhite;
    MemberShape(s, p, room);
    var k, m := String(s, p).end, Member(s, p, room).end;
    var colon := SkipSpace(s, k);
    var v, t := SkipSpace(s, colon + 1), SkipSpace(s, m);
    SpaceIsWhite(s, k);
    SpaceIsWhite(s, colon + 1);
    SpaceIsWhite(s, m);
    NothingIsWhite();
    b, c, d, rest := s[k..colon], s[colon + 1..v], s[m..t], s[t..e];
    SevenParts(s, p, k, colon, v, m, t, e);
  }

  lemma NothingIsWhite()
    ensures IsWhite([])
  {
  }

  lemma SevenParts(s: Text, p: nat, k: nat, colon: nat, v: nat, m: nat, t: nat, e: nat)
    requires p <= k <= colon < v <= m <= t <= e <= |s| && s[colon] == 0x3A
    ensures s[p..e] == [] + (s[p..k] + (s[k..colon] + ([0x3A] + (s[colon + 1..v] + (s[v..m] + (s[m..t] + s[t..e]))))))
  {
    assert s[m..e] == s[m..t] + s[t..e];
    assert s[v..e] == s[v..m] + s[m..e];
    assert s[colon + 1..e] == s[colon + 1..v] + s[v..e];
    assert s[colon..e] == [0x3A] + s[colon + 1..e];
    assert s[k..e] == s[k..colon] + s[colon..e];
    assert s[p..e] == s[p..k] + s[k..e];
  }

  lemma MembersEnd(s: Text, p: nat, room: nat)
    requires p <= |s| && Members(s, p, room).Complete?
    ensures Member(s, p, room).Complete?
    ensures var t := SkipSpace(s, Member(s, p, room).end);
      t < Members(s, p, room).end <= |s| && (s[t] == RBRACE ==> Members(s, p, room).end == t + 1)
      && NextKey(s, p, room) == if s[t] == RBRACE then None else Some(SkipSpace(s, t + 1))
  {
    hide SkipSpace, Members, MembersTail, Member;
    MembersShape(s, p, room);
    MembersStep(s, p, room);
    MembersTailStep(s, Member(s, p, room).end, room);
  }

  lemma FieldsUnfold(s: Text, p: nat, room: nat)
    requires p <= |s| && Members(s, p, room).Complete?
    ensures var n := NextKey(s, p, room);
      Member(s, p, room).Complete? && FieldsOf(s, p, room)[0] == FieldAt(s, p, room)
      && FieldsOf(s, p, room)[1..] == if n.None? then [] else FieldsOf(s, n.value, room)
  {
    hide Members, Member, FieldAt, NextKey;
    MembersShape(s, p, room);
  }

  lemma {:induction false} MembersAreJoined(s: Text, p: nat, room: nat)
    requires p <= |s| && Members(s, p, room).Complete?
    ensures p <= Members(s, p, room).end <= |s| && AreJoined(s[p..Members(s, p, room).end], FieldsOf(s, p, room))
    decreases |s| - p
  {
    hide Members, Member, SkipSpace, FieldAt, NextKey, IsWhite, AreJoined, StartsWithMember, FieldsOf;
    MembersShape(s, p, room);
    MembersEnd(s, p, room);
    FieldsUnfold(s, p, room);
    var e, fs := Members(s, p, room).end, FieldsOf(s, p, room);
    var t := SkipSpace(s, Member(s, p, room).end);
    var b, c, d, rest := MemberIs(s, p, e, room);
    if s[t] == RBRACE {
      assert rest == [0x7D];
      OneJoined(s[p..e], fs, [], b, c, d);
    } else {
      var n := SkipSpace(s, t + 1);
      MembersAreJoined(s, n, room);
      SpaceIsWhite(s, t + 1);
      assert rest[1..] == s[t + 1..n] + s[n..e];
      WhiteJoined(s[t + 1..n], s[n..e], fs[1..]);
      MoreJoined(s[p..e], fs, [], b, c, d, rest);
    }
  }

  /** The object at the root of a text, with white space around it. */
  lemma ObjectIsItsMembers(s: Text) returns (before: Text, inner: Text, behind: Text)
    requires IsObjectText(s)
    ensures s == before + ([0x7B] + (inner + behind)) && IsWhite(before) && IsWhite(behind)
    ensures var fs := RootFields(s);
      if fs == [] then inner != [] && inner[|inner| - 1] == 0x7D && IsWhite(inner[..|inner| - 1]) else AreJoined(inner, fs)
  {
    hide Members, IsWhite, AreJoined, FieldsOf, IsObjectText, Object, SkipSpace, RootFields;
    RootEnd(s);
    RootFieldsAre(s);
    var p := SkipSpace(s, 0);
    var q, e := SkipSpace(s, p + 1), Object(s, p, ROOM).end;
    before, inner, behind := s[..p], s[p + 1..e], s[e..];
    Outside(s, p, e);
    if s[q] == RBRACE {
      EmptyInside(s, p + 1, q);
    } else {
      InsideIsJoined(s, p + 1, q, e);
    }
  }

  lemma Outside(s: Text, p: nat, e: nat)
    requires p == SkipSpace(s, 0) && p < e <= |s| && SkipSpace(s, e) == |s| && s[p] == LBRACE
    ensures s == s[..p] + ([0x7B] + (s[p + 1..e] + s[e..])) && IsWhite(s[..p]) && IsWhite(s[e..])
  {
    hide IsWhite, SkipSpace;
    SpaceIsWhite(s, 0);
    SpaceIsWhite(s, e);
    assert s[0..p] == s[..p] && s[e..|s|] == s[e..];
    assert s[p + 1..] == s[p + 1..e] + s[e..];
    assert s[p..] == [s[p]] + s[p + 1..];
    assert s == s[..p] + s[p..];
  }

  lemma EmptyInside(s: Text, p: nat, q: nat)
    requires p <= q < |s| && q == SkipSpace(s, p) && s[q] == RBRACE
    ensures var inner := s[p..q + 1]; inner != [] && inner[|inner| - 1] == 0x7D && IsWhite(inner[..|inner| - 1])
  {
    hide IsWhite, SkipSpace;
    SpaceIsWhite(s, p);
    assert s[p..q + 1] == s[p..q] + [0x7D];
    assert s[p..q + 1][..q - p] == s[p..q];
  }

  lemma InsideIsJoined(s: Text, p: nat, q: nat, e: nat)
    requires p <= q < |s| && q == SkipSpace(s, p) && Members(s, q, ROOM) == Complete(e)
    ensures q <= e <= |s| && AreJoined(s[p..e], FieldsOf(s, q, ROOM))
  {
    hide Members, IsWhite, AreJoined, FieldsOf, SkipSpace;
    SpaceIsWhite(s, p);
    MembersAreJoined(s, q, ROOM);
    assert s[p..e] == s[p..q] + s[q..e];
    WhiteJoined(s[p..q], s[q..e], FieldsOf(s, q, ROOM));
  }

  lemma RootFieldsAre(s: Text)
    requires IsObjectText(s)
    ensures var q := SkipSpace(s, 0) + 1;
      q <= |s| && SkipSpace(s, q) < |s|
      && if s[SkipSpace(s, q)] == RBRACE then RootFields(s) == []
         else Members(s, SkipSpace(s, q), ROOM).Complete? && RootFields(s) == FieldsOf(s, SkipSpace(s, q), ROOM) != []
  {
    hide Members, FieldsOf, IsObjectText, SkipSpace, Object;
    RootObject(s);
  }

  lemma RootEnd(s: Text)
    requires IsObjectText(s)
    ensures var p := SkipSpace(s, 0);
      p < |s| && s[p] == LBRACE && Object(s, p, ROOM).Complete? && SkipSpace(s, Object(s, p, ROOM).end) == |s|
      && SkipSpace(s, p + 1) < |s|
      && Object(s, p, ROOM).end == (if s[SkipSpace(s, p + 1)] == RBRACE then SkipSpace(s, p + 1) + 1 else Members(s, SkipSpace(s, p + 1), ROOM).end)
  {
    hide Members, Utf8;
    RootObject(s);
    SkipSpaceTwice(s, 0);
  }

  /** An object on its own. */
  lemma ObjectIsItsFields(t: Text, room: nat)
    requires IsObjectOf(t, room)
    ensures var fs := ObjectFields(t, room);
      t != [] && t[0] == 0x7B
      && if fs == [] then t[|t| - 1] == 0x7D && |t| >= 2 && IsWhite(t[1..|t| - 1]) else AreJoined(t[1..], fs)
  {
    hide Members, Value, IsWhite, AreJoined, FieldsOf;
    ObjectOpens(t, room);
    var q := SkipSpace(t, 1);
    SpaceIsWhite(t, 1);
    if t[q] == RBRACE {
      EmptyObjectEnds(t, room);
    } else {
      MembersAreJoined(t, q, room - 1);
      assert t[1..] == t[1..q] + t[q..];
      assert t[q..|t|] == t[q..];
      WhiteJoined(t[1..q], t[q..], FieldsOf(t, q, room - 1));
    }
  }

  lemma EmptyObjectEnds(t: Text, room: nat)
    requires IsObjectOf(t, room) && SkipSpace(t, 1) < |t| && t[SkipSpace(t, 1)] == RBRACE
    ensures SkipSpace(t, 1) + 1 == |t|
  {
    hide Members, Utf8;
    assert SkipSpace(t, 0) == 0;
    assert Value(t, 0, room) == if room == 0 then Invalid else Object(t, 0, room - 1);
  }
}
