/** Which objects are requests, told from the names and values of their members as a client writes them. */
module RequestLaws {
  import opened Bytes
  import opened JsonSyntax
  import opened JsonString
  import opened Spelling
  import opened JsonObject
  import opened JsonMembers
  import opened RpcRequest
  import opened RpcResponse
  import opened RpcDispatch
  import opened RpcOutcomes

  /** A member with this name is among them. */
  ghost predicate Names(fields: seq<Entry>, name: string) {
    exists i :: 0 <= i < |fields| && IsLiteral(Codes(fields[i].name), name)
  }

  predicate NoTwoAlike(fields: seq<Entry>) {
    forall i, j :: 0 <= i < j < |fields| ==> fields[i].name != fields[j].name
  }

  predicate IsText(tree: Tree) {
    tree.Leaf? && tree.text != [] && tree.text[0] == 0x22
  }

  predicate IsNumberText(tree: Tree) {
    tree.Leaf? && tree.text != [] && (tree.text[0] == 0x2D || 0x30 <= tree.text[0] <= 0x39)
  }

  predicate IsNull(tree: Tree) {
    tree == Leaf([0x6E, 0x75, 0x6C, 0x6C])
  }

  /** The values that the known members may have. */
  predicate Fits(entry: Entry) {
    var name := Codes(entry.name);
    (IsLiteral(name, "m") || IsLiteral(name, "method") ==> IsText(entry.tree))
    && (IsLiteral(name, "p") || IsLiteral(name, "params") ==> entry.tree.Obj? || IsNull(entry.tree))
    && (IsLiteral(name, "id") ==> IsText(entry.tree) || IsNumberText(entry.tree) || IsNull(entry.tree))
    && (IsLiteral(name, "jsonrpc") ==> entry.tree.Leaf? && TextReads(entry.tree.text, "2.0"))
  }

  /** One of the two dialects, and nothing of the other. */
  ghost predicate SpeaksCompact(fields: seq<Entry>) {
    Names(fields, "m") && !Names(fields, "method") && !Names(fields, "params") && !Names(fields, "jsonrpc")
  }

  ghost predicate SpeaksStandard(fields: seq<Entry>) {
    Names(fields, "jsonrpc") && Names(fields, "method") && !Names(fields, "m") && !Names(fields, "p")
  }

  ghost predicate IsRequestObject(fields: seq<Entry>) {
    |fields| <= 32 && NoTwoAlike(fields) && (forall i :: 0 <= i < |fields| ==> Fits(fields[i]))
    && (SpeaksCompact(fields) || SpeaksStandard(fields))
  }

  // ---------------------------------------------------------------- what the parser makes of it

  predicate IsKeyOf(name: seq<nat>, kind: KeyKind) {
    match kind
    case CompactMethod => IsLiteral(name, "m")
    case StandardMethod => IsLiteral(name, "method")
    case CompactParams => IsLiteral(name, "p")
    case StandardParams => IsLiteral(name, "params")
    case Id => IsLiteral(name, "id")
    case JsonRpc => IsLiteral(name, "jsonrpc")
    case Other =>
      !IsLiteral(name, "m") && !IsLiteral(name, "method") && !IsLiteral(name, "p") && !IsLiteral(name, "params")
      && !IsLiteral(name, "id") && !IsLiteral(name, "jsonrpc")
  }

  lemma KeysDiffer(name: seq<nat>)
    ensures IsLiteral(name, "m") ==> |name| == 1 && name[0] == 'm' as int
    ensures IsLiteral(name, "p") ==> |name| == 1 && name[0] == 'p' as int
    ensures IsLiteral(name, "id") ==> |name| == 2
    ensures IsLiteral(name, "method") ==> |name| == 6 && name[0] == 'm' as int
    ensures IsLiteral(name, "params") ==> |name| == 6 && name[0] == 'p' as int
    ensures IsLiteral(name, "jsonrpc") ==> |name| == 7
  {
  }

  lemma KeyIsRead(name: seq<nat>, kind: KeyKind)
    ensures KindOfKey(name) == kind <==> IsKeyOf(name, kind)
  {
    hide Codes, IsLiteral;
    LiteralIsCodes(name, "m");
    LiteralIsCodes(name, "method");
    LiteralIsCodes(name, "p");
    LiteralIsCodes(name, "params");
    LiteralIsCodes(name, "id");
    LiteralIsCodes(name, "jsonrpc");
    KeysDiffer(name);
  }

  lemma EntryIsTree(fields: seq<Entry>, i: nat)
    requires AreEntries(fields, 31) && i < |fields|
    ensures IsName(fields[i].name) && IsTree(fields[i].tree, 31)
  {
    if i > 0 {
      EntryIsTree(fields[1..], i - 1);
    }
  }

  lemma FitsIsRead(entry: Entry)
    requires IsTree(entry.tree, 31)
    ensures ValueFits(KindOfKey(Codes(entry.name)), Render(entry.tree)) <==> Fits(entry)
  {
    hide Codes, IsLiteral, IsToken, Decoded, RenderFields, AreEntries;
    var name, v := Codes(entry.name), Render(entry.tree);
    KeyIsRead(name, KindOfKey(name));
    KeysDiffer(name);
    if entry.tree.Leaf? {
      LeafStarts(entry.tree.text);
      if IsToken(v) {
        LiteralIsCodes(Decoded(v), "2.0");
      }
    } else {
      assert v[0] == LBRACE;
      if IsToken(v) {
        TokenStarts(v);
      }
    }
  }

  /** A text is a string if it starts with a quotation mark, and then has two of them. */
  lemma LeafStarts(t: Text)
    requires IsLeaf(t)
    ensures t != [] && t[0] != LBRACE && t[0] != LBRACKET && (t[0] == QUOTE ==> |t| >= 2)
  {
    hide StringBody;
    if t[0] == QUOTE {
      QuotedLeafIsToken(t);
    }
  }

  /** The members that the parser finds. */
  predicate Shows(fs: seq<Field>, fields: seq<Entry>) {
    |fs| == |fields|
    && forall i :: 0 <= i < |fields| ==>
         IsMemberOf(fs[i]) && Decoded(fs[i].key) == Codes(fields[i].name) && fs[i].value == Render(fields[i].tree)
  }

  lemma PrintedShows(fields: seq<Entry>)
    requires fields != [] && AreEntries(fields, 31)
    ensures IsObjectText(Render(Obj(fields))) && Shows(RootFields(Render(Obj(fields))), fields)
  {
    hide AreEntries, IsName, IsTree, Decoded, IsToken, IsScalarOrContainer, IsObjectText, RootFields, Render, Codes;
    var s := Render(Obj(fields));
    PrintedReads(fields);
    RootFieldsAreMembers(s);
    forall i | 0 <= i < |fields| ensures IsMemberOf(RootFields(s)[i]) && Decoded(RootFields(s)[i].key) == Codes(fields[i].name) {
      EntryIsTree(fields, i);
      QuotedMeans(fields[i].name);
    }
  }

  lemma HasIsNames(fs: seq<Field>, fields: seq<Entry>, kind: KeyKind, name: string)
    requires Shows(fs, fields) && AllMembers(fs) && (forall n: seq<nat> :: KindOfKey(n) == kind <==> IsLiteral(n, name))
    ensures Has(fs, kind) <==> Names(fields, name)
  {
    hide IsToken, Decoded, KindOfKey, IsLiteral, Codes, IsScalarOrContainer;
    if Has(fs, kind) {
      var i :| 0 <= i < |fs| && KindOf(fs[i]) == kind;
      assert IsLiteral(Codes(fields[i].name), name);
    }
    if Names(fields, name) {
      var i :| 0 <= i < |fields| && IsLiteral(Codes(fields[i].name), name);
      assert KindOf(fs[i]) == kind;
    }
  }

  lemma KeysRead()
    ensures forall n: seq<nat> :: KindOfKey(n) == CompactMethod <==> IsLiteral(n, "m")
    ensures forall n: seq<nat> :: KindOfKey(n) == StandardMethod <==> IsLiteral(n, "method")
    ensures forall n: seq<nat> :: KindOfKey(n) == CompactParams <==> IsLiteral(n, "p")
    ensures forall n: seq<nat> :: KindOfKey(n) == StandardParams <==> IsLiteral(n, "params")
    ensures forall n: seq<nat> :: KindOfKey(n) == Id <==> IsLiteral(n, "id")
    ensures forall n: seq<nat> :: KindOfKey(n) == JsonRpc <==> IsLiteral(n, "jsonrpc")
  {
    hide KindOfKey, IsLiteral;
    forall n: seq<nat> ensures KindOfKey(n) == CompactMethod <==> IsLiteral(n, "m") { KeyIsRead(n, CompactMethod); }
    forall n: seq<nat> ensures KindOfKey(n) == StandardMethod <==> IsLiteral(n, "method") { KeyIsRead(n, StandardMethod); }
    forall n: seq<nat> ensures KindOfKey(n) == CompactParams <==> IsLiteral(n, "p") { KeyIsRead(n, CompactParams); }
    forall n: seq<nat> ensures KindOfKey(n) == StandardParams <==> IsLiteral(n, "params") { KeyIsRead(n, StandardParams); }
    forall n: seq<nat> ensures KindOfKey(n) == Id <==> IsLiteral(n, "id") { KeyIsRead(n, Id); }
    forall n: seq<nat> ensures KindOfKey(n) == JsonRpc <==> IsLiteral(n, "jsonrpc") { KeyIsRead(n, JsonRpc); }
  }

  lemma DistinctIsNoTwoAlike(fs: seq<Field>, fields: seq<Entry>)
    requires Shows(fs, fields) && AllMembers(fs)
    ensures Distinct(fs) <==> NoTwoAlike(fields)
  {
    hide IsToken, Decoded, IsScalarOrContainer;
    forall i, j | 0 <= i < j < |fields| ensures Codes(fields[i].name) == Codes(fields[j].name) <==> fields[i].name == fields[j].name {
      SameCodes(fields[i].name, fields[j].name);
    }
  }

  lemma SameCodes(a: Text, b: Text)
    ensures Codes(a) == Codes(b) <==> a == b
  {
    if Codes(a) == Codes(b) {
      assert |a| == |Codes(a)| == |b|;
      assert forall i :: 0 <= i < |a| ==> a[i] == Codes(a)[i] == Codes(b)[i] == b[i];
    }
  }

  lemma ValuesFitIsFits(fs: seq<Field>, fields: seq<Entry>)
    requires Shows(fs, fields) && AllMembers(fs) && forall i :: 0 <= i < |fields| ==> IsTree(fields[i].tree, 31)
    ensures ValuesFit(fs) <==> forall i :: 0 <= i < |fields| ==> Fits(fields[i])
  {
    hide IsToken, Decoded, IsScalarOrContainer, ValueFits, Fits, KindOfKey, Codes, Render, IsTree;
    forall i | 0 <= i < |fields| ensures ValueFits(KindOf(fs[i]), fs[i].value) <==> Fits(fields[i]) {
      FitsIsRead(fields[i]);
    }
  }

  /**
   * An object that a client writes is a request exactly if it has at most 32 members, no two of one name,
   * each known one with a value that fits, and if it speaks one of the dialects and has no method,
   * parameters or version of the other.
   */
  lemma PrintedRequestDecided(fields: seq<Entry>)
    requires fields != [] && AreEntries(fields, 31)
    ensures IsRequest(Render(Obj(fields))) <==> IsRequestObject(fields)
  {
    hide AreEntries, IsName, IsTree, IsMemberOf, IsObjectText, RootFields, Render, Codes, IsLiteral, KindOfKey, Fits, Has, Names, NoTwoAlike, Distinct, ValuesFit, Shows;
    var s := Render(Obj(fields));
    PrintedShows(fields);
    RootFieldsAreMembers(s);
    var fs := RootFields(s);
    ShowsAll(fs, fields);
    forall i | 0 <= i < |fields| ensures IsTree(fields[i].tree, 31) {
      EntryIsTree(fields, i);
    }
    KeysRead();
    HasIsNames(fs, fields, CompactMethod, "m");
    HasIsNames(fs, fields, StandardMethod, "method");
    HasIsNames(fs, fields, CompactParams, "p");
    HasIsNames(fs, fields, StandardParams, "params");
    HasIsNames(fs, fields, JsonRpc, "jsonrpc");
    DistinctIsNoTwoAlike(fs, fields);
    ValuesFitIsFits(fs, fields);
  }

  lemma ShowsAll(fs: seq<Field>, fields: seq<Entry>)
    requires Shows(fs, fields)
    ensures |fs| == |fields|
  {
  }

  /** The member with this name has this value. */
  ghost predicate NamedAs(fields: seq<Entry>, name: string, v: Text) {
    exists i :: 0 <= i < |fields| && IsLiteral(Codes(fields[i].name), name) && Render(fields[i].tree) == v
  }

  lemma HoldsIsNamed(fs: seq<Field>, fields: seq<Entry>, kind: KeyKind, name: string, v: Text)
    requires Shows(fs, fields) && AllMembers(fs) && (forall n: seq<nat> :: KindOfKey(n) == kind <==> IsLiteral(n, name))
    ensures Holds(fs, kind, v) <==> NamedAs(fields, name, v)
  {
    hide IsToken, Decoded, KindOfKey, IsLiteral, Codes, IsScalarOrContainer, Render;
    if Holds(fs, kind, v) {
      var i :| 0 <= i < |fs| && KindOf(fs[i]) == kind && fs[i].value == v;
      assert IsLiteral(Codes(fields[i].name), name);
    }
    if NamedAs(fields, name, v) {
      var i :| 0 <= i < |fields| && IsLiteral(Codes(fields[i].name), name) && Render(fields[i].tree) == v;
      assert KindOf(fs[i]) == kind;
    }
  }

  /** What the parser takes from it: the method, the parameters and the id under their names, in its dialect. */
  lemma PrintedRequestMeans(fields: seq<Entry>, r: Request)
    requires fields != [] && AreEntries(fields, 31) && IsRequest(Render(Obj(fields))) && Gathered(r, RootFields(Render(Obj(fields))))
    ensures SpeaksCompact(fields) ==> NamedAs(fields, "m", r.requestMethod)
    ensures SpeaksStandard(fields) ==> NamedAs(fields, "method", r.requestMethod)
    ensures SpeaksCompact(fields) ==> r.hasCompactParams == Names(fields, "p") && (r.hasCompactParams ==> NamedAs(fields, "p", r.params))
    ensures SpeaksStandard(fields) ==> r.hasStandardParams == Names(fields, "params") && (r.hasStandardParams ==> NamedAs(fields, "params", r.params))
    ensures r.hasId == Names(fields, "id") && (r.hasId ==> NamedAs(fields, "id", r.id))
  {
    hide AreEntries, IsName, IsTree, IsMemberOf, IsObjectText, RootFields, Render, Codes, IsLiteral, KindOfKey, Fits, Has, Holds, Names, NamedAs, Distinct, ValuesFit, Shows;
    PrintedShows(fields);
    var fs := RootFields(Render(Obj(fields)));
    KeysRead();
    HasIsNames(fs, fields, CompactMethod, "m");
    HasIsNames(fs, fields, StandardMethod, "method");
    HasIsNames(fs, fields, CompactParams, "p");
    HasIsNames(fs, fields, StandardParams, "params");
    HasIsNames(fs, fields, Id, "id");
    HoldsIsNamed(fs, fields, CompactMethod, "m", r.requestMethod);
    HoldsIsNamed(fs, fields, StandardMethod, "method", r.requestMethod);
    HoldsIsNamed(fs, fields, CompactParams, "p", r.params);
    HoldsIsNamed(fs, fields, StandardParams, "params", r.params);
    HoldsIsNamed(fs, fields, Id, "id", r.id);
  }

  /** Two spellings of one key are one key: such an object is no request. */
  lemma TwoSpellingsAreRefused(s: Text, i: nat, j: nat, pieces: seq<Text>, others: seq<Text>, cs: seq<nat>)
    requires IsObjectText(s) && i < j < |RootFields(s)| && AreSpelled(pieces, cs) && AreSpelled(others, cs)
    requires RootFields(s)[i].key == InQuotes(pieces) && RootFields(s)[j].key == InQuotes(others)
    ensures !IsRequest(s)
  {
    hide IsObjectText, RootFields, AreSpelled, ValuesFit, IsCompact, IsStandard, IsToken, Decoded, InQuotes;
    SpellingDecodes(pieces, cs);
    SpellingDecodes(others, cs);
    RootFieldsAreMembers(s);
  }

  // ---------------------------------------------------------------- what any text asks

  ghost predicate HasKey(fs: seq<Field>, name: string) {
    exists i :: 0 <= i < |fs| && TextReads(fs[i].key, name)
  }

  ghost predicate HasMember(fs: seq<Field>, name: string, v: Text) {
    exists i :: 0 <= i < |fs| && TextReads(fs[i].key, name) && fs[i].value == v
  }

  lemma KeyOfKind(fs: seq<Field>, kind: KeyKind, name: string, v: Text)
    requires AllMembers(fs) && (forall n: seq<nat> :: KindOfKey(n) == kind <==> IsLiteral(n, name))
    ensures Has(fs, kind) <==> HasKey(fs, name)
    ensures Holds(fs, kind, v) <==> HasMember(fs, name, v)
  {
    hide IsToken, Decoded, KindOfKey, IsLiteral, IsScalarOrContainer;
    forall i | 0 <= i < |fs| ensures KindOf(fs[i]) == kind <==> TextReads(fs[i].key, name) {
      assert IsMemberOf(fs[i]);
    }
  }

  /**
   * What any request asks, by the names of its members, whatever stands between them: the dialect, the
   * method, the parameters and the id.
   */
  lemma AsksMeans(json: Text, r: Request, kind: MethodKind, canonical: Text)
    requires Asks(json, r, kind, canonical)
    ensures var fs, standard := RootFields(json), r.dialect == Standard;
      (standard <==> HasKey(fs, "jsonrpc"))
      && HasMember(fs, if standard then "method" else "m", r.requestMethod)
      && (HasParams(r) <==> HasKey(fs, if standard then "params" else "p"))
      && (HasParams(r) ==> HasMember(fs, if standard then "params" else "p", r.params))
      && (r.hasId <==> HasKey(fs, "id")) && (r.hasId ==> HasMember(fs, "id", r.id))
  {
    hide RootFields, IsObjectText, AllMembers, Distinct, ValuesFit, Has, Holds, HasKey, HasMember, KindOfKey, IsLiteral, Identified, IsToken, Decoded;
    KeysRead();
    var fs := RootFields(json);
    KeyOfKind(fs, CompactMethod, "m", r.requestMethod);
    KeyOfKind(fs, StandardMethod, "method", r.requestMethod);
    KeyOfKind(fs, CompactParams, "p", r.params);
    KeyOfKind(fs, StandardParams, "params", r.params);
    KeyOfKind(fs, Id, "id", r.id);
    KeyOfKind(fs, JsonRpc, "jsonrpc", []);
  }
}
