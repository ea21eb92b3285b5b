/** `parse_request` and `identify_method` of src/protocol/rpc.c: which texts are requests, and what they ask. */
module RpcRequest {
  import opened Bytes
  import opened JsonSyntax
  import opened JsonPrefix
  import opened JsonString
  import opened JsonObject
  import opened JsonMembers
  import opened ChannelSpec
  import JsonParser

  const MAX_FIELDS: nat := 32
  const ROOM: nat := 31

  // ---------------------------------------------------------------- the members of the root

  predicate IsObjectText(s: Text) {
    ScanText(s, JSON_MAX_DEPTH).result.COMPLETE?
    && SkipSpace(s, 0) < |s| && s[SkipSpace(s, 0)] == LBRACE
  }

  lemma RootObject(s: Text)
    requires IsObjectText(s)
    ensures var p := SkipSpace(s, 0);
      Object(s, p, ROOM).Complete? && SkipSpace(s, p + 1) < |s|
      && (s[SkipSpace(s, p + 1)] != RBRACE ==> Members(s, SkipSpace(s, p + 1), ROOM).Complete?)
    ensures Utf8(s, 0).COMPLETE?
  {
    hide Members, Utf8;
    SkipSpaceTwice(s, 0);
  }

  function RootFields(s: Text): seq<Field>
    requires IsObjectText(s)
  {
    hide Members, Utf8, IsObjectText;
    RootObject(s);
    var q := SkipSpace(s, SkipSpace(s, 0) + 1);
    if s[q] == RBRACE then [] else FieldsOf(s, q, ROOM)
  }

  lemma RootFieldsAreMembers(s: Text)
    requires IsObjectText(s)
    ensures forall i :: 0 <= i < |RootFields(s)| ==> IsMemberOf(RootFields(s)[i])
  {
    hide Utf8, Members, FieldsOf, IsMemberOf, IsObjectText, SkipSpace;
    RootObject(s);
    var q := SkipSpace(s, SkipSpace(s, 0) + 1);
    if s[q] != RBRACE {
      FieldsAreMembers(s, q, ROOM);
    }
  }

  // ---------------------------------------------------------------- what a request is

  const KEY_M: Text := Ascii("m")
  const KEY_METHOD: Text := Ascii("method")
  const KEY_P: Text := Ascii("p")
  const KEY_PARAMS: Text := Ascii("params")
  const KEY_ID: Text := Ascii("id")
  const KEY_JSONRPC: Text := Ascii("jsonrpc")
  const VERSION_2: Text := Ascii("2.0")

  datatype KeyKind = CompactMethod | StandardMethod | CompactParams | StandardParams | Id | JsonRpc | Other

  function KindOfKey(key: seq<nat>): KeyKind {
    if key == Codes(KEY_M) then CompactMethod
    else if key == Codes(KEY_METHOD) then StandardMethod
    else if key == Codes(KEY_P) then CompactParams
    else if key == Codes(KEY_PARAMS) then StandardParams
    else if key == Codes(KEY_ID) then Id
    else if key == Codes(KEY_JSONRPC) then JsonRpc
    else Other
  }

  function KindOf(f: Field): KeyKind
    requires IsToken(f.key)
  {
    KindOfKey(Decoded(f.key))
  }

  predicate IsIdValue(v: Text) {
    v == NULL || (|v| >= 2 && v[0] == QUOTE) || (v != [] && (v[0] == MINUS || IsDigit(v[0])))
  }

  predicate IsParamsValue(v: Text) {
    v == NULL || (v != [] && (v[0] == LBRACE || v[0] == LBRACKET))
  }

  /** What a member with a known key must hold. */
  predicate ValueFits(kind: KeyKind, v: Text) {
    match kind
    case CompactMethod => |v| >= 2 && v[0] == QUOTE
    case StandardMethod => |v| >= 2 && v[0] == QUOTE
    case CompactParams => IsParamsValue(v)
    case StandardParams => IsParamsValue(v)
    case Id => IsIdValue(v)
    case JsonRpc => IsToken(v) && Decoded(v) == Codes(VERSION_2)
    case Other => true
  }

  ghost predicate Has(fs: seq<Field>, kind: KeyKind)
    requires AllMembers(fs)
  {
    exists i :: 0 <= i < |fs| && KindOf(fs[i]) == kind
  }

  /** The member with a key of this kind has the value v. */
  ghost predicate Holds(fs: seq<Field>, kind: KeyKind, v: Text)
    requires AllMembers(fs)
  {
    exists i :: 0 <= i < |fs| && KindOf(fs[i]) == kind && fs[i].value == v
  }

  /** No two keys mean the same, however they are escaped. */
  predicate Distinct(fs: seq<Field>)
    requires AllMembers(fs)
  {
    forall i, j :: 0 <= i < j < |fs| ==> Decoded(fs[i].key) != Decoded(fs[j].key)
  }

  predicate ValuesFit(fs: seq<Field>)
    requires AllMembers(fs)
  {
    forall i :: 0 <= i < |fs| ==> ValueFits(KindOf(fs[i]), fs[i].value)
  }

  ghost predicate IsCompact(fs: seq<Field>)
    requires AllMembers(fs)
  {
    Has(fs, CompactMethod) && !Has(fs, StandardMethod) && !Has(fs, JsonRpc) && !Has(fs, StandardParams)
  }

  ghost predicate IsStandard(fs: seq<Field>)
    requires AllMembers(fs)
  {
    Has(fs, StandardMethod) && Has(fs, JsonRpc) && !Has(fs, CompactMethod) && !Has(fs, CompactParams)
  }

  /** The texts that are requests. */
  ghost predicate IsRequest(s: Text) {
    IsObjectText(s)
    && var fs := RootFields(s);
       AllMembers(fs) && |fs| <= MAX_FIELDS && Distinct(fs) && ValuesFit(fs) && (IsCompact(fs) || IsStandard(fs))
  }

  datatype Dialect = Compact | Standard

  datatype Request = Request(
    requestMethod: Text, id: Text, params: Text,
    hasId: bool, hasJsonrpc: bool,
    hasCompactMethod: bool, hasStandardMethod: bool, hasCompactParams: bool, hasStandardParams: bool,
    dialect: Dialect)

  const NO_REQUEST: Request := Request([], [], [], false, false, false, false, false, false, Compact)

  /** What the parser has gathered from the members so far. */
  ghost predicate Gathered(r: Request, fs: seq<Field>)
    requires AllMembers(fs)
  {
    (r.hasCompactMethod <==> Has(fs, CompactMethod))
    && (r.hasStandardMethod <==> Has(fs, StandardMethod))
    && (r.hasCompactParams <==> Has(fs, CompactParams))
    && (r.hasStandardParams <==> Has(fs, StandardParams))
    && (r.hasId <==> Has(fs, Id))
    && (r.hasJsonrpc <==> Has(fs, JsonRpc))
    && (r.hasId ==> Holds(fs, Id, r.id))
    && (r.hasCompactMethod && !r.hasStandardMethod ==> Holds(fs, CompactMethod, r.requestMethod))
    && (r.hasStandardMethod && !r.hasCompactMethod ==> Holds(fs, StandardMethod, r.requestMethod))
    && (r.hasCompactParams && !r.hasStandardParams ==> Holds(fs, CompactParams, r.params))
    && (r.hasStandardParams && !r.hasCompactParams ==> Holds(fs, StandardParams, r.params))
  }

  /** The flag of a kind that was gathered already. */
  function Seen(r: Request, kind: KeyKind): bool {
    match kind
    case CompactMethod => r.hasCompactMethod
    case StandardMethod => r.hasStandardMethod
    case CompactParams => r.hasCompactParams
    case StandardParams => r.hasStandardParams
    case Id => r.hasId
    case JsonRpc => r.hasJsonrpc
    case Other => false
  }

  function Absorb(r: Request, kind: KeyKind, v: Text): Request {
    match kind
    case CompactMethod => r.(hasCompactMethod := true, requestMethod := v)
    case StandardMethod => r.(hasStandardMethod := true, requestMethod := v)
    case CompactParams => r.(hasCompactParams := true, params := v)
    case StandardParams => r.(hasStandardParams := true, params := v)
    case Id => r.(hasId := true, id := v)
    case JsonRpc => r.(hasJsonrpc := true)
    case Other => r
  }

  lemma HasOneMore(fs: seq<Field>, f: Field, kind: KeyKind)
    requires AllMembers(fs) && IsMemberOf(f)
    ensures AllMembers(fs + [f])
    ensures Has(fs + [f], kind) <==> Has(fs, kind) || KindOf(f) == kind
    ensures forall v :: Holds(fs + [f], kind, v) <==> Holds(fs, kind, v) || (KindOf(f) == kind && f.value == v)
  {
    hide IsToken, IsScalarOrContainer, KindOf;
    var g := fs + [f];
    assert g[|fs|] == f;
    forall i | 0 <= i < |fs| ensures g[i] == fs[i] {
    }
    forall v | Holds(fs, kind, v) ensures Holds(g, kind, v) {
      var i :| 0 <= i < |fs| && KindOf(fs[i]) == kind && fs[i].value == v;
      assert g[i] == fs[i];
    }
    if Has(fs, kind) {
      var i :| 0 <= i < |fs| && KindOf(fs[i]) == kind;
      assert g[i] == fs[i];
    }
  }

  lemma AbsorbGathers(r: Request, fs: seq<Field>, f: Field)
    requires AllMembers(fs) && IsMemberOf(f) && Gathered(r, fs)
    ensures AllMembers(fs + [f]) && Gathered(Absorb(r, KindOf(f), f.value), fs + [f])
  {
    hide IsMemberOf, KindOf, Has, Holds, AllMembers;
    HasOneMore(fs, f, CompactMethod);
    HasOneMore(fs, f, StandardMethod);
    HasOneMore(fs, f, CompactParams);
    HasOneMore(fs, f, StandardParams);
    HasOneMore(fs, f, Id);
    HasOneMore(fs, f, JsonRpc);
  }

  lemma KindIsKey(a: seq<nat>, b: seq<nat>)
    requires KindOfKey(a) == KindOfKey(b) && KindOfKey(a) != Other
    ensures a == b
  {
    hide Codes;
  }

  /** A kind that was seen already means a repeated key. */
  lemma SeenIsRepeated(r: Request, fs: seq<Field>, f: Field)
    requires AllMembers(fs) && IsMemberOf(f) && Gathered(r, fs) && Seen(r, KindOf(f))
    ensures exists i :: 0 <= i < |fs| && Decoded(fs[i].key) == Decoded(f.key)
  {
    hide IsToken, IsScalarOrContainer, Holds, KindOfKey, Decoded;
    var kind := KindOf(f);
    assert kind != Other && Has(fs, kind);
    var i :| 0 <= i < |fs| && KindOf(fs[i]) == kind;
    KindIsKey(Decoded(fs[i].key), Decoded(f.key));
  }

  // ---------------------------------------------------------------- parsing

  method ClassifyKey(key: Text) returns (kind: KeyKind)
    requires IsToken(key)
    ensures kind == KindOfKey(Decoded(key))
  {
    hide IsToken, Decoded;
    var same := EqualsLiteral(key, KEY_M);
    if same { return CompactMethod; }
    same := EqualsLiteral(key, KEY_METHOD);
    if same { return StandardMethod; }
    same := EqualsLiteral(key, KEY_P);
    if same { return CompactParams; }
    same := EqualsLiteral(key, KEY_PARAMS);
    if same { return StandardParams; }
    same := EqualsLiteral(key, KEY_ID);
    if same { return Id; }
    same := EqualsLiteral(key, KEY_JSONRPC);
    return if same then JsonRpc else Other;
  }

  method ValueIsFit(kind: KeyKind, v: Text) returns (fit: bool)
    requires IsScalarOrContainer(v)
    ensures fit <==> ValueFits(kind, v)
  {
    hide IsToken, Decoded, Number;
    match kind {
      case CompactMethod => return |v| >= 2 && v[0] == QUOTE;
      case StandardMethod => return |v| >= 2 && v[0] == QUOTE;
      case CompactParams => return IsParamsValue(v);
      case StandardParams => return IsParamsValue(v);
      case Id => return IsIdValue(v);
      case JsonRpc =>
        QuotedLeafIsToken(v);
        fit := EqualsLiteral(v, VERSION_2);
      case Other => return true;
    }
  }

  /** A leaf that starts with a quote is a string. */
  lemma QuotedLeafIsToken(v: Text)
    requires IsScalarOrContainer(v)
    ensures v[0] == QUOTE ==> IsToken(v)
  {
  }

  /** Whether one of the first keys means the same as the new one. */
  method IsRepeated(key: Text, keys: array<Text>, count: nat) returns (repeated: bool)
    requires IsToken(key) && count <= keys.Length && forall i :: 0 <= i < count ==> IsToken(keys[i])
    ensures repeated <==> exists i :: 0 <= i < count && Decoded(keys[i]) == Decoded(key)
  {
    hide IsToken, Decoded;
    var i := 0;
    while i < count
      invariant 0 <= i <= count
      invariant forall k :: 0 <= k < i ==> Decoded(keys[k]) != Decoded(key)
    {
      var equal := StringsEqual(key, keys[i]);
      if equal {
        return true;
      }
      i := i + 1;
    }
    return false;
  }

  /** Whether the members so far may belong to a request. */
  ghost predicate Passing(fs: seq<Field>)
    requires AllMembers(fs)
  {
    |fs| <= MAX_FIELDS && Distinct(fs) && ValuesFit(fs)
  }

  lemma PassingPrefix(fs: seq<Field>, n: nat)
    requires AllMembers(fs) && n <= |fs| && Passing(fs)
    ensures AllMembers(fs[..n]) && Passing(fs[..n])
  {
    hide IsMemberOf, KindOf, ValueFits;
  }

  lemma PassingOneMore(fs: seq<Field>, f: Field)
    requires AllMembers(fs) && IsMemberOf(f) && Passing(fs)
    ensures AllMembers(fs + [f])
    ensures Passing(fs + [f]) <==>
      |fs| < MAX_FIELDS && ValueFits(KindOf(f), f.value) && forall i :: 0 <= i < |fs| ==> Decoded(fs[i].key) != Decoded(f.key)
  {
    hide IsMemberOf, KindOf, ValueFits, Decoded, IsToken;
    var g := fs + [f];
    assert g[|fs|] == f;
    assert forall i :: 0 <= i < |fs| ==> g[i] == fs[i];
    MembersHaveTokens(g);
    if Passing(g) {
      forall i | 0 <= i < |fs| ensures Decoded(fs[i].key) != Decoded(f.key) {
        assert Decoded(g[i].key) != Decoded(g[|fs|].key);
      }
    }
  }

  lemma MembersHaveTokens(fs: seq<Field>)
    requires AllMembers(fs)
    ensures forall i :: 0 <= i < |fs| ==> IsToken(fs[i].key) && IsScalarOrContainer(fs[i].value)
  {
  }

  /** A member that spoils the list spoils every longer one. */
  lemma Spoiled(s: Text, done: seq<Field>, rest: seq<Field>)
    requires IsObjectText(s) && RootFields(s) == done + rest && rest != []
    requires AllMembers(done + [rest[0]]) && !Passing(done + [rest[0]])
    ensures !IsRequest(s)
  {
    hide IsMemberOf, Passing, IsObjectText, RootFields, AllMembers;
    if IsRequest(s) {
      var fs := RootFields(s);
      assert Passing(fs) by { PassingMeans(fs); }
      assert fs[..|done| + 1] == done + [rest[0]];
      PassingPrefix(fs, |done| + 1);
    }
  }

  lemma PassingMeans(fs: seq<Field>)
    requires AllMembers(fs)
    ensures Passing(fs) <==> |fs| <= MAX_FIELDS && Distinct(fs) && ValuesFit(fs)
  {
  }

  /** Nothing has been refused so far: the members in `done` are passed, their keys kept, their values gathered. */
  ghost predicate GoesWell(json: Text, request: Request, keys: seq<Text>, done: seq<Field>, rest: seq<Field>) {
    IsObjectText(json) && RootFields(json) == done + rest && AllMembers(done)
    && Passing(done) && Gathered(request, done)
    && |keys| == |done| && forall i :: 0 <= i < |keys| ==> IsToken(keys[i]) && keys[i] == done[i].key
  }

  lemma WentWell(json: Text, request: Request, taken: Request, keys: seq<Text>, done: seq<Field>, rest: seq<Field>)
    requires GoesWell(json, request, keys, done, rest) && rest != [] && IsMemberOf(rest[0])
    requires AllMembers(done + [rest[0]]) && Passing(done + [rest[0]]) && Gathered(taken, done + [rest[0]])
    ensures GoesWell(json, taken, keys + [rest[0].key], done + [rest[0]], rest[1..])
  {
    hide IsObjectText, RootFields, IsMemberOf, IsToken, Passing, AllMembers, Gathered;
    assert done + rest == (done + [rest[0]]) + rest[1..];
    TokenOf(rest[0]);
  }

  /** The chain of comparisons with the known keys; a key that is not repeated was not seen before. */
  method GatherField(request: Request, field: Field, ghost done: seq<Field>) returns (fit: bool, taken: Request)
    requires AllMembers(done) && IsMemberOf(field) && Gathered(request, done)
    requires forall i :: 0 <= i < |done| ==> Decoded(done[i].key) != Decoded(field.key)
    ensures fit <==> ValueFits(KindOf(field), field.value)
    ensures fit ==> AllMembers(done + [field]) && Gathered(taken, done + [field])
  {
    hide IsMemberOf, IsToken, KindOf, AllMembers, Gathered, Decoded, ValueFits;
    TokenOf(field);
    taken := request;
    var kind := ClassifyKey(field.key);
    KindMeans(field);
    if Seen(request, kind) {
      SeenIsRepeated(request, done, field);
      assert false;
    }
    fit := ValueIsFit(kind, field.value);
    if fit {
      AbsorbGathers(request, done, field);
      taken := Absorb(request, kind, field.value);
    }
  }

  /** One round of the loop: the next member is refused, and the text is no request, or taken. */
  method TakeMember(json: Text, start: nat, request: Request, keys: array<Text>, keyCount: nat, ghost done: seq<Field>, ghost rest: seq<Field>)
    returns (ok: bool, taken: Request, pos: nat)
    requires keyCount <= keys.Length == MAX_FIELDS
    requires start < |json| && StandsAt(json, start, rest, ROOM) && rest != [] && GoesWell(json, request, keys[..keyCount], done, rest)
    modifies keys
    ensures !ok ==> !IsRequest(json)
    ensures ok ==> keyCount < MAX_FIELDS && StandsAt(json, pos, rest[1..], ROOM)
    ensures ok ==> GoesWell(json, taken, keys[..keyCount + 1], done + [rest[0]], rest[1..])
  {
    hide ScanText, Members, Member, FieldAt, FieldsOf, IsMemberOf, IsToken, KindOf, Passing, Has, Holds, AllMembers, SkipSpace, RootFields, IsRequest, Gathered;
    ok, taken, pos := false, request, start;
    Advance(json, pos, rest, ROOM);
    if keyCount == MAX_FIELDS {
      TooMany(json, done, rest);
      return;
    }
    RootObject(json);
    var field;
    field, pos := ScanMember(json, pos, false, ROOM);
    TokenOf(field);
    PassingOneMore(done, field);
    var repeated := IsRepeated(field.key, keys, keyCount);
    if repeated {
      Spoiled(json, done, rest);
      return;
    }
    keys[keyCount] := field.key;
    var fit;
    fit, taken := GatherField(request, field, done);
    if !fit {
      Spoiled(json, done, rest);
      return;
    }
    WentWell(json, request, taken, keys[..keyCount], done, rest);
    assert keys[..keyCount + 1] == keys[..keyCount] + [field.key];
    if json[pos] == COMMA {
      pos := pos + 1;
      pos := SkipSpaces(json, pos);
    }
    ok := true;
  }

  /**
   * `parse_request` accepts exactly the requests: one object with at most 32 members, no two keys of
   * equal meaning, members of the known kinds in place, in exactly one of the two dialects. The spans
   * it returns are the values of those members.
   */
  method ParseRequest(json: Text) returns (ok: bool, request: Request)
    ensures ok <==> IsRequest(json)
    ensures ok ==> Gathered(request, RootFields(json))
    ensures ok ==> (request.dialect == Compact <==> IsCompact(RootFields(json)))
  {
    hide ScanText, Members, Member, FieldAt, FieldsOf, IsMemberOf, IsToken, KindOf, Passing, Has, Holds, AllMembers, SkipSpace, RootFields, IsRequest, Gathered, IsCompact, IsStandard;
    RequestIsObject(json);
    request := NO_REQUEST;
    var scan := JsonParser.ScanValue(json, JSON_MAX_DEPTH);
    if !scan.result.COMPLETE? {
      return false, request;
    }
    var pos := SkipSpaces(json, 0);
    if pos >= |json| || json[pos] != LBRACE {
      return false, request;
    }
    pos := pos + 1;
    RootObject(json);
    RootFieldsAreMembers(json);
    pos := SkipSpaces(json, pos);
    var keys := new Text[MAX_FIELDS](_ => []);
    var keyCount := 0;
    ghost var done, rest: seq<Field> := [], RootFields(json);
    StartOfFields(json, pos);
    NothingGathered();
    assert RootFields(json) == done + rest;
    while pos < |json| && json[pos] != RBRACE
      invariant 0 <= pos && keyCount <= keys.Length == MAX_FIELDS
      invariant StandsAt(json, pos, rest, ROOM) && GoesWell(json, request, keys[..keyCount], done, rest)
      decreases |rest|
    {
      assert rest != [];
      ok, request, pos := TakeMember(json, pos, request, keys, keyCount, done, rest);
      if !ok {
        return;
      }
      keyCount := keyCount + 1;
      done, rest := done + [rest[0]], rest[1..];
    }
    assert rest == [] && done == RootFields(json);
    var compact := request.hasCompactMethod && !request.hasStandardMethod && !request.hasJsonrpc && !request.hasStandardParams;
    var standard := request.hasStandardMethod && request.hasJsonrpc && !request.hasCompactMethod && !request.hasCompactParams;
    DialectDecides(json, request, compact, standard);
    if compact == standard {
      return false, request;
    }
    request := request.(dialect := if compact then Compact else Standard);
    return true, request;
  }

  lemma RequestIsObject(json: Text)
    ensures IsRequest(json) ==> IsObjectText(json)
  {
  }

  /** When all members have passed, the dialect decides. */
  lemma DialectDecides(json: Text, r: Request, compact: bool, standard: bool)
    requires IsObjectText(json) && AllMembers(RootFields(json)) && Passing(RootFields(json)) && Gathered(r, RootFields(json))
    requires compact <==> r.hasCompactMethod && !r.hasStandardMethod && !r.hasJsonrpc && !r.hasStandardParams
    requires standard <==> r.hasStandardMethod && r.hasJsonrpc && !r.hasCompactMethod && !r.hasCompactParams
    ensures IsRequest(json) <==> compact != standard
    ensures forall dialect :: Gathered(r.(dialect := dialect), RootFields(json))
    ensures compact <==> IsCompact(RootFields(json))
  {
    hide ScanText, RootFields, IsMemberOf, KindOf, Has, Holds, AllMembers, IsObjectText, Distinct, ValuesFit;
  }

  lemma StartOfFields(s: Text, q: nat)
    requires IsObjectText(s) && q == SkipSpace(s, SkipSpace(s, 0) + 1)
    ensures StandsAt(s, q, RootFields(s), ROOM)
  {
    hide Members, FieldsOf, IsObjectText, SkipSpace;
    RootObject(s);
    if s[q] != RBRACE {
      KeyIsQuoted(s, q, ROOM);
    }
  }

  lemma NothingGathered()
    ensures AllMembers([]) && Passing([]) && Gathered(NO_REQUEST, [])
  {
  }

  lemma TokenOf(f: Field)
    requires IsMemberOf(f)
    ensures IsToken(f.key) && IsScalarOrContainer(f.value)
  {
  }

  lemma KindMeans(f: Field)
    requires IsToken(f.key)
    ensures KindOf(f) == KindOfKey(Decoded(f.key))
  {
  }

  lemma TooMany(s: Text, done: seq<Field>, rest: seq<Field>)
    requires IsObjectText(s) && RootFields(s) == done + rest && rest != [] && |done| == MAX_FIELDS
    ensures !IsRequest(s)
  {
  }
}
