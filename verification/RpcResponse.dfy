/** The method names and the responses of src/protocol/rpc.c, as trees, and what a parser finds in them. */
module RpcResponse {
  import opened Bytes
  import opened JsonSyntax
  import opened JsonString
  import opened JsonObject
  import opened JsonMembers
  import opened ChannelSpec
  import opened RpcRequest

  // ---------------------------------------------------------------- methods

  datatype MethodKind =
    | SysVersion | DeviceStatusMethod | RgbConfig | AgentStatus | LightsPreview | ActiveScreen
    | HomeAccentColor | FocusedApp | Forbidden | Unknown

  datatype MethodEntry = MethodEntry(name: Text, kind: MethodKind)

  /** A literal without quotes, backslashes and control characters. */
  predicate IsPlain(text: string) {
    forall i :: 0 <= i < |text| ==> 0x20 <= text[i] as int < 0x80 && text[i] != '"' && text[i] != '\\'
  }

  function Name(text: string): (s: Text)
    requires IsPlain(text)
    ensures IsName(s) && |s| == |text|
  {
    Ascii(text)
  }

  function Supported(): seq<MethodEntry> {
    hide IsName;
    [MethodEntry(Name("sys.version"), SysVersion),
     MethodEntry(Name("device.status"), DeviceStatusMethod),
     MethodEntry(Name("v.oai.rgbcfg"), RgbConfig),
     MethodEntry(Name("v.oai.thstatus"), AgentStatus),
     MethodEntry(Name("lights.preview"), LightsPreview),
     MethodEntry(Name("ui.active_screen"), ActiveScreen),
     MethodEntry(Name("ui.home_accent_color"), HomeAccentColor),
     MethodEntry(Name("host.focused_app"), FocusedApp)]
  }

  lemma SupportedIsNamed()
    ensures forall i :: 0 <= i < |Supported()| ==>
      Supported()[i].kind != Forbidden && Supported()[i].kind != Unknown && IsName(Supported()[i].name)
  {
    hide IsName;
  }

  function ForbiddenNames(): seq<Text> {
    [Ascii("sys.bootloader"), Ascii("sys.selftest"), Ascii("fs"), Ascii("mp"), Ascii("wlsdk")]
  }

  function ForbiddenPrefixes(): seq<Text> {
    [Ascii("fs."), Ascii("mp."), Ascii("wlsdk.")]
  }

  predicate IsListed(name: seq<nat>, table: seq<MethodEntry>, i: nat) {
    i < |table| && name == Codes(table[i].name) && forall k :: 0 <= k < i ==> name != Codes(table[k].name)
  }

  predicate StartsWith(name: seq<nat>, prefix: Text) {
    |prefix| <= |name| && name[..|prefix|] == Codes(prefix)
  }

  predicate IsForbidden(name: seq<nat>) {
    (exists i :: 0 <= i < |ForbiddenNames()| && name == Codes(ForbiddenNames()[i]))
    || exists i :: 0 <= i < |ForbiddenPrefixes()| && StartsWith(name, ForbiddenPrefixes()[i])
  }

  /** The decoded name decides: the first entry of the table, else forbidden, else unknown. */
  ghost predicate Identified(name: seq<nat>, kind: MethodKind, canonical: Text) {
    var table := Supported();
    if exists i: nat :: IsListed(name, table, i) then
      exists i: nat :: IsListed(name, table, i) && kind == table[i].kind && canonical == table[i].name
    else kind == if IsForbidden(name) then Forbidden else Unknown
  }

  // ---------------------------------------------------------------- responses as trees

  /** The decimal digits of a number below 1000. */
  function Digits3(n: nat): (t: Text)
    requires n < 1000
  {
    if n < 10 then [ZERO + n]
    else if n < 100 then [ZERO + n / 10, ZERO + n % 10]
    else [ZERO + n / 100, ZERO + n / 10 % 10, ZERO + n % 10]
  }

  lemma Digits3IsLeaf(n: nat)
    requires n < 1000
    ensures IsLeaf(Digits3(n))
  {
    var t := Digits3(n);
    assert Number(t, 0) == Complete(|t|) by {
      assert IntegerPart(t, 0) == Complete(|t|) by {
        if |t| == 2 {
          assert SkipDigits(t, 0) == SkipDigits(t, 1) == SkipDigits(t, 2) == 2;
        } else if |t| == 3 {
          assert SkipDigits(t, 0) == SkipDigits(t, 1) == SkipDigits(t, 2) == SkipDigits(t, 3) == 3;
        }
      }
    }
  }

  /** What `codex_device_status_snapshot` returns; the version is the configured string. */
  datatype DeviceStatus = DeviceStatus(version: Text, profileIndex: byte, layerIndex: byte, battery: byte, charging: bool)

  const OK_MEMBER: Text := Name("ok")
  const RESULT: Text := Name("result")
  const ERROR: Text := Name("error")
  const CODE: Text := Name("code")
  const MESSAGE: Text := Name("message")
  const VERSION: Text := Name("version")
  const PROFILE_INDEX: Text := Name("profile_index")
  const LAYER_INDEX: Text := Name("layer_index")
  const BATTERY: Text := Name("battery")
  const IS_CHARGING: Text := Name("is_charging")

  function ResultTree(kind: MethodKind, device: DeviceStatus): Tree {
    match kind
    case SysVersion => Obj([Entry(VERSION, Leaf(Printed(device.version)))])
    case DeviceStatusMethod =>
      Obj([Entry(VERSION, Leaf(Printed(device.version))),
           Entry(PROFILE_INDEX, Leaf(Digits3(device.profileIndex))),
           Entry(LAYER_INDEX, Leaf(Digits3(device.layerIndex))),
           Entry(BATTERY, Leaf(Digits3(device.battery))),
           Entry(IS_CHARGING, Leaf(if device.charging then TRUE else FALSE))])
    case RgbConfig => Obj([Entry(OK_MEMBER, Leaf([0x31]))])
    case AgentStatus => Obj([Entry(OK_MEMBER, Leaf([0x31]))])
    case FocusedApp => Obj([Entry(OK_MEMBER, Leaf([0x31]))])
    case _ => Leaf(NULL)
  }

  /** What is answered: an error with its code and message, or the result of a method. */
  datatype Answer = Failure(code: nat, message: Text) | Success(kind: MethodKind, canonical: Text)

  function AnswerTo(kind: MethodKind, canonical: Text, invalidParams: bool): (a: Answer)
    ensures a.Failure? ==> a.code < 1000 && IsName(a.message)
  {
    if invalidParams then Failure(400, Name("Invalid params"))
    else if kind == Unknown then Failure(404, Name("Method not found"))
    else if kind == Forbidden then Failure(403, Name("Method forbidden"))
    else Success(kind, canonical)
  }

  predicate IsAnswer(a: Answer) {
    match a
    case Failure(code, message) => code < 1000 && IsName(message)
    case Success(_, canonical) => IsName(canonical)
  }

  /** The version a result quotes is well-formed, if it quotes one. */
  predicate Printable(a: Answer, device: DeviceStatus) {
    a.Success? && (a.kind == SysVersion || a.kind == DeviceStatusMethod) ==> Utf8(device.version, 0).COMPLETE?
  }

  function Opening(dialect: Dialect): seq<Entry> {
    if dialect == Standard then [Entry(KEY_JSONRPC, Leaf(Quoted(VERSION_2)))] else []
  }

  function OutcomeOf(a: Answer, device: DeviceStatus): Entry
    requires IsAnswer(a)
  {
    match a
    case Failure(code, message) =>
      Entry(ERROR, Obj([Entry(CODE, Leaf(Digits3(code))), Entry(MESSAGE, Leaf(Quoted(message)))]))
    case Success(kind, _) => Entry(RESULT, ResultTree(kind, device))
  }

  function Closing(dialect: Dialect, id: Text, a: Answer): seq<Entry> {
    [Entry(KEY_ID, Leaf(id))]
    + if a.Success? && dialect == Compact then [Entry(KEY_METHOD, Leaf(Quoted(a.canonical)))] else []
  }

  /** The members of a response: in the standard dialect the version first; the outcome; the request's id. */
  function ResponseFields(dialect: Dialect, id: Text, a: Answer, device: DeviceStatus): (f: seq<Entry>)
    requires IsAnswer(a)
    ensures f != []
  {
    Opening(dialect) + [OutcomeOf(a, device)] + Closing(dialect, id, a)
  }

  function Response(dialect: Dialect, id: Text, a: Answer, device: DeviceStatus): Text
    requires IsAnswer(a)
  {
    Render(Obj(ResponseFields(dialect, id, a, device)))
  }

  lemma QuotedIsLeaf(name: Text)
    requires IsName(name)
    ensures IsLeaf(Quoted(name))
  {
    var t := Quoted(name);
    assert t[0..0 + |t|] == t;
    QuotedReads(t, 0, name);
    NumberIsAsciiName(name);
  }

  lemma LiteralsAreLeaves()
    ensures IsLeaf(NULL) && IsLeaf(TRUE) && IsLeaf(FALSE) && IsLeaf([0x31])
  {
    Digits3IsLeaf(1);
  }

  lemma NamesAreNames()
    ensures IsName(OK_MEMBER) && IsName(RESULT) && IsName(ERROR) && IsName(CODE) && IsName(MESSAGE)
    ensures IsName(VERSION) && IsName(PROFILE_INDEX) && IsName(LAYER_INDEX) && IsName(BATTERY) && IsName(IS_CHARGING)
  {
    hide IsName;
  }

  lemma KeysAreNames()
    ensures IsName(KEY_ID) && IsName(KEY_METHOD) && IsName(KEY_JSONRPC) && IsName(VERSION_2)
  {
  }

  lemma {:induction false} EntriesConcat(a: seq<Entry>, b: seq<Entry>, room: nat)
    requires AreEntries(a, room) && AreEntries(b, room)
    ensures AreEntries(a + b, room)
    decreases |a|
  {
    hide IsName, IsTree;
    if a == [] {
      assert a + b == b;
    } else {
      assert (a + b)[1..] == a[1..] + b;
      EntriesConcat(a[1..], b, room);
    }
  }

  lemma OneEntry(name: Text, tree: Tree, room: nat)
    requires IsName(name) && IsTree(tree, room)
    ensures AreEntries([Entry(name, tree)], room)
  {
    hide IsName, IsTree;
    assert [Entry(name, tree)][1..] == [];
  }

  lemma LeafEntry(name: Text, leaf: Text, room: nat)
    requires IsName(name) && IsLeaf(leaf)
    ensures AreEntries([Entry(name, Leaf(leaf))], room)
  {
    hide IsName, IsLeaf;
    OneEntry(name, Leaf(leaf), room);
  }

  lemma ResultIsTree(kind: MethodKind, device: DeviceStatus, room: nat)
    requires Printable(Success(kind, []), device) && room > 0
    ensures IsTree(ResultTree(kind, device), room)
  {
    hide IsLeaf, IsName, Utf8, Digits3, Printed;
    NamesAreNames();
    LiteralsAreLeaves();
    LeafEntry(OK_MEMBER, [0x31], room - 1);
    if kind == SysVersion {
      PrintedIsLeaf(device.version);
      LeafEntry(VERSION, Printed(device.version), room - 1);
    } else if kind == DeviceStatusMethod {
      DeviceEntries(device, room - 1);
    }
  }

  lemma PrintedIsLeaf(v: Text)
    requires Utf8(v, 0).COMPLETE?
    ensures IsLeaf(Printed(v))
  {
    PrintedDecodes(v);
  }

  lemma DeviceEntries(device: DeviceStatus, room: nat)
    requires Utf8(device.version, 0).COMPLETE?
    ensures var tree := ResultTree(DeviceStatusMethod, device); tree.Obj? && AreEntries(tree.fields, room)
  {
    hide IsLeaf, IsName, Utf8, Digits3, Printed, AreEntries;
    NamesAreNames();
    LiteralsAreLeaves();
    PrintedIsLeaf(device.version);
    Digits3IsLeaf(device.profileIndex);
    Digits3IsLeaf(device.layerIndex);
    Digits3IsLeaf(device.battery);
    var e0 := [Entry(VERSION, Leaf(Printed(device.version)))];
    var e1 := [Entry(PROFILE_INDEX, Leaf(Digits3(device.profileIndex)))];
    var e2 := [Entry(LAYER_INDEX, Leaf(Digits3(device.layerIndex)))];
    var e3 := [Entry(BATTERY, Leaf(Digits3(device.battery)))];
    var e4 := [Entry(IS_CHARGING, Leaf(if device.charging then TRUE else FALSE))];
    LeafEntry(VERSION, Printed(device.version), room);
    LeafEntry(PROFILE_INDEX, Digits3(device.profileIndex), room);
    LeafEntry(LAYER_INDEX, Digits3(device.layerIndex), room);
    LeafEntry(BATTERY, Digits3(device.battery), room);
    LeafEntry(IS_CHARGING, if device.charging then TRUE else FALSE, room);
    EntriesConcat(e3, e4, room);
    EntriesConcat(e2, e3 + e4, room);
    EntriesConcat(e1, e2 + (e3 + e4), room);
    EntriesConcat(e0, e1 + (e2 + (e3 + e4)), room);
    assert ResultTree(DeviceStatusMethod, device).fields == e0 + (e1 + (e2 + (e3 + e4)));
  }

  lemma OutcomeIsEntry(a: Answer, device: DeviceStatus, room: nat)
    requires IsAnswer(a) && Printable(a, device) && room > 0
    ensures AreEntries([OutcomeOf(a, device)], room)
  {
    hide IsLeaf, IsName, Utf8, Digits3, Printed, AreEntries, ResultTree, Quoted;
    NamesAreNames();
    match a
    case Failure(code, message) =>
      Digits3IsLeaf(code);
      QuotedIsLeaf(message);
      LeafEntry(CODE, Digits3(code), room - 1);
      LeafEntry(MESSAGE, Quoted(message), room - 1);
      EntriesConcat([Entry(CODE, Leaf(Digits3(code)))], [Entry(MESSAGE, Leaf(Quoted(message)))], room - 1);
      assert [Entry(CODE, Leaf(Digits3(code))), Entry(MESSAGE, Leaf(Quoted(message)))]
          == [Entry(CODE, Leaf(Digits3(code)))] + [Entry(MESSAGE, Leaf(Quoted(message)))];
      OneEntry(ERROR, OutcomeOf(a, device).tree, room);
    case Success(kind, _) =>
      ResultIsTree(kind, device, room);
      OneEntry(RESULT, ResultTree(kind, device), room);
  }

  /**
   * Every response is one acceptable JSON object without white space around it whose members are, in
   * this order: the version in the standard dialect; exactly one of result and error; the id of the
   * request, octet for octet; the name of the method in the compact dialect.
   */
  lemma ResponseScans(dialect: Dialect, id: Text, a: Answer, device: DeviceStatus)
    requires IsAnswer(a) && IsLeaf(id) && Printable(a, device)
    ensures var s := Response(dialect, id, a, device);
      ScanText(s, JSON_MAX_DEPTH) == Scan(COMPLETE, RootOther, |s|)
      && s[0] == LBRACE && s[|s| - 1] == RBRACE
      && IsObjectText(s)
      && RootFields(s) == Expected(ResponseFields(dialect, id, a, device))
  {
    hide IsLeaf, IsName, Utf8, AreEntries, OutcomeOf, Printable, Render, Expected, FieldsOf, Members, Quoted, SkipSpace;
    var o, m, c := Opening(dialect), [OutcomeOf(a, device)], Closing(dialect, id, a);
    KeysAreNames();
    QuotedIsLeaf(VERSION_2);
    NoEntries();
    LeafEntry(KEY_JSONRPC, Quoted(VERSION_2), 31);
    LeafEntry(KEY_ID, id, 31);
    OutcomeIsEntry(a, device, 31);
    if a.Success? {
      QuotedIsLeaf(a.canonical);
      LeafEntry(KEY_METHOD, Quoted(a.canonical), 31);
    }
    EntriesConcat([Entry(KEY_ID, Leaf(id))], c[1..], 31);
    EntriesConcat(o, m, 31);
    EntriesConcat(o + m, c, 31);
    var fields := ResponseFields(dialect, id, a, device);
    assert c == [Entry(KEY_ID, Leaf(id))] + c[1..];
    PrintedObjectScans(fields, JSON_MAX_DEPTH);
    NoSpaceAtStart(Response(dialect, id, a, device));
    KeyIsQuoted(Response(dialect, id, a, device), 1, 31);
  }

  lemma NoEntries()
    ensures AreEntries([], 31)
  {
  }

  lemma NoSpaceAtStart(s: Text)
    requires s != [] && !IsSpace(s[0])
    ensures SkipSpace(s, 0) == 0
  {
  }

  /** The member that carries the id, where the response is parsed again. */
  lemma ResponseCarriesId(dialect: Dialect, id: Text, a: Answer, device: DeviceStatus)
    requires IsAnswer(a) && IsLeaf(id) && Printable(a, device)
    ensures var s := Response(dialect, id, a, device);
      IsObjectText(s)
      && var fs := RootFields(s);
         var k := if dialect == Standard then 2 else 1;
         k < |fs| && fs[k] == Field(Quoted(KEY_ID), id)
         && (dialect == Standard ==> fs[0] == Field(Quoted(KEY_JSONRPC), Quoted(VERSION_2)))
         && fs[k - 1].key == Quoted(if a.Failure? then ERROR else RESULT)
  {
    hide IsLeaf, IsAnswer, IsObjectText, RootFields, ScanText;
    ResponseScans(dialect, id, a, device);
    var fields := ResponseFields(dialect, id, a, device);
    var k := if dialect == Standard then 2 else 1;
    ExpectedAt(fields, k);
    ExpectedAt(fields, k - 1);
    ExpectedAt(fields, 0);
    assert fields[k] == Entry(KEY_ID, Leaf(id));
    assert fields[k - 1] == OutcomeOf(a, device);
  }

  lemma {:induction false} ExpectedAt(fields: seq<Entry>, k: nat)
    requires k < |fields|
    ensures Expected(fields)[k] == Field(Quoted(fields[k].name), Render(fields[k].tree))
  {
    if k > 0 {
      ExpectedAt(fields[1..], k - 1);
    }
  }

  // ---------------------------------------------------------------- the pieces the writer emits

  function Key(name: Text): Text {
    Quoted(name) + [COLON]
  }

  function Head(dialect: Dialect): Text {
    if dialect == Standard then [LBRACE] + Key(KEY_JSONRPC) + Quoted(VERSION_2) + [COMMA] else [LBRACE]
  }

  function Tail(dialect: Dialect, id: Text, name: Option<Text>): Text {
    [COMMA] + Key(KEY_ID) + id
    + (if name.Some? && dialect == Compact then [COMMA] + Key(KEY_METHOD) + Quoted(name.value) else [])
    + [RBRACE]
  }

  lemma {:induction false} RenderConcat(a: seq<Entry>, b: seq<Entry>)
    requires a != [] && b != []
    ensures RenderFields(a + b) == RenderFields(a) + [COMMA] + RenderFields(b)
    decreases |a|
  {
    hide RenderField;
    assert (a + b)[1..] == a[1..] + b;
    if |a| == 1 {
      assert a[1..] + b == b;
    } else {
      RenderConcat(a[1..], b);
      var x, y, z := RenderField(a[0]), RenderFields(a[1..]), RenderFields(b);
      assert x + ([COMMA] + (y + [COMMA] + z)) == (x + ([COMMA] + y)) + [COMMA] + z;
    }
  }

  lemma RenderOne(e: Entry)
    ensures RenderFields([e]) == RenderField(e)
  {
    hide RenderField;
  }

  lemma RenderTwo(d: Entry, e: Entry)
    ensures RenderFields([d, e]) == RenderField(d) + [COMMA] + RenderField(e)
  {
    hide RenderField;
    RenderConcat([d], [e]);
    RenderOne(d);
    RenderOne(e);
    assert [d, e] == [d] + [e];
  }

  /** A response is its head, the outcome, and the tail with the id. */
  lemma ResponseSplits(dialect: Dialect, id: Text, a: Answer, device: DeviceStatus)
    requires IsAnswer(a)
    ensures Response(dialect, id, a, device)
      == Head(dialect) + RenderField(OutcomeOf(a, device)) + Tail(dialect, id, if a.Success? then Some(a.canonical) else None)
  {
    hide IsAnswer, OutcomeOf, RenderFields, Quoted, IsName;
    var o, m, c := Opening(dialect), [OutcomeOf(a, device)], Closing(dialect, id, a);
    var id1 := Entry(KEY_ID, Leaf(id));
    var x := RenderField(OutcomeOf(a, device));
    RenderOne(OutcomeOf(a, device));
    RenderOne(id1);
    if |c| == 2 {
      RenderTwo(id1, c[1]);
      assert c == [id1, c[1]];
    } else {
      assert c == [id1];
    }
    RenderConcat(m, c);
    var t := RenderFields(c);
    if dialect == Standard {
      RenderOne(o[0]);
      RenderConcat(o, m + c);
      assert o + m + c == o + (m + c);
      assert Head(dialect) == [LBRACE] + RenderFields(o) + [COMMA];
    } else {
      assert o + m + c == m + c;
    }
    assert [COMMA] + t + [RBRACE] == Tail(dialect, id, if a.Success? then Some(a.canonical) else None);
  }
}
