/** What a client reads in the response to a request: the names, codes and messages as they stand in the documents. */
module RpcOutcomes {
  import opened Bytes
  import opened JsonSyntax
  import opened Unicode
  import opened JsonString
  import opened Spelling
  import opened JsonObject
  import opened JsonMembers
  import opened ChannelSpec
  import opened Lighting
  import opened RpcRequest
  import opened RpcResponse
  import opened RpcDispatch

  // ---------------------------------------------------------------- reading

  predicate Begins(name: seq<nat>, literal: string) {
    |name| >= |literal| && forall i :: 0 <= i < |literal| ==> name[i] == literal[i] as int
  }

  /** The number that decimal digits stand for. */
  function ValueOf(digits: Text): nat
    requires forall i :: 0 <= i < |digits| ==> 0x30 <= digits[i] <= 0x39
  {
    if digits == [] then 0 else 10 * ValueOf(digits[..|digits| - 1]) + (digits[|digits| - 1] - 0x30)
  }

  predicate NumberReads(v: Text, n: nat) {
    v != [] && (forall i :: 0 <= i < |v| ==> 0x30 <= v[i] <= 0x39) && ValueOf(v) == n
  }

  lemma OneDigitMore(digits: Text, b: byte)
    requires (forall i :: 0 <= i < |digits| ==> 0x30 <= digits[i] <= 0x39) && 0x30 <= b <= 0x39
    ensures NumberReads(digits + [b], 10 * ValueOf(digits) + (b - 0x30))
  {
    assert (digits + [b])[..|digits|] == digits;
  }

  lemma TwoRead(a: nat, b: nat)
    requires a < 10 && b < 10
    ensures NumberReads([a + 0x30], a) && NumberReads([a + 0x30, b + 0x30], 10 * a + b)
  {
    hide NumberReads;
    var first: byte, second: byte := a + 0x30, b + 0x30;
    OneDigitMore([], first);
    assert [] + [first] == [first];
    NumberMeans([first], a);
    OneDigitMore([first], second);
    assert [first] + [second] == [first, second];
  }

  lemma ThreeRead(a: nat, b: nat, c: nat)
    requires a < 10 && b < 10 && c < 10
    ensures NumberReads([a + 0x30, b + 0x30, c + 0x30], 100 * a + 10 * b + c)
  {
    hide NumberReads;
    var first: byte, second: byte, third: byte := a + 0x30, b + 0x30, c + 0x30;
    TwoRead(a, b);
    NumberMeans([first, second], 10 * a + b);
    OneDigitMore([first, second], third);
    assert [first, second] + [third] == [first, second, third];
  }

  lemma DigitsRead(n: nat)
    requires n < 1000
    ensures NumberReads(Digits3(n), n)
  {
    hide NumberReads;
    if n < 100 {
      TwoRead(n / 10, n % 10);
      TwoRead(n % 10, 0);
    } else {
      ThreeRead(n / 100, n / 10 % 10, n % 10);
      assert n / 100 == n / 10 / 10;
    }
  }

  lemma NumberMeans(v: Text, n: nat)
    requires NumberReads(v, n)
    ensures (forall i :: 0 <= i < |v| ==> 0x30 <= v[i] <= 0x39) && ValueOf(v) == n
  {
  }

  function Singles(name: Text): seq<Text> {
    if name == [] then [] else [[name[0]]] + Singles(name[1..])
  }

  lemma {:induction false} SinglesSpell(name: Text)
    requires IsName(name)
    ensures AreSpelled(Singles(name), Codes(name)) && Joined(Singles(name)) == name
  {
    hide Spells;
    if name != [] {
      var rest := name[1..];
      SinglesSpell(rest);
      OctetSpells(name[0]);
      var pieces, cs := Singles(name), Codes(name);
      assert pieces[0] == [name[0]] && pieces[1..] == Singles(rest);
      forall i | 0 <= i < |cs| ensures Spells(pieces[i], cs[i]) {
        if i > 0 {
          assert pieces[i] == Singles(rest)[i - 1] && cs[i] == Codes(rest)[i - 1];
        }
      }
    }
  }

  lemma OctetSpells(b: byte)
    requires 0x20 <= b < 0x80 && b != QUOTE && b != BACKSLASH
    ensures Spells([b], b)
  {
  }

  /** A plain name in quotation marks means itself. */
  lemma QuotedMeans(name: Text)
    requires IsName(name)
    ensures IsToken(Quoted(name)) && Decoded(Quoted(name)) == Codes(name)
  {
    hide IsName, AreSpelled;
    SinglesSpell(name);
    SpellingDecodes(Singles(name), Codes(name));
    assert Quoted(name) == InQuotes(Singles(name));
  }

  lemma LiteralMeans(literal: string)
    requires IsPlain(literal)
    ensures TextReads(Quoted(Name(literal)), literal)
  {
    hide IsName, IsToken, Decoded;
    QuotedMeans(Name(literal));
  }

  // ---------------------------------------------------------------- objects that are read back

  predicate KeyReads(f: Field, name: string) {
    TextReads(f.key, name)
  }

  /** A printed object, read back member by member. */
  lemma PrintedReads(fields: seq<Entry>)
    requires fields != [] && AreEntries(fields, 31)
    ensures var v := Render(Obj(fields));
      IsObjectText(v) && |RootFields(v)| == |fields|
      && forall i :: 0 <= i < |fields| ==> RootFields(v)[i] == Field(Quoted(fields[i].name), Render(fields[i].tree))
  {
    hide AreEntries, Expected, FieldsOf, Members, Utf8, SkipSpace, Object;
    var v := Render(Obj(fields));
    PrintedObjectScans(fields, JSON_MAX_DEPTH);
    NoSpaceAtStart(v);
    KeyIsQuoted(v, 1, 31);
    forall i | 0 <= i < |fields| ensures Expected(fields)[i] == Field(Quoted(fields[i].name), Render(fields[i].tree)) {
      ExpectedAt(fields, i);
    }
  }

  predicate HoldsNumber(f: Field, name: string, n: nat) {
    KeyReads(f, name) && NumberReads(f.value, n)
  }

  predicate HoldsText(f: Field, name: string, text: string) {
    KeyReads(f, name) && TextReads(f.value, text)
  }

  predicate HoldsVersion(f: Field, version: Text)
    requires Utf8(version, 0).COMPLETE?
  {
    KeyReads(f, "version") && IsToken(f.value) && Decoded(f.value) == CodePoints(version, 0)
  }

  predicate HoldsFlag(f: Field, name: string, flag: bool) {
    KeyReads(f, name) && f.value == if flag then [0x74, 0x72, 0x75, 0x65] else [0x66, 0x61, 0x6C, 0x73, 0x65]
  }

  /** An error: a code and a message. */
  predicate IsError(v: Text, code: nat, message: string) {
    IsObjectText(v)
    && var fs := RootFields(v);
       |fs| == 2 && HoldsNumber(fs[0], "code", code) && HoldsText(fs[1], "message", message)
  }

  /** The version alone. */
  predicate IsVersion(v: Text, device: DeviceStatus)
    requires Utf8(device.version, 0).COMPLETE?
  {
    IsObjectText(v) && |RootFields(v)| == 1 && HoldsVersion(RootFields(v)[0], device.version)
  }

  /** The state of the device, each value under its name. */
  predicate IsStatus(v: Text, device: DeviceStatus)
    requires Utf8(device.version, 0).COMPLETE?
  {
    IsObjectText(v)
    && var fs := RootFields(v);
       |fs| == 5
       && HoldsVersion(fs[0], device.version)
       && HoldsNumber(fs[1], "profile_index", device.profileIndex)
       && HoldsNumber(fs[2], "layer_index", device.layerIndex)
       && HoldsNumber(fs[3], "battery", device.battery)
       && HoldsFlag(fs[4], "is_charging", device.charging)
  }

  /** The acknowledgement of a method without a result. */
  predicate IsAcknowledgement(v: Text) {
    IsObjectText(v)
    && var fs := RootFields(v);
       |fs| == 1 && HoldsNumber(fs[0], "ok", 1)
  }

  // ---------------------------------------------------------------- what the names mean

  predicate IsForbiddenName(name: seq<nat>) {
    IsLiteral(name, "sys.bootloader") || IsLiteral(name, "sys.selftest") || IsLiteral(name, "fs") || IsLiteral(name, "mp") || IsLiteral(name, "wlsdk")
    || Begins(name, "fs.") || Begins(name, "mp.") || Begins(name, "wlsdk.")
  }

  predicate Acknowledges(name: seq<nat>) {
    IsLiteral(name, "v.oai.rgbcfg") || IsLiteral(name, "v.oai.thstatus") || IsLiteral(name, "host.focused_app")
  }

  predicate AnswersNull(name: seq<nat>) {
    IsLiteral(name, "lights.preview") || IsLiteral(name, "ui.active_screen") || IsLiteral(name, "ui.home_accent_color")
  }

  predicate IsSupportedName(name: seq<nat>) {
    IsLiteral(name, "sys.version") || IsLiteral(name, "device.status") || Acknowledges(name) || AnswersNull(name)
  }

  lemma BeginsIsStarts(name: seq<nat>, literal: string)
    requires forall i :: 0 <= i < |literal| ==> literal[i] as int < 128
    ensures Begins(name, literal) <==> StartsWith(name, Ascii(literal))
  {
    if Begins(name, literal) {
      assert name[..|literal|] == Codes(Ascii(literal));
    }
    if StartsWith(name, Ascii(literal)) {
      assert forall i :: 0 <= i < |literal| ==> name[i] == name[..|literal|][i];
    }
  }

  lemma ForbiddenNamesRead(name: seq<nat>)
    ensures IsForbidden(name) <==> IsForbiddenName(name)
  {
    hide Codes, IsLiteral, Begins, StartsWith;
    LiteralIsCodes(name, "sys.bootloader");
    LiteralIsCodes(name, "sys.selftest");
    LiteralIsCodes(name, "fs");
    LiteralIsCodes(name, "mp");
    LiteralIsCodes(name, "wlsdk");
    BeginsIsStarts(name, "fs.");
    BeginsIsStarts(name, "mp.");
    BeginsIsStarts(name, "wlsdk.");
    ForbiddenTables(name);
  }

  lemma ForbiddenTables(name: seq<nat>)
    ensures (exists i :: 0 <= i < |ForbiddenNames()| && name == Codes(ForbiddenNames()[i])) <==>
      name in {Codes(Ascii("sys.bootloader")), Codes(Ascii("sys.selftest")), Codes(Ascii("fs")), Codes(Ascii("mp")), Codes(Ascii("wlsdk"))}
    ensures (exists i :: 0 <= i < |ForbiddenPrefixes()| && StartsWith(name, ForbiddenPrefixes()[i])) <==>
      StartsWith(name, Ascii("fs.")) || StartsWith(name, Ascii("mp.")) || StartsWith(name, Ascii("wlsdk."))
  {
    hide Codes, StartsWith;
    var n, p := ForbiddenNames(), ForbiddenPrefixes();
    assert n[0] == Ascii("sys.bootloader") && n[1] == Ascii("sys.selftest") && n[2] == Ascii("fs") && n[3] == Ascii("mp") && n[4] == Ascii("wlsdk");
    assert p[0] == Ascii("fs.") && p[1] == Ascii("mp.") && p[2] == Ascii("wlsdk.");
  }

  /** The kind that a decoded name stands for. */
  predicate IsKindOf(name: seq<nat>, kind: MethodKind) {
    match kind
    case SysVersion => IsLiteral(name, "sys.version")
    case DeviceStatusMethod => IsLiteral(name, "device.status")
    case RgbConfig => IsLiteral(name, "v.oai.rgbcfg")
    case AgentStatus => IsLiteral(name, "v.oai.thstatus")
    case LightsPreview => IsLiteral(name, "lights.preview")
    case ActiveScreen => IsLiteral(name, "ui.active_screen")
    case HomeAccentColor => IsLiteral(name, "ui.home_accent_color")
    case FocusedApp => IsLiteral(name, "host.focused_app")
    case Forbidden => IsForbiddenName(name) && !IsSupportedName(name)
    case Unknown => !IsForbiddenName(name) && !IsSupportedName(name)
  }

  lemma EntryReads(name: seq<nat>, i: nat)
    requires i < |Supported()|
    ensures name == Codes(Supported()[i].name) <==> IsKindOf(name, Supported()[i].kind)
    ensures Supported()[i].kind != Forbidden && Supported()[i].kind != Unknown
  {
    hide Codes, IsLiteral;
    LiteralIsCodes(name, "sys.version");
    LiteralIsCodes(name, "device.status");
    LiteralIsCodes(name, "v.oai.rgbcfg");
    LiteralIsCodes(name, "v.oai.thstatus");
    LiteralIsCodes(name, "lights.preview");
    LiteralIsCodes(name, "ui.active_screen");
    LiteralIsCodes(name, "ui.home_accent_color");
    LiteralIsCodes(name, "host.focused_app");
  }

  lemma SupportedIsListed(name: seq<nat>)
    ensures IsSupportedName(name) <==> exists i: nat :: i < |Supported()| && name == Codes(Supported()[i].name)
  {
    hide Codes, IsLiteral, Supported;
    SupportedKinds();
    var t := Supported();
    forall i: nat | i < |t| ensures name == Codes(t[i].name) <==> IsKindOf(name, t[i].kind) {
      EntryReads(name, i);
    }
    if IsSupportedName(name) {
      assert exists i: nat :: i < |t| && IsKindOf(name, t[i].kind);
    }
  }

  lemma SupportedKinds()
    ensures var t := Supported();
      |t| == 8 && t[0].kind == SysVersion && t[1].kind == DeviceStatusMethod && t[2].kind == RgbConfig && t[3].kind == AgentStatus
      && t[4].kind == LightsPreview && t[5].kind == ActiveScreen && t[6].kind == HomeAccentColor && t[7].kind == FocusedApp
  {
  }

  lemma {:induction false} FirstMatch(name: seq<nat>, n: nat)
    requires n < |Supported()| && name == Codes(Supported()[n].name)
    ensures exists i: nat :: IsListed(name, Supported(), i)
  {
    hide Codes, Supported;
    if k: nat :| k < n && name == Codes(Supported()[k].name) {
      FirstMatch(name, k);
    } else {
      assert IsListed(name, Supported(), n);
    }
  }

  /** The decoded name decides the kind, name by name; the answer to a supported method names it. */
  lemma NameDecides(name: seq<nat>, kind: MethodKind, canonical: Text)
    requires Identified(name, kind, canonical)
    ensures IsKindOf(name, kind)
    ensures kind != Forbidden && kind != Unknown ==> name == Codes(canonical) && IsName(canonical)
  {
    hide Codes, IsLiteral, Supported, IsName, IsForbidden;
    SupportedIsNamed();
    ForbiddenNamesRead(name);
    SupportedIsListed(name);
    if i: nat :| IsListed(name, Supported(), i) && kind == Supported()[i].kind && canonical == Supported()[i].name {
      EntryReads(name, i);
    } else {
      if n: nat :| n < |Supported()| && name == Codes(Supported()[n].name) {
        FirstMatch(name, n);
      }
    }
  }

  // ---------------------------------------------------------------- outcomes

  lemma ErrorEntries(code: nat, message: Text)
    requires code < 1000 && IsName(message)
    ensures AreEntries([Entry(CODE, Leaf(Digits3(code))), Entry(MESSAGE, Leaf(Quoted(message)))], 31)
  {
    hide AreEntries, IsName, IsLeaf, Digits3;
    NamesAreNames();
    var first, second := Entry(CODE, Leaf(Digits3(code))), Entry(MESSAGE, Leaf(Quoted(message)));
    Digits3IsLeaf(code);
    QuotedIsLeaf(message);
    LeafEntry(CODE, Digits3(code), 31);
    LeafEntry(MESSAGE, Quoted(message), 31);
    EntriesConcat([first], [second], 31);
    assert [first, second] == [first] + [second];
  }

  lemma ErrorReads(code: nat, message: string)
    requires code < 1000 && IsPlain(message)
    ensures IsError(ErrorValue(code, Name(message)), code, message)
  {
    hide AreEntries, IsName, IsLeaf, Digits3, IsLiteral, RenderFields, IsObjectText, RootFields, NumberReads, IsToken, Decoded;
    ErrorEntries(code, Name(message));
    PrintedReads([Entry(CODE, Leaf(Digits3(code))), Entry(MESSAGE, Leaf(Quoted(Name(message))))]);
    DigitsRead(code);
    LiteralMeans("code");
    LiteralMeans("message");
    LiteralMeans(message);
  }

  lemma AcknowledgementReads()
    ensures IsAcknowledgement(Render(Obj([Entry(OK_MEMBER, Leaf([0x31]))])))
  {
    hide AreEntries, IsName, IsLeaf, IsLiteral, RenderFields;
    NamesAreNames();
    LiteralsAreLeaves();
    LeafEntry(OK_MEMBER, [0x31], 31);
    PrintedReads([Entry(OK_MEMBER, Leaf([0x31]))]);
    LiteralMeans("ok");
    DigitsRead(1);
  }

  lemma VersionReads(device: DeviceStatus)
    requires Utf8(device.version, 0).COMPLETE?
    ensures IsVersion(Render(ResultTree(SysVersion, device)), device)
  {
    hide AreEntries, IsName, IsLeaf, IsLiteral, RenderFields, Printed, Utf8;
    NamesAreNames();
    PrintedIsLeaf(device.version);
    LeafEntry(VERSION, Printed(device.version), 31);
    PrintedReads([Entry(VERSION, Leaf(Printed(device.version)))]);
    LiteralMeans("version");
    PrintedDecodes(device.version);
  }

  lemma StatusReads(device: DeviceStatus)
    requires Utf8(device.version, 0).COMPLETE?
    ensures IsStatus(Render(ResultTree(DeviceStatusMethod, device)), device)
  {
    hide AreEntries, IsName, IsLeaf, IsLiteral, RenderFields, Printed, Utf8, NumberReads, Digits3, IsToken, Decoded, IsObjectText, RootFields;
    DeviceEntries(device, 31);
    PrintedReads(ResultTree(DeviceStatusMethod, device).fields);
    LiteralMeans("version");
    LiteralMeans("profile_index");
    LiteralMeans("layer_index");
    LiteralMeans("battery");
    LiteralMeans("is_charging");
    PrintedDecodes(device.version);
    DigitsRead(device.profileIndex);
    DigitsRead(device.layerIndex);
    DigitsRead(device.battery);
  }

  /** What the result of a method is. */
  predicate IsResultOf(name: seq<nat>, v: Text, device: DeviceStatus) {
    if IsLiteral(name, "sys.version") then Utf8(device.version, 0).COMPLETE? && IsVersion(v, device)
    else if IsLiteral(name, "device.status") then Utf8(device.version, 0).COMPLETE? && IsStatus(v, device)
    else if Acknowledges(name) then IsAcknowledgement(v)
    else AnswersNull(name) && v == [0x6E, 0x75, 0x6C, 0x6C]
  }

  lemma ResultReads(name: seq<nat>, kind: MethodKind, device: DeviceStatus)
    requires IsKindOf(name, kind) && kind != Forbidden && kind != Unknown && Printable(Success(kind, []), device)
    ensures IsResultOf(name, Render(ResultTree(kind, device)), device)
  {
    hide IsVersion, IsStatus, IsAcknowledgement, Utf8, IsLiteral;
    NamesDiffer(name);
    AcknowledgementReads();
    if kind == SysVersion {
      VersionReads(device);
    } else if kind == DeviceStatusMethod {
      StatusReads(device);
    }
  }

  lemma NamesDiffer(name: seq<nat>)
    ensures IsLiteral(name, "sys.version") ==> |name| == 11 && name[0] == 's' as int
    ensures IsLiteral(name, "device.status") ==> |name| == 13 && name[0] == 'd' as int
    ensures IsLiteral(name, "v.oai.rgbcfg") ==> |name| == 12
    ensures IsLiteral(name, "v.oai.thstatus") ==> |name| == 14 && name[0] == 'v' as int
    ensures IsLiteral(name, "host.focused_app") ==> |name| == 16 && name[0] == 'h' as int
    ensures IsLiteral(name, "lights.preview") ==> |name| == 14 && name[0] == 'l' as int
    ensures IsLiteral(name, "ui.active_screen") ==> |name| == 16 && name[0] == 'u' as int
    ensures IsLiteral(name, "ui.home_accent_color") ==> |name| == 20
  {
  }

  // ---------------------------------------------------------------- the response to a request

  /** A request to configure whose parameters are missing or are no configuration. */
  predicate HasBadParams(r: Request, name: seq<nat>, reading: Reading) {
    (IsLiteral(name, "v.oai.rgbcfg") && !(HasParams(r) && IsRgbConfig(r.params, reading)))
    || (IsLiteral(name, "v.oai.thstatus") && !(HasParams(r) && IsAgentStatus(r.params, reading)))
  }

  /** The member that says what has come of the request. */
  predicate IsOutcome(f: Field, r: Request, name: seq<nat>, env: Surroundings) {
    if HasBadParams(r, name, env.reading) then KeyReads(f, "error") && IsError(f.value, 400, "Invalid params")
    else if IsSupportedName(name) then KeyReads(f, "result") && IsResultOf(name, f.value, env.device)
    else if IsForbiddenName(name) then KeyReads(f, "error") && IsError(f.value, 403, "Method forbidden")
    else KeyReads(f, "error") && IsError(f.value, 404, "Method not found")
  }

  lemma BadParamsRead(r: Request, name: seq<nat>, kind: MethodKind, env: Surroundings)
    requires IsKindOf(name, kind)
    ensures InvalidParams(r, kind, env) <==> HasBadParams(r, name, env.reading)
  {
    hide IsRgbConfig, IsAgentStatus, IsForbiddenName, IsLiteral;
    NamesDiffer(name);
    TooLongIsNone(r.params, env.reading);
  }

  lemma SupportedKindIsSupported(name: seq<nat>, kind: MethodKind)
    requires IsKindOf(name, kind)
    ensures IsSupportedName(name) <==> kind != Forbidden && kind != Unknown
    ensures kind == Forbidden ==> IsForbiddenName(name)
    ensures kind == Unknown ==> !IsForbiddenName(name)
  {
    hide IsLiteral, Begins;
  }

  lemma OutcomeReads(r: Request, name: seq<nat>, kind: MethodKind, canonical: Text, env: Surroundings)
    requires IsKindOf(name, kind) && (kind != Forbidden && kind != Unknown ==> IsName(canonical))
    requires Printable(AnswerTo(kind, canonical, InvalidParams(r, kind, env)), env.device)
    ensures var a := AnswerTo(kind, canonical, InvalidParams(r, kind, env));
      IsAnswer(a)
      && IsOutcome(Field(Quoted(OutcomeOf(a, env.device).name), Render(OutcomeOf(a, env.device).tree)), r, name, env)
      && (a.Failure? <==> InvalidParams(r, kind, env) || !IsSupportedName(name))
  {
    hide IsRgbConfig, IsAgentStatus, IsName, IsError, IsResultOf, IsLiteral, IsSupportedName, IsForbiddenName, HasBadParams, InvalidParams, Render, ResultTree;
    BadParamsRead(r, name, kind, env);
    SupportedKindIsSupported(name, kind);
    LiteralMeans("error");
    LiteralMeans("result");
    ErrorReads(400, "Invalid params");
    ErrorReads(403, "Method forbidden");
    ErrorReads(404, "Method not found");
    if kind != Forbidden && kind != Unknown && !InvalidParams(r, kind, env) {
      ResultReads(name, kind, env.device);
    }
  }

  /** The members of the response, by dialect. */
  ghost predicate IsResponse(s: Text, standard: bool, r: Request, name: seq<nat>, env: Surroundings) {
    IsObjectText(s)
    && var fs := RootFields(s);
       var failed := HasBadParams(r, name, env.reading) || !IsSupportedName(name);
       if standard then
         |fs| == 3 && HoldsText(fs[0], "jsonrpc", "2.0") && IsOutcome(fs[1], r, name, env) && KeyReads(fs[2], "id") && fs[2].value == r.id
       else
         |fs| == (if failed then 2 else 3) && IsOutcome(fs[0], r, name, env) && KeyReads(fs[1], "id") && fs[1].value == r.id
         && (!failed ==> KeyReads(fs[2], "method") && IsToken(fs[2].value) && Decoded(fs[2].value) == name)
  }

  lemma ResponseReads(r: Request, name: seq<nat>, kind: MethodKind, canonical: Text, env: Surroundings)
    requires IsKindOf(name, kind) && (kind != Forbidden && kind != Unknown ==> IsName(canonical) && name == Codes(canonical))
    requires IsLeaf(r.id) && Printable(AnswerTo(kind, canonical, InvalidParams(r, kind, env)), env.device)
    ensures var a := AnswerTo(kind, canonical, InvalidParams(r, kind, env));
      IsAnswer(a) && IsResponse(Response(r.dialect, r.id, a, env.device), r.dialect == Standard, r, name, env)
  {
    hide IsRgbConfig, IsAgentStatus, IsName, IsLeaf, IsLiteral, IsSupportedName, InvalidParams, HasBadParams, Render, IsOutcome, OutcomeOf, IsObjectText, RootFields, ScanText, Response, Printable, Expected, IsToken, Decoded, Codes, IsKindOf;
    OutcomeReads(r, name, kind, canonical, env);
    BadParamsRead(r, name, kind, env);
    var a := AnswerTo(kind, canonical, InvalidParams(r, kind, env));
    ResponseScans(r.dialect, r.id, a, env.device);
    var fields := ResponseFields(r.dialect, r.id, a, env.device);
    forall i | 0 <= i < |fields| ensures Expected(fields)[i] == Field(Quoted(fields[i].name), Render(fields[i].tree)) {
      ExpectedAt(fields, i);
    }
    RenderedLeaves(r.id);
    LiteralMeans("jsonrpc");
    LiteralMeans("2.0");
    LiteralMeans("id");
    LiteralMeans("method");
    if a.Success? {
      QuotedMeans(canonical);
      RenderedLeaves(Quoted(canonical));
    }
    RenderedLeaves(Quoted(VERSION_2));
  }

  lemma RenderedLeaves(text: Text)
    ensures Render(Leaf(text)) == text
  {
  }

  /**
   * Every response, read back: the version in the standard dialect; one outcome, an error with code 400,
   * 403 or 404 or the result, as the decoded name of the method and the parameters decide; the id of the
   * request octet for octet; and in the compact dialect the name of the method behind a result.
   */
  lemma EveryResponseReads(json: Text, r: Request, kind: MethodKind, canonical: Text, env: Surroundings, e: Effect)
    requires Asks(json, r, kind, canonical) && Effected(r, kind, canonical, env, e) && e.emitted.Some?
    ensures r.hasId && Holds(RootFields(json), Id, r.id)
    ensures IsResponse(e.emitted.value, IsStandard(RootFields(json)), r, Decoded(r.requestMethod), env)
  {
    hide RootFields, IsObjectText, IsToken, Decoded, IsLeaf, Has, Holds, Response, Identified, ScanText, Printable, IsResponse, IsKindOf, InvalidParams, IsName, Codes;
    IdIsLeaf(json, r);
    NameDecides(Decoded(r.requestMethod), kind, canonical);
    ResponseReads(r, Decoded(r.requestMethod), kind, canonical, env);
  }

  predicate QuotesVersion(name: seq<nat>) {
    IsLiteral(name, "sys.version") || IsLiteral(name, "device.status")
  }

  /**
   * When nothing is emitted, and with which status: without an id, which is no error unless the parameters
   * are bad; or because no writer is free, the version is no UTF-8, or the response is too long.
   */
  lemma SilenceDecided(json: Text, r: Request, kind: MethodKind, canonical: Text, env: Surroundings, e: Effect)
    requires Asks(json, r, kind, canonical) && Effected(r, kind, canonical, env, e)
    ensures var name := Decoded(r.requestMethod);
      (!r.hasId ==> e.emitted.None? && (e.status == Ok <==> !HasBadParams(r, name, env.reading)))
      && (r.hasId && !env.writerFree ==> e.emitted.None? && e.status == NoMemory)
      && (r.hasId && env.writerFree && QuotesVersion(name) && !Utf8(env.device.version, 0).COMPLETE? ==>
            e.emitted.None? && e.status == InvalidInput)
      && (r.hasId && env.writerFree && !(QuotesVersion(name) && !Utf8(env.device.version, 0).COMPLETE?) ==>
            var a := AnswerTo(kind, canonical, InvalidParams(r, kind, env));
            IsAnswer(a)
            && if |Response(r.dialect, r.id, a, env.device)| <= 1024 then e.emitted.Some? && e.status == env.emitter
               else e.emitted.None? && e.status == TooLong)
  {
    hide RootFields, IsObjectText, IsToken, Decoded, Has, Holds, Response, Identified, IsLiteral, IsForbiddenName, IsRgbConfig, IsAgentStatus, HasBadParams, LightingVerdict;
    var name := Decoded(r.requestMethod);
    NameDecides(name, kind, canonical);
    NamesDiffer(name);
    BadParamsRead(r, name, kind, env);
    BadMeansParams(r, name, kind, env);
  }

  /** A bad parameter is a failure of the lighting call; the status methods take none. */
  lemma BadMeansParams(r: Request, name: seq<nat>, kind: MethodKind, env: Surroundings)
    requires IsKindOf(name, kind)
    ensures InvalidParams(r, kind, env) && HasParams(r) ==> LightingVerdict(kind, r.params, env.reading) != Ok
    ensures InvalidParams(r, kind, env) ==> kind == RgbConfig || kind == AgentStatus
    ensures QuotesVersion(name) <==> kind == SysVersion || kind == DeviceStatusMethod
  {
    hide IsLiteral, Begins, LightingVerdict, IsForbiddenName;
    NamesDiffer(name);
  }

  /** What a request does to the lighting, by name and parameters: the same with an id and without one. */
  lemma LightingFollows(m: Model, r: Request, name: seq<nat>, kind: MethodKind, reading: Reading)
    requires IsModel(m) && IsKindOf(name, kind)
    ensures Lit(m, r, kind, reading)
      == if IsLiteral(name, "v.oai.rgbcfg") && HasParams(r) && IsRgbConfig(r.params, reading) then Configured(m, r.params, reading)
         else if IsLiteral(name, "v.oai.thstatus") && HasParams(r) && IsAgentStatus(r.params, reading) then Lighting.Reported(m, r.params, reading)
         else m
  {
    hide IsLiteral, Begins, IsForbiddenName, IsRgbConfig, IsAgentStatus, Configured, Lighting.Reported;
    NamesDiffer(name);
  }
}
