/** The response writer, `identify_method` and `codex_rpc_dispatch` of src/protocol/rpc.c. */
module RpcDispatch {
  import opened Bytes
  import opened JsonSyntax
  import opened JsonString
  import opened JsonObject
  import opened JsonMembers
  import opened ChannelSpec
  import opened RpcRequest
  import opened RpcResponse
  import opened Lighting
  import opened LightingState

  /** The code point behind `j` octets of a prefix that have been matched, if there is one. */
  lemma PrefixStep(name: seq<nat>, prefix: Text, j: nat, rest: seq<nat>)
    requires j <= |prefix| && name == Codes(prefix)[..j] + rest
    ensures j == |prefix| ==> StartsWith(name, prefix)
    ensures j < |prefix| && rest == [] ==> !StartsWith(name, prefix)
    ensures j < |prefix| && rest != [] && rest[0] != prefix[j] ==> !StartsWith(name, prefix)
    ensures j < |prefix| && rest != [] && rest[0] == prefix[j] ==> name == Codes(prefix)[..j + 1] + rest[1..]
  {
    if j < |prefix| {
      if rest != [] {
        assert name[j] == rest[0];
        if |prefix| <= |name| {
          assert name[..|prefix|][j] == name[j];
        }
        if rest[0] == prefix[j] {
          assert Codes(prefix)[..j + 1] == Codes(prefix)[..j] + [prefix[j]];
          assert rest == [rest[0]] + rest[1..];
        }
      }
    }
  }

  /** Whether a token starts with a prefix, code point by code point. */
  method HasPrefix(t: Text, prefix: Text) returns (has: bool)
    requires IsToken(t)
    ensures has <==> StartsWith(Decoded(t), prefix)
  {
    hide StringBody, Utf8, String, AfterCharacter, CharacterAt, Meaning, Codes, StartsWith;
    TokenBodyIsAtCharacter(t);
    var pos, j := 1, 0;
    while j < |prefix|
      invariant 0 <= j <= |prefix|
      invariant AtCharacter(t, pos) && StringBody(t, pos) == Complete(|t|)
      invariant Decoded(t) == Codes(prefix)[..j] + Meaning(t, pos)
    {
      var more, codepoint, next := NextCodepoint(t, pos);
      MeaningStep(t, pos);
      PrefixStep(Decoded(t), prefix, j, Meaning(t, pos));
      if !more || codepoint != prefix[j] {
        return false;
      }
      j := j + 1;
      pos := next;
    }
    PrefixStep(Decoded(t), prefix, j, Meaning(t, pos));
    return true;
  }

  method IdentifyMethod(t: Text) returns (kind: MethodKind, canonical: Text)
    requires IsToken(t)
    ensures Identified(Decoded(t), kind, canonical)
    ensures kind != Forbidden && kind != Unknown ==> IsName(canonical)
  {
    hide IsToken, Decoded, Codes, IsName, StartsWith, Supported;
    SupportedIsNamed();
    var table := Supported();
    canonical := [];
    var i := 0;
    while i < |table|
      invariant 0 <= i <= |table|
      invariant forall k :: 0 <= k < i ==> Decoded(t) != Codes(table[k].name)
    {
      var same := EqualsLiteral(t, table[i].name);
      if same {
        assert IsListed(Decoded(t), table, i);
        return table[i].kind, table[i].name;
      }
      i := i + 1;
    }
    assert !exists k: nat :: IsListed(Decoded(t), table, k);
    var names := ForbiddenNames();
    i := 0;
    while i < |names|
      invariant 0 <= i <= |names|
      invariant forall k :: 0 <= k < i ==> Decoded(t) != Codes(names[k])
    {
      var same := EqualsLiteral(t, names[i]);
      if same {
        return Forbidden, canonical;
      }
      i := i + 1;
    }
    var prefixes := ForbiddenPrefixes();
    i := 0;
    while i < |prefixes|
      invariant 0 <= i <= |prefixes|
      invariant forall k :: 0 <= k < i ==> !StartsWith(Decoded(t), prefixes[k])
    {
      var has := HasPrefix(t, prefixes[i]);
      if has {
        return Forbidden, canonical;
      }
      i := i + 1;
    }
    return Unknown, canonical;
  }

  // ---------------------------------------------------------------- the writer

  /** The octets written so far, and the first error, which sticks. */
  datatype Written = Written(octets: Text, error: Status)

  ghost predicate Appends(before: Written, after: Written, text: Text) {
    if before.error != Ok then after == before
    else if |before.octets| + |text| <= JSON_MAX_SIZE then after == Written(before.octets + text, Ok)
    else after.error == TooLong
  }

  lemma AppendsCompose(a: Written, b: Written, c: Written, x: Text, y: Text)
    requires Appends(a, b, x) && Appends(b, c, y)
    ensures Appends(a, c, x + y)
  {
    assert (a.octets + x) + y == a.octets + (x + y);
  }

  class Writer {
    const data: array<byte>
    var len: nat
    var error: Status

    ghost predicate Valid()
      reads this
    {
      data.Length == JSON_MAX_SIZE && len <= JSON_MAX_SIZE
    }

    ghost function Abs(): Written
      requires Valid()
      reads this, data
    {
      Written(data[..len], error)
    }

    constructor ()
      ensures Valid() && Abs() == Written([], Ok) && fresh(data)
    {
      data := new byte[JSON_MAX_SIZE];
      len, error := 0, Ok;
    }

    method WriteBytes(octets: Text)
      requires Valid()
      modifies this, data
      ensures Valid() && Appends(old(Abs()), Abs(), octets)
    {
      if error != Ok {
        return;
      }
      if |octets| > JSON_MAX_SIZE - len {
        error := TooLong;
        return;
      }
      forall i | 0 <= i < |octets| {
        data[len + i] := octets[i];
      }
      len := len + |octets|;
      assert data[..len] == old(data[..len]) + octets;
    }

    method WriteJsonString(value: Text)
      requires Valid()
      modifies this, data
      ensures Valid()
      ensures Utf8(value, 0).COMPLETE? ==> Appends(old(Abs()), Abs(), Printed(value))
      ensures !Utf8(value, 0).COMPLETE? && old(error) == Ok ==> error == InvalidInput
      ensures old(error) != Ok ==> Abs() == old(Abs())
    {
      hide Utf8, EscapeOctet;
      ghost var before := Abs();
      if error != Ok {
        return;
      }
      var verdict := JsonParser.ValidateUtf8(value);
      if !verdict.COMPLETE? {
        error := InvalidInput;
        return;
      }
      WriteBytes([QUOTE]);
      ghost var written: Text := [QUOTE];
      assert value[0..] == value;
      var i := 0;
      while i < |value|
        invariant 0 <= i <= |value| && Valid()
        invariant Appends(before, Abs(), written)
        invariant written + Escaped(value[i..]) == [QUOTE] + Escaped(value)
      {
        ghost var middle := Abs();
        WriteOctet(value[i]);
        AppendsCompose(before, middle, Abs(), written, EscapeOctet(value[i]));
        assert value[i..][1..] == value[i + 1..];
        assert (written + EscapeOctet(value[i])) + Escaped(value[i + 1..]) == written + Escaped(value[i..]);
        written := written + EscapeOctet(value[i]);
        i := i + 1;
      }
      assert value[i..] == [] && Escaped([]) == [];
      ghost var middle := Abs();
      WriteBytes([QUOTE]);
      AppendsCompose(before, middle, Abs(), written, [QUOTE]);
      assert written + [QUOTE] == Printed(value);
    }

    /** The switch of `write_json_string`. */
    method WriteOctet(b: byte)
      requires Valid()
      modifies this, data
      ensures Valid() && Appends(old(Abs()), Abs(), EscapeOctet(b))
    {
      if b == QUOTE { WriteBytes([BACKSLASH, QUOTE]); }
      else if b == BACKSLASH { WriteBytes([BACKSLASH, BACKSLASH]); }
      else if b == 0x08 { WriteBytes([BACKSLASH, LOWER_B]); }
      else if b == 0x0C { WriteBytes([BACKSLASH, LOWER_F]); }
      else if b == 0x0A { WriteBytes([BACKSLASH, LOWER_N]); }
      else if b == 0x0D { WriteBytes([BACKSLASH, LOWER_R]); }
      else if b == 0x09 { WriteBytes([BACKSLASH, LOWER_T]); }
      else if b < 0x20 {
        WriteBytes([BACKSLASH, LOWER_U, ZERO, ZERO, HexDigit(b / 16), HexDigit(b % 16)]);
      } else {
        WriteBytes([b]);
      }
    }

    /** `write_literal` after `written` was appended to `before`. */
    method Extend(octets: Text, ghost before: Written, ghost written: Text)
      requires Valid() && Appends(before, Abs(), written)
      modifies this, data
      ensures Valid() && Appends(before, Abs(), written + octets)
    {
      ghost var middle := Abs();
      WriteBytes(octets);
      AppendsCompose(before, middle, Abs(), written, octets);
    }

    method WriteIdAndClose(id: Text, name: Option<Text>, dialect: Dialect)
      requires Valid()
      modifies this, data
      ensures Valid() && Appends(old(Abs()), Abs(), Tail(dialect, id, name))
    {
      hide Quoted;
      ghost var before := Abs();
      WriteBytes([COMMA] + Key(KEY_ID));
      Extend(id, before, [COMMA] + Key(KEY_ID));
      ghost var written := [COMMA] + Key(KEY_ID) + id;
      if name.Some? && dialect == Compact {
        Extend([COMMA] + Key(KEY_METHOD) + Quoted(name.value), before, written);
        written := written + ([COMMA] + Key(KEY_METHOD) + Quoted(name.value));
      }
      Extend([RBRACE], before, written);
      assert written + [RBRACE] == Tail(dialect, id, name);
    }

    /** The error or the result, in a writer that is still empty. */
    method WriteAnswer(kind: MethodKind, canonical: Text, invalidParams: bool, id: Text, dialect: Dialect, device: DeviceStatus)
      requires Valid() && Abs() == Written([], Ok)
      requires kind != Forbidden && kind != Unknown ==> IsName(canonical)
      modifies this, data
      ensures Valid()
      ensures var a := AnswerTo(kind, canonical, invalidParams);
        IsAnswer(a) && var text := Response(dialect, id, a, device);
        if !Printable(a, device) then error == InvalidInput
        else if |text| > JSON_MAX_SIZE then error == TooLong
        else Abs() == Written(text, Ok)
    {
      hide IsName, Response, Utf8;
      if invalidParams {
        WriteError(400, Name("Invalid params"), id, dialect, device);
      } else if kind == Unknown {
        WriteError(404, Name("Method not found"), id, dialect, device);
      } else if kind == Forbidden {
        WriteError(403, Name("Method forbidden"), id, dialect, device);
      } else {
        WriteSuccess(kind, canonical, id, dialect, device);
      }
      ghost var response := Response(dialect, id, AnswerTo(kind, canonical, invalidParams), device);
      assert [] + response == response;
    }

    method WriteError(code: nat, message: Text, id: Text, dialect: Dialect, ghost device: DeviceStatus)
      requires Valid() && code < 1000 && IsName(message)
      modifies this, data
      ensures Valid() && Appends(old(Abs()), Abs(), Response(dialect, id, Failure(code, message), device))
    {
      hide Quoted, IsName, Head, Tail, Response, Appends;
      ghost var before := Abs();
      var opening := Head(dialect) + Key(ERROR) + [LBRACE] + Key(CODE);
      WriteBytes(opening);
      Extend(Digits3(code), before, opening);
      Extend([COMMA] + Key(MESSAGE), before, opening + Digits3(code));
      Extend(Quoted(message), before, opening + Digits3(code) + ([COMMA] + Key(MESSAGE)));
      ghost var written := opening + Digits3(code) + ([COMMA] + Key(MESSAGE)) + Quoted(message);
      Extend([RBRACE], before, written);
      ghost var middle := Abs();
      WriteIdAndClose(id, None, dialect);
      AppendsCompose(before, middle, Abs(), written + [RBRACE], Tail(dialect, id, None));
      ErrorPieces(dialect, id, code, message, device);
    }

    method WriteSuccess(kind: MethodKind, name: Text, id: Text, dialect: Dialect, device: DeviceStatus)
      requires Valid() && kind != Forbidden && kind != Unknown && IsName(name)
      requires Abs() == Written([], Ok)
      modifies this, data
      ensures Valid()
      ensures Printable(Success(kind, name), device) ==>
        Appends(old(Abs()), Abs(), Response(dialect, id, Success(kind, name), device))
      ensures !Printable(Success(kind, name), device) ==> error == InvalidInput
    {
      hide Quoted, IsName, Head, Tail, Response, Appends, ResultTree, Utf8, Render;
      ghost var before := Abs();
      HeadFits(dialect);
      WriteBytes(Head(dialect) + Key(RESULT));
      WriteResult(kind, device, before, Head(dialect) + Key(RESULT));
      ghost var middle := Abs();
      ghost var written := Head(dialect) + Key(RESULT) + Render(ResultTree(kind, device));
      WriteIdAndClose(id, Some(name), dialect);
      if Printable(Success(kind, name), device) {
        AppendsCompose(before, middle, Abs(), written, Tail(dialect, id, Some(name)));
        SuccessPieces(dialect, id, kind, name, device);
      } else {
        AppendsSticks(middle, Abs(), Tail(dialect, id, Some(name)));
      }
    }

    /** The switch of `write_success`. */
    method WriteResult(kind: MethodKind, device: DeviceStatus, ghost before: Written, ghost written: Text)
      requires Valid() && Appends(before, Abs(), written) && before == Written([], Ok) && |written| < 100
      requires kind != Forbidden && kind != Unknown
      modifies this, data
      ensures Valid()
      ensures Printable(Success(kind, []), device) ==> Appends(before, Abs(), written + Render(ResultTree(kind, device)))
      ensures !Printable(Success(kind, []), device) ==> error == InvalidInput
    {
      hide Quoted, IsName, Utf8, ResultTree, Render, AfterVersion, Printed, Key, Appends;
      ResultPieces(kind, device);
      if kind == SysVersion || kind == DeviceStatusMethod {
        WriteVersion(device, before, written);
        ghost var middle := Abs();
        WriteAfterVersion(kind, device);
        if Utf8(device.version, 0).COMPLETE? {
          ghost var piece := written + ([LBRACE] + Key(VERSION)) + Printed(device.version);
          AppendsCompose(before, middle, Abs(), piece, AfterVersion(kind, device));
          FourParts(written, [LBRACE] + Key(VERSION), Printed(device.version), AfterVersion(kind, device));
        } else {
          AppendsSticks(middle, Abs(), AfterVersion(kind, device));
        }
      } else if kind == RgbConfig || kind == AgentStatus || kind == FocusedApp {
        Extend([LBRACE] + Key(OK_MEMBER) + [0x31, RBRACE], before, written);
      } else {
        Extend(NULL, before, written);
      }
    }

    /** The version member that two results begin with. */
    method WriteVersion(device: DeviceStatus, ghost before: Written, ghost written: Text)
      requires Valid() && Appends(before, Abs(), written) && before == Written([], Ok) && |written| < 100
      modifies this, data
      ensures Valid()
      ensures Utf8(device.version, 0).COMPLETE? ==>
        Appends(before, Abs(), written + ([LBRACE] + Key(VERSION)) + Printed(device.version))
      ensures !Utf8(device.version, 0).COMPLETE? ==> error == InvalidInput
    {
      hide Utf8, Printed, Key;
      Extend([LBRACE] + Key(VERSION), before, written);
      VersionFits();
      ghost var middle := Abs();
      WriteJsonString(device.version);
      if Utf8(device.version, 0).COMPLETE? {
        AppendsCompose(before, middle, Abs(), written + ([LBRACE] + Key(VERSION)), Printed(device.version));
      }
    }

    method WriteAfterVersion(kind: MethodKind, device: DeviceStatus)
      requires Valid()
      modifies this, data
      ensures Valid() && Appends(old(Abs()), Abs(), AfterVersion(kind, device))
    {
      hide Quoted, Digits3;
      ghost var before := Abs();
      if kind == DeviceStatusMethod {
        hide Appends;
        ghost var written: Text := Piece(PROFILE_INDEX, Digits3(device.profileIndex));
        WriteBytes(Piece(PROFILE_INDEX, Digits3(device.profileIndex)));
        Extend(Piece(LAYER_INDEX, Digits3(device.layerIndex)), before, written);
        written := written + Piece(LAYER_INDEX, Digits3(device.layerIndex));
        Extend(Piece(BATTERY, Digits3(device.battery)), before, written);
        written := written + Piece(BATTERY, Digits3(device.battery));
        Extend(Piece(IS_CHARGING, if device.charging then TRUE else FALSE), before, written);
        written := written + Piece(IS_CHARGING, if device.charging then TRUE else FALSE);
        Extend([RBRACE], before, written);
      } else {
        WriteBytes([RBRACE]);
      }
    }
  }

  // ---------------------------------------------------------------- the pieces make up the response

  function Piece(name: Text, value: Text): Text {
    [COMMA] + Key(name) + value
  }

  function AfterVersion(kind: MethodKind, device: DeviceStatus): Text {
    if kind == DeviceStatusMethod then
      Piece(PROFILE_INDEX, Digits3(device.profileIndex))
      + Piece(LAYER_INDEX, Digits3(device.layerIndex))
      + Piece(BATTERY, Digits3(device.battery))
      + Piece(IS_CHARGING, if device.charging then TRUE else FALSE)
      + [RBRACE]
    else [RBRACE]
  }

  lemma AppendsSticks(before: Written, after: Written, text: Text)
    requires Appends(before, after, text) && before.error != Ok
    ensures after.error == before.error
  {
  }

  lemma HeadFits(dialect: Dialect)
    ensures |Head(dialect) + Key(RESULT)| < 100
  {
  }

  lemma VersionFits()
    ensures |[LBRACE] + Key(VERSION)| < 100
  {
  }

  lemma ErrorPieces(dialect: Dialect, id: Text, code: nat, message: Text, device: DeviceStatus)
    requires code < 1000 && IsName(message)
    ensures Head(dialect) + Key(ERROR) + [LBRACE] + Key(CODE) + Digits3(code) + ([COMMA] + Key(MESSAGE)) + Quoted(message)
        + [RBRACE] + Tail(dialect, id, None)
      == Response(dialect, id, Failure(code, message), device)
  {
    hide Quoted, IsName, Head, Tail, Response, Digits3;
    ResponseSplits(dialect, id, Failure(code, message), device);
    var c, m := Entry(CODE, Leaf(Digits3(code))), Entry(MESSAGE, Leaf(Quoted(message)));
    RenderTwo(c, m);
    assert Key(ERROR) + [LBRACE] + Key(CODE) + Digits3(code) + ([COMMA] + Key(MESSAGE)) + Quoted(message) + [RBRACE]
        == RenderField(OutcomeOf(Failure(code, message), device));
  }

  lemma SuccessPieces(dialect: Dialect, id: Text, kind: MethodKind, name: Text, device: DeviceStatus)
    requires IsName(name)
    ensures Head(dialect) + Key(RESULT) + Render(ResultTree(kind, device)) + Tail(dialect, id, Some(name))
      == Response(dialect, id, Success(kind, name), device)
  {
    hide Quoted, IsName, Head, Tail, Response, ResultTree, Render;
    ResponseSplits(dialect, id, Success(kind, name), device);
    assert Key(RESULT) + Render(ResultTree(kind, device)) == RenderField(OutcomeOf(Success(kind, name), device));
  }

  lemma ResultPieces(kind: MethodKind, device: DeviceStatus)
    requires kind != Forbidden && kind != Unknown
    ensures Render(ResultTree(kind, device))
      == if kind == SysVersion || kind == DeviceStatusMethod then
           [LBRACE] + Key(VERSION) + Printed(device.version) + AfterVersion(kind, device)
         else if kind == RgbConfig || kind == AgentStatus || kind == FocusedApp then
           [LBRACE] + Key(OK_MEMBER) + [0x31, RBRACE]
         else NULL
  {
    hide Quoted, IsName, Printed, Digits3, RenderFields, AfterVersion;
    if kind == DeviceStatusMethod {
      DevicePieces(device);
    } else if kind == SysVersion {
      RenderOne(Entry(VERSION, Leaf(Printed(device.version))));
      LastPiece(device);
    } else if kind == RgbConfig || kind == AgentStatus || kind == FocusedApp {
      RenderOne(Entry(OK_MEMBER, Leaf([0x31])));
    }
  }

  lemma LastPiece(device: DeviceStatus)
    ensures AfterVersion(SysVersion, device) == [RBRACE]
  {
  }

  lemma DevicePieces(device: DeviceStatus)
    ensures Render(ResultTree(DeviceStatusMethod, device))
      == [LBRACE] + Key(VERSION) + Printed(device.version) + AfterVersion(DeviceStatusMethod, device)
  {
    hide Printed, Digits3, RenderFields, RenderField, Key, Piece;
    var x, p, l, b := Printed(device.version), Digits3(device.profileIndex), Digits3(device.layerIndex), Digits3(device.battery);
    var c := if device.charging then TRUE else FALSE;
    RenderLeaf(VERSION, x);
    RenderLeaf(PROFILE_INDEX, p);
    RenderLeaf(LAYER_INDEX, l);
    RenderLeaf(BATTERY, b);
    RenderLeaf(IS_CHARGING, c);
    var e, f := [Entry(PROFILE_INDEX, Leaf(p)), Entry(LAYER_INDEX, Leaf(l))], [Entry(BATTERY, Leaf(b)), Entry(IS_CHARGING, Leaf(c))];
    RenderTwo(e[0], e[1]);
    RenderTwo(f[0], f[1]);
    RenderConcat(e, f);
    RenderOne(Entry(VERSION, Leaf(x)));
    RenderConcat([Entry(VERSION, Leaf(x))], e + f);
    assert [Entry(VERSION, Leaf(x))] + (e + f) == ResultTree(DeviceStatusMethod, device).fields;
    FiveMembers(Key(VERSION), x, Key(PROFILE_INDEX) + p, Key(LAYER_INDEX) + l, Key(BATTERY) + b, Key(IS_CHARGING) + c);
    PieceIs(PROFILE_INDEX, p);
    PieceIs(LAYER_INDEX, l);
    PieceIs(BATTERY, b);
    PieceIs(IS_CHARGING, c);
  }

  lemma FourParts(w: Text, k: Text, v: Text, a: Text)
    ensures w + k + v + a == w + (k + v + a)
  {
  }

  lemma PieceIs(name: Text, value: Text)
    ensures Piece(name, value) == [COMMA] + (Key(name) + value)
  {
  }

  lemma FiveMembers(k: Text, x: Text, b: Text, c: Text, d: Text, e: Text)
    ensures [LBRACE] + (k + x + [COMMA] + ((b + [COMMA] + c) + [COMMA] + (d + [COMMA] + e))) + [RBRACE]
      == [LBRACE] + k + x + (([COMMA] + b) + ([COMMA] + c) + ([COMMA] + d) + ([COMMA] + e) + [RBRACE])
  {
  }

  lemma RenderLeaf(name: Text, text: Text)
    ensures RenderField(Entry(name, Leaf(text))) == Key(name) + text
  {
  }

  // ---------------------------------------------------------------- dispatch

  /** What a text asks for: the fields of the request, and the method its name means. */
  ghost predicate Asks(json: Text, r: Request, kind: MethodKind, canonical: Text) {
    IsRequest(json)
    && var fs := RootFields(json);
       Gathered(r, fs)
       && (r.dialect == Compact <==> IsCompact(fs))
       && IsToken(r.requestMethod) && Identified(Decoded(r.requestMethod), kind, canonical)
  }

  predicate Configures(kind: MethodKind) {
    kind == RgbConfig || kind == AgentStatus
  }

  predicate HasParams(r: Request) {
    if r.dialect == Compact then r.hasCompactParams else r.hasStandardParams
  }

  /** The surroundings of one dispatch: how numbers read in floating point, whether a writer is free, the device, the emitter. */
  datatype Surroundings = Surroundings(reading: Reading, writerFree: bool, device: DeviceStatus, emitter: Status)

  /** What the lighting call of a method takes. */
  predicate IsConfiguration(kind: MethodKind, params: Text, reading: Reading) {
    (kind == RgbConfig && IsRgbConfig(params, reading)) || (kind == AgentStatus && IsAgentStatus(params, reading))
  }

  function LightingVerdict(kind: MethodKind, params: Text, reading: Reading): Status {
    if |params| > JSON_MAX_SIZE then TooLong else if IsConfiguration(kind, params, reading) then Ok else InvalidInput
  }

  /** The lighting model after a request. */
  function Lit(m: Model, r: Request, kind: MethodKind, reading: Reading): Model
    requires IsModel(m)
  {
    if !HasParams(r) then m
    else if kind == RgbConfig && IsRgbConfig(r.params, reading) then Configured(m, r.params, reading)
    else if kind == AgentStatus && IsAgentStatus(r.params, reading) then Lighting.Reported(m, r.params, reading)
    else m
  }

  /** What one dispatch does: at most one lighting update, at most one response. */
  datatype Effect = Effect(status: Status, applied: Option<Text>, emitted: Option<Text>)

  predicate InvalidParams(r: Request, kind: MethodKind, env: Surroundings) {
    Configures(kind) && (!HasParams(r) || LightingVerdict(kind, r.params, env.reading) != Ok)
  }

  ghost predicate Answered(r: Request, a: Answer, env: Surroundings, e: Effect) {
    IsAnswer(a)
    && var text := Response(r.dialect, r.id, a, env.device);
       if !env.writerFree then e.status == NoMemory && e.emitted.None?
       else if !Printable(a, env.device) then e.status == InvalidInput && e.emitted.None?
       else if |text| > JSON_MAX_SIZE then e.status == TooLong && e.emitted.None?
       else e.status == env.emitter && e.emitted == Some(text)
  }

  /** The effect of a request: the lighting first, then the response, if the request has an id. */
  ghost predicate Effected(r: Request, kind: MethodKind, canonical: Text, env: Surroundings, e: Effect) {
    e.applied == (if Configures(kind) && HasParams(r) then Some(r.params) else None)
    && if r.hasId then Answered(r, AnswerTo(kind, canonical, InvalidParams(r, kind, env)), env, e)
       else e.emitted.None? && e.status == (if !InvalidParams(r, kind, env) then Ok else if HasParams(r) then LightingVerdict(kind, r.params, env.reading) else InvalidInput)
  }

  method EmitDispatchResponse(r: Request, kind: MethodKind, canonical: Text, invalidParams: bool, env: Surroundings)
    returns (status: Status, emitted: Option<Text>)
    requires kind != Forbidden && kind != Unknown ==> IsName(canonical)
    ensures Answered(r, AnswerTo(kind, canonical, invalidParams), env, Effect(status, None, emitted))
  {
    hide IsName, Response, Utf8;
    if !env.writerFree {
      return NoMemory, None;
    }
    var writer := new Writer();
    writer.WriteAnswer(kind, canonical, invalidParams, r.id, r.dialect, env.device);
    if writer.error != Ok {
      return writer.error, None;
    }
    return env.emitter, Some(writer.data[..writer.len]);
  }

  /** The lighting call of a method that configures; a parameter that it refuses changes nothing. */
  method ApplyLighting(kind: MethodKind, params: Text, lights: LightingModel, reading: Reading) returns (status: Status)
    requires Configures(kind) && IsModel(lights.model)
    modifies lights
    ensures IsModel(lights.model) && status == LightingVerdict(kind, params, reading)
    ensures forall r: Request :: HasParams(r) && r.params == params ==> lights.model == Lit(old(lights.model), r, kind, reading)
    ensures status != Ok ==> lights.model == old(lights.model)
  {
    hide IsRgbConfig, IsAgentStatus, Configured, Lighting.Reported;
    TooLongIsNone(params, reading);
    var notified;
    if kind == RgbConfig {
      ghost var before := lights.model;
      status, notified := lights.ApplyRgbConfig(params, reading);
      if IsRgbConfig(params, reading) {
        ConfiguredIsModel(before, params, reading);
      }
    } else {
      status, notified := lights.ApplyAgentStatus(params, reading);
    }
  }

  lemma TooLongIsNone(params: Text, reading: Reading)
    ensures |params| > JSON_MAX_SIZE ==> !IsRgbConfig(params, reading) && !IsAgentStatus(params, reading)
  {
  }

  lemma ConfiguredIsModel(m: Model, params: Text, reading: Reading)
    requires IsModel(m) && IsRgbConfig(params, reading)
    ensures IsModel(Configured(m, params, reading))
  {
    hide IsObjectOf, ObjectFields, AreZones, WithZones;
    ZonesMean(m, ObjectFields(Trim(params), ROOT_ROOM), reading);
  }

  /** `codex_rpc_dispatch`. */
  method Dispatch(json: Text, lights: LightingModel, env: Surroundings) returns (e: Effect)
    requires IsModel(lights.model)
    modifies lights
    ensures IsModel(lights.model)
    ensures json == [] ==> e == Effect(InvalidInput, None, None)
    ensures |json| > JSON_MAX_SIZE ==> e == Effect(TooLong, None, None)
    ensures 0 < |json| <= JSON_MAX_SIZE && !IsRequest(json) ==> e == Effect(InvalidInput, None, None)
    ensures json == [] || |json| > JSON_MAX_SIZE || !IsRequest(json) ==> lights.model == old(lights.model)
    ensures 0 < |json| <= JSON_MAX_SIZE && IsRequest(json) ==>
      exists r, kind, canonical ::
        Asks(json, r, kind, canonical) && Effected(r, kind, canonical, env, e)
        && lights.model == Lit(old(lights.model), r, kind, env.reading)
  {
    hide IsRequest, Gathered, RootFields, IsToken, Identified, IsName, IsCompact, Decoded, AllMembers, Effected, Lit, LightingVerdict;
    if json == [] {
      return Effect(InvalidInput, None, None);
    }
    if |json| > JSON_MAX_SIZE {
      return Effect(TooLong, None, None);
    }
    var ok, r := ParseRequest(json);
    if !ok {
      return Effect(InvalidInput, None, None);
    }
    MethodIsToken(json, r);
    var kind, canonical := IdentifyMethod(r.requestMethod);
    assert Asks(json, r, kind, canonical);
    e := Perform(r, kind, canonical, lights, env);
  }

  /** What is left of a dispatch when the request is known: the lighting first, then the response. */
  method Perform(r: Request, kind: MethodKind, canonical: Text, lights: LightingModel, env: Surroundings) returns (e: Effect)
    requires IsModel(lights.model) && (kind != Forbidden && kind != Unknown ==> IsName(canonical))
    modifies lights
    ensures IsModel(lights.model) && lights.model == Lit(old(lights.model), r, kind, env.reading)
    ensures Effected(r, kind, canonical, env, e)
  {
    hide IsName, Answered, LightingVerdict, IsRgbConfig, IsAgentStatus;
    var applied := None;
    if Configures(kind) {
      var hasParams := if r.dialect == Compact then r.hasCompactParams else r.hasStandardParams;
      var err := InvalidInput;
      if hasParams {
        applied := Some(r.params);
        err := ApplyLighting(kind, r.params, lights, env.reading);
      }
      if err != Ok {
        if !r.hasId {
          return Effect(err, applied, None);
        }
        var status, emitted := EmitDispatchResponse(r, kind, canonical, true, env);
        e := Effect(status, applied, emitted);
        AnsweredAnyway(r, AnswerTo(kind, canonical, true), env, Effect(status, None, emitted), e);
        return;
      }
    }
    if !r.hasId {
      return Effect(Ok, applied, None);
    }
    var status, emitted := EmitDispatchResponse(r, kind, canonical, false, env);
    e := Effect(status, applied, emitted);
    AnsweredAnyway(r, AnswerTo(kind, canonical, false), env, Effect(status, None, emitted), e);
  }

  /**
   * Code 400 answers exactly the requests to configure whose parameters are missing or are no configuration,
   * and then the model stays; any other request to configure makes the model what its parameters say.
   */
  lemma BadParamsAreAnswered400(m: Model, r: Request, kind: MethodKind, canonical: Text, env: Surroundings, e: Effect)
    requires IsModel(m) && Effected(r, kind, canonical, env, e) && r.hasId && IsLeaf(r.id) && e.emitted.Some?
    ensures var bad := Configures(kind) && !(HasParams(r) && IsConfiguration(kind, r.params, env.reading));
      (bad <==> Says400(r.dialect, e.emitted.value))
      && (bad ==> Lit(m, r, kind, env.reading) == m)
      && (Configures(kind) && !bad ==> IsWhatParamsSay(m, Lit(m, r, kind, env.reading), kind, r.params, env.reading))
  {
    hide IsRgbConfig, IsAgentStatus, Configured, Lighting.Reported, IsObjectText, RootFields, Response, IsLeaf, ErrorValue, Expected;
    TooLongIsNone(r.params, env.reading);
    var a := AnswerTo(kind, canonical, InvalidParams(r, kind, env));
    ResponseScans(r.dialect, r.id, a, env.device);
    ResponseCarriesId(r.dialect, r.id, a, env.device);
    OutcomeIsRead(r.dialect, r.id, a, env.device);
    CodesDiffer();
  }

  /** The model is what the parameters of the method make of it. */
  predicate IsWhatParamsSay(m: Model, t: Model, kind: MethodKind, params: Text, reading: Reading)
    requires IsModel(m)
  {
    if kind == RgbConfig then IsRgbConfig(params, reading) && t == Configured(m, params, reading)
    else IsAgentStatus(params, reading) && t == Lighting.Reported(m, params, reading)
  }

  /** Read back, the response has an error member with code 400. */
  predicate Says400(dialect: Dialect, s: Text) {
    IsObjectText(s)
    && var fs := RootFields(s);
       var k := if dialect == Standard then 1 else 0;
       k < |fs| && fs[k] == Field(Quoted(ERROR), ErrorValue(400, INVALID_PARAMS))
  }

  const INVALID_PARAMS: Text := Name("Invalid params")

  /** The value of an error member. */
  function ErrorValue(code: nat, message: Text): Text
    requires code < 1000
  {
    Render(Obj([Entry(CODE, Leaf(Digits3(code))), Entry(MESSAGE, Leaf(Quoted(message)))]))
  }

  lemma OutcomeIsRead(dialect: Dialect, id: Text, a: Answer, device: DeviceStatus)
    requires IsAnswer(a) && IsLeaf(id) && Printable(a, device)
    ensures var s, k := Response(dialect, id, a, device), if dialect == Standard then 2 else 1;
      IsObjectText(s) && k < |RootFields(s)|
      && RootFields(s)[k - 1].key == Quoted(if a.Failure? then ERROR else RESULT)
      && (a.Failure? ==> RootFields(s)[k - 1].value == ErrorValue(a.code, a.message))
  {
    hide IsLeaf, IsObjectText, RootFields, ScanText, Response;
    ResponseScans(dialect, id, a, device);
    var fields := ResponseFields(dialect, id, a, device);
    var k := if dialect == Standard then 2 else 1;
    ExpectedAt(fields, k - 1);
    assert fields[k - 1] == OutcomeOf(a, device);
  }

  lemma CodesDiffer()
    ensures Quoted(ERROR) != Quoted(RESULT)
    ensures ErrorValue(400, INVALID_PARAMS) != ErrorValue(404, Name("Method not found"))
    ensures ErrorValue(400, INVALID_PARAMS) != ErrorValue(403, Name("Method forbidden"))
  {
    ErrorStarts(400, INVALID_PARAMS);
    ErrorStarts(404, Name("Method not found"));
    ErrorStarts(403, Name("Method forbidden"));
    assert |Quoted(ERROR)| == 7 && |Quoted(RESULT)| == 8;
  }

  /** The code stands at a fixed place. */
  lemma ErrorStarts(code: nat, message: Text)
    requires 100 <= code < 1000
    ensures |ErrorValue(code, message)| > 10 && ErrorValue(code, message)[10] == ZERO + code % 10
  {
    hide IsName;
    RenderTwo(Entry(CODE, Leaf(Digits3(code))), Entry(MESSAGE, Leaf(Quoted(message))));
    RenderLeaf(CODE, Digits3(code));
    assert |[LBRACE] + Key(CODE)| == 8;
    var head := [LBRACE] + Key(CODE) + Digits3(code);
    assert ErrorValue(code, message)[..11] == head;
  }

  lemma AnsweredAnyway(r: Request, a: Answer, env: Surroundings, d: Effect, e: Effect)
    requires Answered(r, a, env, d) && e.status == d.status && e.emitted == d.emitted
    ensures Answered(r, a, env, e)
  {
    hide Response;
  }

  lemma MethodIsToken(json: Text, r: Request)
    requires IsRequest(json) && Gathered(r, RootFields(json))
    ensures IsToken(r.requestMethod)
  {
    hide RootFields, IsObjectText, IsToken, Decoded, IsLeaf, KindOfKey;
    var fs := RootFields(json);
    var kind := if IsCompact(fs) then CompactMethod else StandardMethod;
    assert Holds(fs, kind, r.requestMethod);
    var i :| 0 <= i < |fs| && KindOf(fs[i]) == kind && fs[i].value == r.requestMethod;
    assert ValueFits(KindOf(fs[i]), fs[i].value) && IsMemberOf(fs[i]);
    QuotedLeafIsToken(r.requestMethod);
  }

  /** A request has one id, one method and one list of parameters. */
  lemma AskedOnce(json: Text, r: Request, kind: MethodKind, canonical: Text, r': Request, kind': MethodKind, canonical': Text)
    requires Asks(json, r, kind, canonical) && Asks(json, r', kind', canonical')
    ensures r.dialect == r'.dialect && r.requestMethod == r'.requestMethod && kind == kind'
    ensures r.hasId == r'.hasId && (r.hasId ==> r.id == r'.id)
    ensures HasParams(r) == HasParams(r') && (HasParams(r) ==> r.params == r'.params)
  {
    hide RootFields, IsObjectText, IsToken, Decoded, IsMemberOf, Identified, KindOf, IsForbidden, ValueFits, AllMembers;
    var fs := RootFields(json);
    HeldOnce(fs, CompactMethod);
    HeldOnce(fs, StandardMethod);
    HeldOnce(fs, CompactParams);
    HeldOnce(fs, StandardParams);
    HeldOnce(fs, Id);
    IdentifiedOnce(Decoded(r.requestMethod), kind, canonical, kind', canonical');
  }

  lemma HeldOnce(fs: seq<Field>, kind: KeyKind)
    requires AllMembers(fs) && Distinct(fs) && kind != Other
    ensures forall v, w :: Holds(fs, kind, v) && Holds(fs, kind, w) ==> v == w
  {
    hide IsToken, Decoded, IsScalarOrContainer, Distinct;
    forall v, w | Holds(fs, kind, v) && Holds(fs, kind, w) ensures v == w {
      var i :| 0 <= i < |fs| && KindOf(fs[i]) == kind && fs[i].value == v;
      var j :| 0 <= j < |fs| && KindOf(fs[j]) == kind && fs[j].value == w;
      OneOfAKind(fs, i, j);
    }
  }

  lemma OneOfAKind(fs: seq<Field>, i: nat, j: nat)
    requires AllMembers(fs) && Distinct(fs) && i < |fs| && j < |fs| && KindOf(fs[i]) == KindOf(fs[j]) != Other
    ensures i == j
  {
    hide IsToken, Decoded, IsScalarOrContainer;
    assert Decoded(fs[i].key) == Decoded(fs[j].key);
  }

  lemma IdentifiedOnce(name: seq<nat>, kind: MethodKind, canonical: Text, kind': MethodKind, canonical': Text)
    requires Identified(name, kind, canonical) && Identified(name, kind', canonical')
    ensures kind == kind'
  {
    hide Supported, IsForbidden, Codes;
  }

  /** The members of a request with their meaning: the id of the request is a JSON scalar. */
  lemma IdIsLeaf(json: Text, r: Request)
    requires IsRequest(json) && Gathered(r, RootFields(json)) && r.hasId
    ensures IsLeaf(r.id)
  {
    hide RootFields, IsObjectText, IsToken, Decoded, IsLeaf, KindOfKey;
    var fs := RootFields(json);
    assert Holds(fs, Id, r.id);
    var i :| 0 <= i < |fs| && KindOf(fs[i]) == Id && fs[i].value == r.id;
    assert ValueFits(KindOf(fs[i]), fs[i].value) && IsMemberOf(fs[i]);
    LiteralsAreLeaves();
  }

  /**
   * Whatever a dispatch emits answers a request that has an id; it is one acceptable JSON object of at
   * most 1024 octets, from its first octet to its last, a closing brace; and it carries the id of the
   * request octet for octet, in the dialect of the request.
   */
  lemma EmissionAnswers(json: Text, r: Request, kind: MethodKind, canonical: Text, env: Surroundings, e: Effect)
    requires Asks(json, r, kind, canonical) && Effected(r, kind, canonical, env, e) && e.emitted.Some?
    ensures var s := e.emitted.value;
      0 < |s| <= JSON_MAX_SIZE && ScanText(s, JSON_MAX_DEPTH) == Scan(COMPLETE, RootOther, |s|)
      && s[0] == LBRACE && s[|s| - 1] == RBRACE && IsObjectText(s)
      && Has(RootFields(json), Id)
      && var k := if IsStandard(RootFields(json)) then 2 else 1;
         k < |RootFields(s)| && RootFields(s)[k].key == Quoted(KEY_ID)
         && Holds(RootFields(json), Id, RootFields(s)[k].value)
         && (IsStandard(RootFields(json)) ==> RootFields(s)[0] == Field(Quoted(KEY_JSONRPC), Quoted(VERSION_2)))
  {
    hide RootFields, IsObjectText, IsToken, Decoded, IsLeaf, Has, Holds, Response, Identified, IsAnswer, ScanText, Printable;
    IdIsLeaf(json, r);
    var a := AnswerTo(kind, canonical, InvalidParams(r, kind, env));
    ResponseScans(r.dialect, r.id, a, env.device);
    ResponseCarriesId(r.dialect, r.id, a, env.device);
  }

  /** Some dispatch of the text emits this response. */
  ghost predicate Dispatches(json: Text, response: Text) {
    exists r, kind, canonical, env, effect ::
      Asks(json, r, kind, canonical) && Effected(r, kind, canonical, env, effect) && effect.emitted == Some(response)
  }
}
