/** The lighting model of src/lighting/model.c and the two calls that change it. */
module LightingState {
  import opened Bytes
  import opened JsonSyntax
  import opened JsonString
  import opened JsonObject
  import opened JsonMembers
  import opened JsonMoves
  import opened ChannelSpec
  import opened Decimal
  import opened Lighting
  import JsonParser

  // ---------------------------------------------------------------- patches

  const BLANK_AGENT: Agent := Agent(Zone(0, 0.0, 0.0, 0.0, 0), false, false)

  /** `struct zone_patch` and `struct agent_patch`: which fields are set, and to what. */
  datatype Patch = Patch(fields: set<Property>, value: Agent, id: int)

  const NO_PATCH: Patch := Patch({}, BLANK_AGENT, -1)

  function Apply(a: Agent, patch: Patch): Agent {
    var (f, v) := (patch.fields, patch.value);
    Agent(ApplyToZone(a.zone, patch), if Sk in f then v.sk else a.sk, if Sa in f then v.sa else a.sa)
  }

  /** `apply_zone_patch`. */
  function ApplyToZone(z: Zone, patch: Patch): Zone {
    var (f, v) := (patch.fields, patch.value.zone);
    Zone(if Color in f then v.color else z.color,
         if Brightness in f then v.brightness else z.brightness,
         if Speed in f then v.speed else z.speed,
         if Mode in f then v.mode else z.mode,
         if ZoneEffect in f then v.effect else z.effect)
  }

  /** The patch is what the members say. */
  ghost predicate Gathers(patch: Patch, fs: seq<Field>, reading: Reading) {
    AllMembers(fs) && SettingsFit(fs, reading) && NoneTwice(fs)
    && (forall p :: p in patch.fields <==> Sets(fs, p))
    && patch.value == Patched(BLANK_AGENT, fs, reading)
    && patch.id == IdIn(fs, reading)
  }

  lemma SameAgent(a: Agent, b: Agent)
    requires forall p :: p != AgentId ==> Get(a, p) == Get(b, p)
    ensures a == b
  {
    assert Get(a, ZoneEffect) == Get(b, ZoneEffect) && Get(a, Color) == Get(b, Color);
    assert Get(a, Brightness) == Get(b, Brightness) && Get(a, Speed) == Get(b, Speed) && Get(a, Mode) == Get(b, Mode);
    assert Get(a, Sk) == Get(b, Sk) && Get(a, Sa) == Get(b, Sa);
  }

  lemma AppliedGet(a: Agent, patch: Patch, p: Property)
    requires p != AgentId
    ensures Get(Apply(a, patch), p) == if p in patch.fields then Get(patch.value, p) else Get(a, p)
  {
  }

  /** Applying the patch does what setting the members one after the other does. */
  lemma ApplyIsPatched(a: Agent, patch: Patch, fs: seq<Field>, reading: Reading)
    requires Gathers(patch, fs, reading)
    ensures Apply(a, patch) == Patched(a, fs, reading)
  {
    hide Apply, Patched, Get, PropertyAt, Fits, IsMemberOf, Reads;
    forall p | p != AgentId ensures Get(Apply(a, patch), p) == Get(Patched(a, fs, reading), p) {
      AppliedGet(a, patch, p);
      PatchedMeans(a, fs, reading, p);
      PatchedMeans(BLANK_AGENT, fs, reading, p);
      if Sets(fs, p) {
        var i :| 0 <= i < |fs| && PropertyAt(fs[i]) == p;
        assert Get(Patched(a, fs, reading), p) == Reads(p, fs[i].value, reading);
      }
    }
    SameAgent(Apply(a, patch), Patched(a, fs, reading));
  }

  lemma ZoneOfPatched(z: Zone, patch: Patch, fs: seq<Field>, reading: Reading)
    requires Gathers(patch, fs, reading)
    ensures ApplyToZone(z, patch) == PatchedZone(z, fs, reading)
  {
    hide Patched, IsMemberOf, SettingsFit;
    ApplyIsPatched(Agent(z, false, false), patch, fs, reading);
  }

  lemma GathersOneMore(patch: Patch, fs: seq<Field>, f: Field, reading: Reading, stored: Stored)
    requires Gathers(patch, fs, reading) && IsMemberOf(f)
    requires Fits(PropertyAt(f), f.value, reading) && stored == Reads(PropertyAt(f), f.value, reading)
    requires PropertyAt(f) !in patch.fields
    ensures var p := PropertyAt(f);
      Gathers(Patch(patch.fields + {p}, SetInAgent(patch.value, p, stored), if p == AgentId then Denoted(f.value) else patch.id),
              fs + [f], reading)
  {
    hide IsMemberOf, PropertyOf, Decoded, Reads, SetInAgent, IsDecimal, DenotesInteger, Denoted;
    var g, n := fs + [f], |fs|;
    assert g[..n] == fs && g[n] == f;
    assert forall i :: 0 <= i < n ==> g[i] == fs[i];
    FitsMeansDecimal(PropertyAt(f), f.value, reading);
    assert NoneTwice(g) by {
      forall i, j | 0 <= i < j < |g| ensures PropertyAt(g[i]) != PropertyAt(g[j]) {
        if j == n {
          assert Sets(fs, PropertyAt(fs[i]));
        }
      }
    }
    forall p ensures Sets(g, p) <==> Sets(fs, p) || p == PropertyAt(f) {
      assert p == PropertyAt(f) ==> PropertyAt(g[n]) == p;
      if Sets(fs, p) {
        var i :| 0 <= i < n && PropertyAt(fs[i]) == p;
        assert PropertyAt(g[i]) == p;
      }
    }
  }

  lemma FitsMeansDecimal(p: Property, v: Text, reading: Reading)
    requires Fits(p, v, reading)
    ensures IsDecimal(v)
  {
  }

  // ---------------------------------------------------------------- members

  /** The comparisons of a key with the known names. */
  method ClassifyProperty(key: Text) returns (p: Property)
    requires IsToken(key)
    ensures p == PropertyOf(Decoded(key))
  {
    hide IsToken, Decoded, Codes;
    var same := EqualsLiteral(key, NAMES[0]);
    if same { return ZoneEffect; }
    same := EqualsLiteral(key, NAMES[1]);
    if same { return Brightness; }
    same := EqualsLiteral(key, NAMES[2]);
    if same { return Speed; }
    same := EqualsLiteral(key, NAMES[3]);
    if same { return Color; }
    same := EqualsLiteral(key, NAMES[4]);
    if same { return Mode; }
    same := EqualsLiteral(key, NAMES[5]);
    if same { return AgentId; }
    same := EqualsLiteral(key, NAMES[6]);
    if same { return Sk; }
    same := EqualsLiteral(key, NAMES[7]);
    return if same then Sa else Foreign;
  }

  /** A value that starts like a number is one. */
  lemma NumberIsDecimal(v: Text, room: nat)
    requires IsWhole(v, room) && |v| <= JSON_MAX_SIZE
    ensures IsDecimal(v) <==> v[0] == MINUS || IsDigit(v[0])
  {
    hide Array, Object, String, Literal, AfterInteger;
    assert SkipSpace(v, 0) == 0;
    if v[0] == MINUS || IsDigit(v[0]) {
      assert Value(v, 0, room) == Number(v, 0);
    }
  }

  /** The value of a member, read and checked for its property. */
  method ReadValue(p: Property, v: Text, reading: Reading, ghost room: nat) returns (ok: bool, stored: Stored)
    requires IsWhole(v, room) && |v| <= JSON_MAX_SIZE
    ensures ok <==> Fits(p, v, reading)
    ensures ok ==> stored == Reads(p, v, reading)
  {
    hide IsWhole, IsDecimal, DenotesInteger, Denoted;
    NumberIsDecimal(v, room);
    NotEmpty(v, room);
    ok, stored := false, Whole(0);
    if p == Foreign || !(v[0] == MINUS || IsDigit(v[0])) {
      return;
    }
    var number := reading(v);
    match p {
      case Color =>
        var color;
        ok, color := ParseColor(v, number.Some?);
        stored := Whole(color);
      case Brightness | Speed | Mode =>
        ok := number.Some?;
        stored := if ok then Part(ClampUnit(number.value)) else stored;
      case ZoneEffect | AgentId | Sk | Sa =>
        var integer;
        ok, integer := BoundedInteger(v, 0, if p == ZoneEffect then 6 else if p == AgentId then AGENT_COUNT - 1 else 1, number.Some?);
        stored := Whole(integer);
    }
  }

  lemma NotEmpty(v: Text, room: nat)
    requires IsWhole(v, room)
    ensures v != []
  {
  }

  /** A first member that is refused spoils the list. */
  lemma SettingsPrefix(done: seq<Field>, f: Field, rest: seq<Field>, allowed: set<Property>, reading: Reading)
    requires IsMemberOf(f) && AreSettings(done + [f] + rest, allowed, reading)
    ensures PropertyAt(f) in allowed && Fits(PropertyAt(f), f.value, reading) && !Sets(done, PropertyAt(f))
  {
    hide IsMemberOf, PropertyAt, Fits;
    var fs, n := done + [f] + rest, |done|;
    assert fs[n] == f && forall i :: 0 <= i < n ==> fs[i] == done[i];
  }

  /** One member of a zone or an agent; `done` are the ones before it. */
  method TakeSetting(patch: Patch, f: Field, allowed: set<Property>, reading: Reading, ghost done: seq<Field>, ghost room: nat)
    returns (ok: bool, grown: Patch)
    requires IsMemberOf(f) && IsWhole(f.value, room) && |f.value| <= JSON_MAX_SIZE
    requires Gathers(patch, done, reading) && AllIn(done, allowed)
    ensures ok <==> PropertyAt(f) in allowed && Fits(PropertyAt(f), f.value, reading) && !Sets(done, PropertyAt(f))
    ensures ok ==> Gathers(grown, done + [f], reading) && AllIn(done + [f], allowed)
  {
    hide IsWhole, IsDecimal, DenotesInteger, Denoted, PropertyOf, IsToken, Fits, Reads, Decoded, IsScalarOrContainer;
    grown := patch;
    var p := ClassifyProperty(f.key);
    if p !in allowed {
      return false, grown;
    }
    var stored;
    ok, stored := ReadValue(p, f.value, reading, room);
    if !ok {
      return;
    }
    if p in patch.fields {
      return false, grown;
    }
    GathersOneMore(patch, done, f, reading, stored);
    FitsMeansDecimal(p, f.value, reading);
    grown := Patch(patch.fields + {p}, SetInAgent(patch.value, p, stored), if p == AgentId && stored.Whole? then stored.n else patch.id);
    IdReads(p, f.value, reading);
  }

  lemma IdReads(p: Property, v: Text, reading: Reading)
    requires Fits(p, v, reading) && IsDecimal(v)
    ensures p == AgentId ==> Reads(p, v, reading) == Whole(Denoted(v))
  {
  }

  /** The loop of `parse_zone` and of `parse_agent`. */
  method ParseSettings(text: Text, allowed: set<Property>, reading: Reading, ghost room: nat) returns (ok: bool, patch: Patch)
    requires IsObjectOf(text, room) && |text| <= JSON_MAX_SIZE && room <= 32
    ensures ok <==> AreSettings(ObjectFields(text, room), allowed, reading)
    ensures ok ==> Gathers(patch, ObjectFields(text, room), reading)
  {
    hide IsWhole, IsMemberOf, Fits, PropertyOf, Utf8, Members, FieldsOf, SkipSpace, ObjectFields, AreSettings, Gathers, AllIn;
    ObjectFieldsAreWhole(text, room);
    WholeIsUtf8(text, room);
    patch := NO_PATCH;
    ghost var done, rest: seq<Field> := [], ObjectFields(text, room);
    NothingGathered(allowed, reading);
    var pos := SkipSpaces(text, 1);
    assert ObjectFields(text, room) == done + rest;
    while text[pos] != RBRACE
      invariant 0 <= pos && StandsAt(text, pos, rest, room - 1)
      invariant ObjectFields(text, room) == done + rest
      invariant AllMembers(done) && Gathers(patch, done, reading) && AllIn(done, allowed)
      decreases |rest|
    {
      var field;
      field, pos := TakeField(text, pos, rest, room - 1);
      assert field == ObjectFields(text, room)[|done|];
      FieldIsShort(text, room, |done|);
      assert ObjectFields(text, room) == done + [field] + rest[1..];
      ok, patch := TakeSetting(patch, field, allowed, reading, done, room - 1);
      if !ok {
        if AreSettings(ObjectFields(text, room), allowed, reading) {
          SettingsPrefix(done, field, rest[1..], allowed, reading);
          assert false;
        }
        return;
      }
      done, rest := done + [field], rest[1..];
    }
    assert rest == [] && done == ObjectFields(text, room);
    SettingsMean(patch, done, allowed, reading);
    ok := true;
  }

  lemma WholeIsUtf8(t: Text, room: nat)
    requires IsWhole(t, room)
    ensures t != [] && Utf8(t, 0).COMPLETE?
  {
  }

  lemma NothingGathered(allowed: set<Property>, reading: Reading)
    ensures AllMembers([]) && Gathers(NO_PATCH, [], reading) && AllIn([], allowed)
  {
  }

  lemma SettingsMean(patch: Patch, fs: seq<Field>, allowed: set<Property>, reading: Reading)
    requires AllMembers(fs) && Gathers(patch, fs, reading) && AllIn(fs, allowed)
    ensures AreSettings(fs, allowed, reading)
  {
  }

  lemma {:induction false} FieldsAreShort(s: Text, p: nat, room: nat, i: nat)
    requires p <= |s| && Members(s, p, room).Complete? && i < |FieldsOf(s, p, room)|
    ensures |FieldsOf(s, p, room)[i].value| <= |s|
    decreases |s| - p
  {
    hide Members, Member, NextKey, String, Value;
    MembersShape(s, p, room);
    if i > 0 {
      FieldsAreShort(s, NextKey(s, p, room).value, room, i - 1);
    } else {
      MemberShape(s, p, room);
    }
  }

  /** The fields of an object are whole values, no longer than the object. */
  lemma FieldIsShort(t: Text, room: nat, i: nat)
    requires IsObjectOf(t, room) && i < |ObjectFields(t, room)|
    ensures room > 0 && IsMemberOf(ObjectFields(t, room)[i]) && IsWhole(ObjectFields(t, room)[i].value, room - 1)
    ensures |ObjectFields(t, room)[i].value| <= |t|
  {
    hide IsMemberOf, IsWhole, Members, FieldsOf;
    ObjectFieldsAreWhole(t, room);
    ObjectOpens(t, room);
    FieldsAreShort(t, SkipSpace(t, 1), room - 1, i);
  }

  /** `parse_zone`, for a value of a member. */
  method ParseZone(v: Text, reading: Reading, ghost room: nat) returns (ok: bool, patch: Patch)
    requires IsWhole(v, room) && |v| <= JSON_MAX_SIZE && room <= 32
    ensures ok <==> IsZoneObject(v, true, reading, room)
    ensures ok ==> Gathers(patch, ObjectFields(v, room), reading)
  {
    hide IsWhole, ObjectFields, AreSettings, Gathers;
    WholeIsUtf8(v, room);
    if v[0] != LBRACE {
      return false, NO_PATCH;
    }
    Emptiness(v, room);
    var pos := SkipSpaces(v, 1);
    if v[pos] == RBRACE {
      return false, NO_PATCH;
    }
    ok, patch := ParseSettings(v, ZONE_PROPERTIES + {Mode}, reading, room);
  }

  /** `parse_agent`, for an element of the array. */
  method ParseAgent(v: Text, reading: Reading, ghost room: nat) returns (ok: bool, patch: Patch)
    requires IsWhole(v, room) && |v| <= JSON_MAX_SIZE && room <= 32
    ensures ok <==> IsAgentObject(v, reading, room)
    ensures ok ==> Gathers(patch, ObjectFields(v, room), reading)
  {
    hide IsWhole, ObjectFields, AreSettings, Gathers, Sets;
    WholeIsUtf8(v, room);
    if v[0] != LBRACE {
      return false, NO_PATCH;
    }
    Emptiness(v, room);
    var pos := SkipSpaces(v, 1);
    if v[pos] == RBRACE {
      NothingIsSet();
      return false, NO_PATCH;
    }
    ok, patch := ParseSettings(v, AGENT_PROPERTIES, reading, room);
    if ok {
      SetsMore(patch, ObjectFields(v, room), AGENT_PROPERTIES, reading);
      ok := AgentId in patch.fields && patch.fields != {AgentId};
    }
  }

  lemma Emptiness(v: Text, room: nat)
    requires IsObjectOf(v, room)
    ensures SkipSpace(v, 1) < |v| && (v[SkipSpace(v, 1)] == RBRACE <==> ObjectFields(v, room) == [])
  {
    hide IsWhole, Members, FieldsOf;
    ObjectOpens(v, room);
  }

  lemma NothingIsSet()
    ensures forall p :: !Sets([], p)
  {
  }

  lemma SetsMore(patch: Patch, fs: seq<Field>, allowed: set<Property>, reading: Reading)
    requires Gathers(patch, fs, reading) && AreSettings(fs, allowed, reading) && fs != []
    ensures AgentId in patch.fields ==> (patch.fields != {AgentId} <==> |fs| >= 2)
    ensures AgentId in patch.fields <==> Sets(fs, AgentId)
  {
    hide IsMemberOf, PropertyAt, Fits, Patched, IdIn;
    if AgentId in patch.fields {
      var i :| 0 <= i < |fs| && PropertyAt(fs[i]) == AgentId;
      if |fs| >= 2 {
        var j := if i == 0 then 1 else 0;
        assert PropertyAt(fs[j]) != AgentId;
        assert PropertyAt(fs[j]) in patch.fields by { assert Sets(fs, PropertyAt(fs[j])); }
      } else {
        forall p | p in patch.fields ensures p == AgentId {
          assert Sets(fs, p);
        }
      }
    }
  }

  // ---------------------------------------------------------------- parameters

  lemma TrimLeftFrom(s: Text, lo: nat)
    requires lo <= |s|
    ensures TrimLeft(s[lo..]) == if lo < |s| && IsSpace(s[lo]) then TrimLeft(s[lo + 1..]) else s[lo..]
  {
    assert lo < |s| ==> s[lo..][1..] == s[lo + 1..];
  }

  lemma TrimRightTo(s: Text, hi: nat)
    requires hi <= |s|
    ensures TrimRight(s[..hi]) == if hi > 0 && IsSpace(s[hi - 1]) then TrimRight(s[..hi - 1]) else s[..hi]
  {
    assert hi > 0 ==> s[..hi][..hi - 1] == s[..hi - 1];
  }

  /** `trim_space`: first the start moves, then the length shrinks. */
  method TrimSpace(s: Text) returns (t: Text)
    ensures t == Trim(s)
    ensures t == [] || (!IsSpace(t[0]) && !IsSpace(t[|t| - 1]))
  {
    hide TrimLeft, TrimRight, IsSpace;
    var lo := 0;
    assert s[0..] == s;
    while lo < |s| && IsSpace(s[lo])
      invariant 0 <= lo <= |s| && TrimLeft(s[lo..]) == TrimLeft(s)
    {
      TrimLeftFrom(s, lo);
      lo := lo + 1;
    }
    TrimLeftFrom(s, lo);
    var left := s[lo..];
    var hi := |left|;
    assert left[..hi] == left;
    while hi > 0 && IsSpace(left[hi - 1])
      invariant 0 <= hi <= |left| && TrimRight(left[..hi]) == TrimRight(left)
    {
      TrimRightTo(left, hi);
      hi := hi - 1;
    }
    TrimRightTo(left, hi);
    t := left[..hi];
  }

  /** A text without white space around it is acceptable exactly if it is one whole value. */
  lemma RootIsWhole(t: Text)
    requires t != [] && !IsSpace(t[0]) && !IsSpace(t[|t| - 1])
    ensures ScanText(t, ROOT_ROOM).result.COMPLETE? <==> IsWhole(t, ROOT_ROOM)
  {
    hide Value, Utf8;
    assert SkipSpace(t, 0) == 0;
  }

  /** Which patch stands for a zone after the members in `done`. */
  ghost predicate ZonePatchIs(name: ZoneName, seen: bool, patch: Patch, done: seq<Field>, reading: Reading) {
    AreZones(done, reading)
    && if seen then
         exists i :: 0 <= i < |done| && ZoneAt(done[i]) == name && Gathers(patch, ObjectFields(done[i].value, ROOT_ROOM - 1), reading)
       else patch == NO_PATCH && forall i :: 0 <= i < |done| ==> ZoneAt(done[i]) != name
  }

  lemma ZonesPrefix(done: seq<Field>, f: Field, rest: seq<Field>, reading: Reading)
    requires IsMemberOf(f) && AreZones(done + [f] + rest, reading)
    ensures ZoneAt(f) != NoZone && IsZoneObject(f.value, true, reading, ROOT_ROOM - 1)
    ensures forall i :: 0 <= i < |done| ==> IsMemberOf(done[i]) && ZoneAt(done[i]) != ZoneAt(f)
  {
    hide IsMemberOf, ZoneAt, IsZoneObject;
    var fs, n := done + [f] + rest, |done|;
    assert fs[n] == f && forall i :: 0 <= i < n ==> fs[i] == done[i];
  }

  lemma ZonesGrow(done: seq<Field>, f: Field, reading: Reading)
    requires AreZones(done, reading) && IsMemberOf(f)
    requires ZoneAt(f) != NoZone && IsZoneObject(f.value, true, reading, ROOT_ROOM - 1)
    requires forall i :: 0 <= i < |done| ==> ZoneAt(done[i]) != ZoneAt(f)
    ensures AreZones(done + [f], reading)
  {
    hide IsMemberOf, ZoneAt, IsZoneObject;
    var g, n := done + [f], |done|;
    assert g[n] == f && forall i :: 0 <= i < n ==> g[i] == done[i];
  }

  lemma ZonePatchStays(name: ZoneName, seen: bool, patch: Patch, done: seq<Field>, f: Field, reading: Reading)
    requires ZonePatchIs(name, seen, patch, done, reading) && AreZones(done + [f], reading) && IsMemberOf(f) && ZoneAt(f) != name
    ensures ZonePatchIs(name, seen, patch, done + [f], reading)
  {
    hide IsMemberOf, ZoneAt, IsZoneObject, Gathers, ObjectFields, IsObjectOf;
    var g, n := done + [f], |done|;
    assert g[n] == f && forall i :: 0 <= i < n ==> g[i] == done[i];
    ZonesMeanMembers(done, reading);
    ZonesMeanMembers(g, reading);
    if seen {
      var i :| 0 <= i < n && ZoneAt(done[i]) == name && Gathers(patch, ObjectFields(done[i].value, ROOT_ROOM - 1), reading);
      assert ZoneAt(g[i]) == name && Gathers(patch, ObjectFields(g[i].value, ROOT_ROOM - 1), reading);
    }
  }

  lemma ZonesMeanMembers(fs: seq<Field>, reading: Reading)
    requires AreZones(fs, reading)
    ensures forall i :: 0 <= i < |fs| ==> IsMemberOf(fs[i]) && IsObjectOf(fs[i].value, ROOT_ROOM - 1)
  {
  }

  lemma ZonePatchSet(patch: Patch, done: seq<Field>, f: Field, reading: Reading)
    requires AreZones(done + [f], reading) && IsMemberOf(f) && IsObjectOf(f.value, ROOT_ROOM - 1)
    requires Gathers(patch, ObjectFields(f.value, ROOT_ROOM - 1), reading)
    ensures ZonePatchIs(ZoneAt(f), true, patch, done + [f], reading)
  {
    hide IsMemberOf, ZoneAt, IsZoneObject, Gathers, ObjectFields, IsObjectOf, AreZones;
    var g := done + [f];
    ZonesMeanMembers(g, reading);
    assert g[|done|] == f;
  }

  /** The two patches of `codex_lighting_apply_rgbcfg`, applied to the model. */
  lemma PatchesConfigure(m: Model, fs: seq<Field>, reading: Reading, keysSeen: bool, keys: Patch, ambientSeen: bool, ambient: Patch)
    requires ZonePatchIs(Keys, keysSeen, keys, fs, reading) && ZonePatchIs(Ambient, ambientSeen, ambient, fs, reading)
    ensures WithZones(m, fs, reading)
      == m.(keys := ApplyToZone(m.keys, keys), ambient := ApplyToZone(m.ambient, ambient))
  {
    hide IsMemberOf, ZoneAt, IsZoneObject, Gathers, ObjectFields, IsObjectOf, AreZones, PatchedZone, ApplyToZone, WithZones;
    ZonesMean(m, fs, reading);
    ZonesMeanMembers(fs, reading);
    ZonePatched(m.keys, Keys, keysSeen, keys, fs, reading);
    ZonePatched(m.ambient, Ambient, ambientSeen, ambient, fs, reading);
  }

  lemma ZonePatched(z: Zone, name: ZoneName, seen: bool, patch: Patch, fs: seq<Field>, reading: Reading)
    requires ZonePatchIs(name, seen, patch, fs, reading)
    ensures forall i :: 0 <= i < |fs| && ZoneAt(fs[i]) == name ==>
      ApplyToZone(z, patch) == PatchedZone(z, ObjectFields(fs[i].value, ROOT_ROOM - 1), reading)
    ensures (forall i :: 0 <= i < |fs| ==> ZoneAt(fs[i]) != name) ==> ApplyToZone(z, patch) == z
  {
    hide IsMemberOf, ZoneAt, Gathers, ObjectFields, IsObjectOf, PatchedZone, AreSettings, IsZoneObject;
    ZonesMeanMembers(fs, reading);
    if seen {
      var i :| 0 <= i < |fs| && ZoneAt(fs[i]) == name && Gathers(patch, ObjectFields(fs[i].value, ROOT_ROOM - 1), reading);
      ZoneOfPatched(z, patch, ObjectFields(fs[i].value, ROOT_ROOM - 1), reading);
      assert forall j :: 0 <= j < |fs| && ZoneAt(fs[j]) == name ==> j == i;
    }
  }

  /** The two patches do what the members say, whatever the model. */
  ghost predicate Configures(keys: Patch, ambient: Patch, fs: seq<Field>, reading: Reading) {
    AreZones(fs, reading)
    && forall m: Model ::
         WithZones(m, fs, reading) == m.(keys := ApplyToZone(m.keys, keys), ambient := ApplyToZone(m.ambient, ambient))
  }

  /** The loop of `codex_lighting_apply_rgbcfg`, up to the commit. */
  method ParseZones(t: Text, reading: Reading) returns (ok: bool, keys: Patch, ambient: Patch)
    requires IsObjectOf(t, ROOT_ROOM) && |t| <= JSON_MAX_SIZE
    ensures ok <==> ObjectFields(t, ROOT_ROOM) != [] && AreZones(ObjectFields(t, ROOT_ROOM), reading)
    ensures ok ==> Configures(keys, ambient, ObjectFields(t, ROOT_ROOM), reading)
  {
    hide IsWhole, IsMemberOf, Utf8, ObjectFields, AreZones, ZonePatchIs, Gathers, ZoneAt, IsZoneObject, SkipSpace, Members, FieldsOf, WithZones, ApplyToZone;
    ghost var fs := ObjectFields(t, ROOT_ROOM);
    ObjectFieldsAreWhole(t, ROOT_ROOM);
    WholeIsUtf8(t, ROOT_ROOM);
    Emptiness(t, ROOT_ROOM);
    ok, keys, ambient := false, NO_PATCH, NO_PATCH;
    var pos := SkipSpaces(t, 1);
    if t[pos] == RBRACE {
      return;
    }
    var keysSeen, ambientSeen := false, false;
    ghost var done, rest: seq<Field> := [], fs;
    NoZones(reading);
    assert fs == done + rest;
    while t[pos] != RBRACE
      invariant 0 <= pos && StandsAt(t, pos, rest, ROOT_ROOM - 1) && fs == done + rest && AreZones(done, reading)
      invariant ZonePatchIs(Keys, keysSeen, keys, done, reading) && ZonePatchIs(Ambient, ambientSeen, ambient, done, reading)
      decreases |rest|
    {
      var field;
      field, pos := TakeField(t, pos, rest, ROOT_ROOM - 1);
      assert field == fs[|done|];
      FieldIsShort(t, ROOT_ROOM, |done|);
      assert fs == done + [field] + rest[1..];
      var patch;
      ok, patch := TakeZone(field, reading, keysSeen, keys, ambientSeen, ambient, done);
      if !ok {
        if AreZones(fs, reading) {
          ZonesPrefix(done, field, rest[1..], reading);
          assert false;
        }
        return;
      }
      ZonesGrow(done, field, reading);
      ZonePatchSet(patch, done, field, reading);
      if ZoneAt(field) == Keys {
        ZonePatchStays(Ambient, ambientSeen, ambient, done, field, reading);
      } else {
        ZonePatchStays(Keys, keysSeen, keys, done, field, reading);
      }
      var name := ClassifyZone(field);
      if name == Keys {
        keysSeen, keys := true, patch;
      } else {
        ambientSeen, ambient := true, patch;
      }
      done, rest := done + [field], rest[1..];
    }
    assert rest == [] && done == fs;
    forall m: Model ensures WithZones(m, fs, reading) == m.(keys := ApplyToZone(m.keys, keys), ambient := ApplyToZone(m.ambient, ambient)) {
      PatchesConfigure(m, fs, reading, keysSeen, keys, ambientSeen, ambient);
    }
    ok := true;
  }

  lemma NoZones(reading: Reading)
    ensures AreZones([], reading)
    ensures ZonePatchIs(Keys, false, NO_PATCH, [], reading) && ZonePatchIs(Ambient, false, NO_PATCH, [], reading)
  {
  }

  method ClassifyZone(f: Field) returns (name: ZoneName)
    requires IsMemberOf(f)
    ensures name == ZoneAt(f)
  {
    hide IsToken, Decoded, Codes, IsScalarOrContainer;
    var same := EqualsLiteral(f.key, KEYS);
    if same { return Keys; }
    same := EqualsLiteral(f.key, AMBIENT);
    return if same then Ambient else NoZone;
  }

  /** One member of the parameters: a zone that was not seen before, and its settings. */
  method TakeZone(f: Field, reading: Reading, keysSeen: bool, keys: Patch, ambientSeen: bool, ambient: Patch, ghost done: seq<Field>)
    returns (ok: bool, patch: Patch)
    requires IsMemberOf(f) && IsWhole(f.value, ROOT_ROOM - 1) && |f.value| <= JSON_MAX_SIZE
    requires ZonePatchIs(Keys, keysSeen, keys, done, reading) && ZonePatchIs(Ambient, ambientSeen, ambient, done, reading)
    ensures ok <==>
      ZoneAt(f) != NoZone && IsZoneObject(f.value, true, reading, ROOT_ROOM - 1)
      && forall i :: 0 <= i < |done| ==> IsMemberOf(done[i]) && ZoneAt(done[i]) != ZoneAt(f)
    ensures ok ==> IsObjectOf(f.value, ROOT_ROOM - 1) && Gathers(patch, ObjectFields(f.value, ROOT_ROOM - 1), reading)
  {
    hide IsWhole, IsMemberOf, ObjectFields, AreZones, Gathers, ZoneAt, AreSettings;
    ZonesMeanMembers(done, reading);
    ok, patch := false, NO_PATCH;
    var name := ClassifyZone(f);
    if name == NoZone {
      return;
    }
    var seen := if name == Keys then keysSeen else ambientSeen;
    if seen {
      return;
    }
    ok, patch := ParseZone(f.value, reading, ROOT_ROOM - 1);
    assert forall i :: 0 <= i < |done| ==> ZoneAt(done[i]) != name;
  }

  // ---------------------------------------------------------------- agents

  /** The patches of the elements so far. */
  ghost predicate AgentPatchesAre(patches: seq<Patch>, done: seq<Text>, reading: Reading) {
    |patches| == |done| && AreAgents(done, reading)
    && forall i :: 0 <= i < |done| ==>
         Gathers(patches[i], ObjectFields(done[i], ROOT_ROOM - 1), reading) && patches[i].id == AgentOf(done[i], reading)
  }

  lemma AgentsPrefix(done: seq<Text>, v: Text, rest: seq<Text>, reading: Reading)
    requires AreAgents(done + [v] + rest, reading)
    ensures IsAgentObject(v, reading, ROOT_ROOM - 1)
    ensures forall i :: 0 <= i < |done| ==> IsAgentObject(done[i], reading, ROOT_ROOM - 1) && AgentOf(done[i], reading) != AgentOf(v, reading)
  {
    hide IsAgentObject, AgentOf;
    var vs, n := done + [v] + rest, |done|;
    assert vs[n] == v && forall i :: 0 <= i < n ==> vs[i] == done[i];
  }

  lemma AgentsGrow(patches: seq<Patch>, patch: Patch, done: seq<Text>, v: Text, reading: Reading)
    requires AgentPatchesAre(patches, done, reading) && IsAgentObject(v, reading, ROOT_ROOM - 1)
    requires Gathers(patch, ObjectFields(v, ROOT_ROOM - 1), reading)
    requires forall i :: 0 <= i < |patches| ==> patches[i].id != patch.id
    ensures AgentPatchesAre(patches + [patch], done + [v], reading) && patch.id == AgentOf(v, reading)
  {
    hide IsAgentObject, Gathers, ObjectFields, IsObjectOf, AgentOf;
    AgentIsObject(v, reading);
    IdGathered(patch, v, reading);
    var g, n := done + [v], |done|;
    assert g[n] == v && forall i :: 0 <= i < n ==> g[i] == done[i];
    forall i | 0 <= i <= n ensures IsAgentObject(g[i], reading, ROOT_ROOM - 1) && IsObjectOf(g[i], ROOT_ROOM - 1) {
      AgentIsObject(g[i], reading);
    }
  }

  lemma AgentIsObject(v: Text, reading: Reading)
    requires IsAgentObject(v, reading, ROOT_ROOM - 1)
    ensures IsObjectOf(v, ROOT_ROOM - 1)
  {
  }

  lemma IdGathered(patch: Patch, v: Text, reading: Reading)
    requires IsAgentObject(v, reading, ROOT_ROOM - 1) && IsObjectOf(v, ROOT_ROOM - 1)
    requires Gathers(patch, ObjectFields(v, ROOT_ROOM - 1), reading)
    ensures patch.id == AgentOf(v, reading)
  {
    hide ObjectFields, AllMembers, SettingsFit, Patched, IsWhole;
  }

  /** Whether an earlier element names the agent. */
  method IsNamed(patches: seq<Patch>, id: int) returns (named: bool)
    ensures named <==> exists i :: 0 <= i < |patches| && patches[i].id == id
  {
    var i := 0;
    while i < |patches|
      invariant 0 <= i <= |patches| && forall k :: 0 <= k < i ==> patches[k].id != id
    {
      if patches[i].id == id {
        return true;
      }
      i := i + 1;
    }
    return false;
  }

  /** The loop of `codex_lighting_apply_thstatus`, up to the commit. */
  method ParseAgents(t: Text, reading: Reading) returns (ok: bool, patches: seq<Patch>)
    requires IsArrayOf(t, ROOT_ROOM) && |t| <= JSON_MAX_SIZE
    ensures ok <==> 0 < |ArrayElements(t, ROOT_ROOM)| <= AGENT_COUNT && AreAgents(ArrayElements(t, ROOT_ROOM), reading)
    ensures ok ==> AgentPatchesAre(patches, ArrayElements(t, ROOT_ROOM), reading)
  {
    hide IsWhole, Utf8, ArrayElements, AreAgents, AgentPatchesAre, Gathers, IsAgentObject, AgentOf, SkipSpace, Elements, ElementsOf;
    ghost var vs := ArrayElements(t, ROOT_ROOM);
    ArrayElementsAreWhole(t, ROOT_ROOM);
    ok, patches := false, [];
    var pos := SkipSpaces(t, 1);
    if t[pos] == RBRACKET {
      return;
    }
    ghost var done, rest: seq<Text> := [], vs;
    NoAgents(reading);
    assert vs == done + rest;
    while t[pos] != RBRACKET
      invariant 0 <= pos && StandsAtElement(t, pos, rest, ROOT_ROOM - 1) && vs == done + rest
      invariant AgentPatchesAre(patches, done, reading) && |patches| == |done| <= AGENT_COUNT
      decreases |rest|
    {
      if |patches| == AGENT_COUNT {
        return false, patches;
      }
      var element;
      element, pos := ScanElement(t, pos, rest, ROOT_ROOM - 1);
      assert element == vs[|done|];
      ElementIsShort(t, ROOT_ROOM, |done|);
      assert vs == done + [element] + rest[1..];
      var patch;
      ok, patch := TakeAgent(patches, element, reading, done);
      if !ok {
        if AreAgents(vs, reading) {
          AgentsPrefix(done, element, rest[1..], reading);
          assert false;
        }
        return;
      }
      patches := patches + [patch];
      done, rest := done + [element], rest[1..];
    }
    assert rest == [] && done == vs;
    PatchesAreAgents(patches, done, reading);
    ok := true;
  }

  method TakeAgent(patches: seq<Patch>, v: Text, reading: Reading, ghost done: seq<Text>) returns (ok: bool, patch: Patch)
    requires AgentPatchesAre(patches, done, reading) && IsWhole(v, ROOT_ROOM - 1) && |v| <= JSON_MAX_SIZE
    ensures ok ==> AgentPatchesAre(patches + [patch], done + [v], reading)
    ensures ok <==>
      IsAgentObject(v, reading, ROOT_ROOM - 1)
      && forall i :: 0 <= i < |done| ==> IsAgentObject(done[i], reading, ROOT_ROOM - 1) && AgentOf(done[i], reading) != AgentOf(v, reading)
  {
    hide IsWhole, IsAgentObject, AgentOf, ObjectFields, Gathers;
    ok, patch := ParseAgent(v, reading, ROOT_ROOM - 1);
    if ok {
      AgentIsObject(v, reading);
      IdGathered(patch, v, reading);
      var named := IsNamed(patches, patch.id);
      ok := !named;
      if ok {
        AgentsGrow(patches, patch, done, v, reading);
      }
    }
  }

  lemma NoAgents(reading: Reading)
    ensures AgentPatchesAre([], [], reading)
  {
  }

  lemma PatchesAreAgents(patches: seq<Patch>, vs: seq<Text>, reading: Reading)
    requires AgentPatchesAre(patches, vs, reading)
    ensures AreAgents(vs, reading)
  {
  }

  lemma {:induction false} ElementsAreShort(s: Text, p: nat, room: nat, i: nat)
    requires p <= |s| && Elements(s, p, room).Complete? && i < |ElementsOf(s, p, room)|
    ensures |ElementsOf(s, p, room)[i]| <= |s|
    decreases |s| - p
  {
    hide Elements, Value, NextElement;
    ElementsShape(s, p, room);
    ValueStarts(s, p, room);
    NextElementGoesOn(s, p, room);
    if i > 0 {
      ElementsAreShort(s, NextElement(s, p, room).value, room, i - 1);
    }
  }

  lemma ElementIsShort(t: Text, room: nat, i: nat)
    requires IsArrayOf(t, room) && i < |ArrayElements(t, room)|
    ensures room > 0 && IsWhole(ArrayElements(t, room)[i], room - 1) && |ArrayElements(t, room)[i]| <= |t|
  {
    hide IsWhole, Elements, ElementsOf;
    ArrayElementsAreWhole(t, room);
    ArrayOpens(t, room);
    ElementsAreShort(t, SkipSpace(t, 1), room - 1, i);
  }

  // ---------------------------------------------------------------- the two calls

  class LightingModel {
    var model: Model

    constructor ()
      ensures IsModel(model)
    {
      model := Model(BLANK_AGENT.zone, BLANK_AGENT.zone, seq(AGENT_COUNT, _ => BLANK_AGENT));
    }

    /**
     * `codex_lighting_apply_rgbcfg`: all or nothing. Parameters that are no such configuration change
     * nothing; any others set exactly what they say. The listener is called if the model changes.
     */
    method ApplyRgbConfig(params: Text, reading: Reading) returns (status: Status, notified: bool)
      modifies this
      ensures status == if |params| > JSON_MAX_SIZE then TooLong else if IsRgbConfig(params, reading) then Ok else InvalidInput
      ensures model == if IsRgbConfig(params, reading) then Configured(old(model), params, reading) else old(model)
      ensures notified <==> model != old(model)
    {
      hide IsWhole, ObjectFields, AreZones, ScanText, WithZones, ApplyToZone;
      if params == [] {
        return InvalidInput, false;
      }
      if |params| > JSON_MAX_SIZE {
        return TooLong, false;
      }
      var t := TrimSpace(params);
      if t == [] {
        NothingIsWhole();
        return InvalidInput, false;
      }
      RootIsWhole(t);
      var scan := JsonParser.ScanValue(t, JSON_MAX_DEPTH);
      if !scan.result.COMPLETE? || t[0] != LBRACE {
        return InvalidInput, false;
      }
      ClosesAsOpened(t);
      if t[|t| - 1] != RBRACE {
        return InvalidInput, false;
      }
      var ok, keys, ambient := ParseZones(t, reading);
      if !ok {
        return InvalidInput, false;
      }
      var next := model.(keys := ApplyToZone(model.keys, keys));
      next := next.(ambient := ApplyToZone(model.ambient, ambient));
      var changed := next != model;
      if changed {
        model := next;
      }
      return Ok, changed;
    }

    /** `codex_lighting_apply_thstatus`: likewise for the agents. */
    method ApplyAgentStatus(params: Text, reading: Reading) returns (status: Status, notified: bool)
      requires IsModel(model)
      modifies this
      ensures IsModel(model)
      ensures status == if |params| > JSON_MAX_SIZE then TooLong else if IsAgentStatus(params, reading) then Ok else InvalidInput
      ensures model == if IsAgentStatus(params, reading) then Lighting.Reported(old(model), params, reading) else old(model)
      ensures notified <==> model != old(model)
    {
      hide IsWhole, ArrayElements, AreAgents, ScanText, WithAgents, Apply, AgentPatchesAre;
      if params == [] {
        return InvalidInput, false;
      }
      if |params| > JSON_MAX_SIZE {
        return TooLong, false;
      }
      var t := TrimSpace(params);
      if t == [] {
        NothingIsWhole();
        return InvalidInput, false;
      }
      RootIsWhole(t);
      var scan := JsonParser.ScanValue(t, JSON_MAX_DEPTH);
      if !scan.result.COMPLETE? || t[0] != LBRACKET {
        return InvalidInput, false;
      }
      ClosesAsOpened(t);
      if t[|t| - 1] != RBRACKET {
        return InvalidInput, false;
      }
      var ok, patches := ParseAgents(t, reading);
      if !ok {
        return InvalidInput, false;
      }
      ghost var vs := ArrayElements(t, ROOT_ROOM);
      var next := CommitAgents(model, patches, vs, reading);
      var changed := next != model;
      if changed {
        model := next;
      }
      return Ok, changed;
    }
  }

  /** The patches of the agents, one after the other. */
  method CommitAgents(m: Model, patches: seq<Patch>, ghost vs: seq<Text>, reading: Reading) returns (next: Model)
    requires IsModel(m) && AgentPatchesAre(patches, vs, reading)
    ensures AreAgents(vs, reading) && next == WithAgents(m, vs, reading)
  {
    hide IsAgentObject, Gathers, ObjectFields, IsObjectOf, AgentOf, Apply, Patched;
    next := m;
    assert vs[..0] == [];
    var i := 0;
    while i < |patches|
      invariant 0 <= i <= |patches| && IsModel(next)
      invariant AreAgents(vs[..i], reading) && next == WithAgents(m, vs[..i], reading)
    {
      var patch := patches[i];
      AgentIsObject(vs[i], reading);
      ApplyIsPatched(next.agents[patch.id], patch, ObjectFields(vs[i], ROOT_ROOM - 1), reading);
      assert vs[..i + 1][..i] == vs[..i] && vs[..i + 1][i] == vs[i];
      next := next.(agents := next.agents[patch.id := Apply(next.agents[patch.id], patch)]);
      i := i + 1;
    }
    assert vs[..i] == vs;
  }

  lemma NothingIsWhole()
    ensures !IsWhole([], ROOT_ROOM)
  {
  }

  /** A whole object or array ends with the bracket that belongs to its first octet. */
  lemma ClosesAsOpened(t: Text)
    requires IsWhole(t, ROOT_ROOM) && (t[0] == LBRACE || t[0] == LBRACKET)
    ensures t[|t| - 1] == if t[0] == LBRACE then RBRACE else RBRACKET
  {
    hide Value, Utf8, JsonGrammar.AreMembers, JsonGrammar.AreElements, JsonGrammar.Ws, JsonGrammar.IsChars;
    assert SkipSpace(t, 0) == 0;
    JsonGrammar.ValueSound(t, 0, ROOT_ROOM, |t|);
    assert t[0..|t|][0] == t[0];
  }
}
