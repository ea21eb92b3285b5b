/** What each named member of a lighting call is and does, told from the names as they stand in the documents. */
module LightingLaws {
  import opened Bytes
  import opened JsonString
  import opened Spelling
  import opened JsonObject
  import opened JsonMembers
  import opened Decimal
  import opened Lighting

  /** A member whose key means the literal. */
  predicate IsNamed(f: Field, name: string) {
    TextReads(f.key, name)
  }

  ghost predicate IsThere(fs: seq<Field>, name: string) {
    exists i :: 0 <= i < |fs| && IsNamed(fs[i], name)
  }

  // ---------------------------------------------------------------- names

  predicate IsNameOf(name: seq<nat>, p: Property) {
    match p
    case ZoneEffect => IsLiteral(name, "e")
    case Brightness => IsLiteral(name, "b")
    case Speed => IsLiteral(name, "s")
    case Color => IsLiteral(name, "c")
    case Mode => IsLiteral(name, "m")
    case AgentId => IsLiteral(name, "id")
    case Sk => IsLiteral(name, "sk")
    case Sa => IsLiteral(name, "sa")
    case Foreign =>
      !IsLiteral(name, "e") && !IsLiteral(name, "b") && !IsLiteral(name, "s") && !IsLiteral(name, "c") && !IsLiteral(name, "m")
      && !IsLiteral(name, "id") && !IsLiteral(name, "sk") && !IsLiteral(name, "sa")
  }

  lemma NamesDiffer(name: seq<nat>)
    ensures IsLiteral(name, "e") ==> |name| == 1 && name[0] == 'e' as int
    ensures IsLiteral(name, "b") ==> |name| == 1 && name[0] == 'b' as int
    ensures IsLiteral(name, "s") ==> |name| == 1 && name[0] == 's' as int
    ensures IsLiteral(name, "c") ==> |name| == 1 && name[0] == 'c' as int
    ensures IsLiteral(name, "m") ==> |name| == 1 && name[0] == 'm' as int
    ensures IsLiteral(name, "id") ==> |name| == 2 && name[1] == 'd' as int
    ensures IsLiteral(name, "sk") ==> |name| == 2 && name[1] == 'k' as int
    ensures IsLiteral(name, "sa") ==> |name| == 2 && name[1] == 'a' as int
  {
  }

  lemma NameIsRead(name: seq<nat>, p: Property)
    ensures PropertyOf(name) == p <==> IsNameOf(name, p)
  {
    hide Codes, IsLiteral;
    NamesDiffer(name);
    LiteralIsCodes(name, "e");
    LiteralIsCodes(name, "b");
    LiteralIsCodes(name, "s");
    LiteralIsCodes(name, "c");
    LiteralIsCodes(name, "m");
    LiteralIsCodes(name, "id");
    LiteralIsCodes(name, "sk");
    LiteralIsCodes(name, "sa");
  }

  lemma PropertyIsNamed(f: Field)
    requires IsMemberOf(f)
    ensures IsNameOf(Decoded(f.key), PropertyAt(f)) && IsToken(f.key)
    ensures forall p: Property :: IsNameOf(Decoded(f.key), p) ==> p == PropertyAt(f)
  {
    hide IsToken, Decoded, IsScalarOrContainer, PropertyOf, IsNameOf;
    forall p: Property ensures PropertyAt(f) == p <==> IsNameOf(Decoded(f.key), p) {
      NameIsRead(Decoded(f.key), p);
    }
  }

  // ---------------------------------------------------------------- what is accepted

  /** A number that is neither too large for the reader nor no number. */
  predicate IsReadable(v: Text, reading: Reading) {
    IsDecimal(v) && reading(v).Some?
  }

  predicate IsWholeNumber(v: Text, reading: Reading) {
    IsReadable(v, reading) && DenotesInteger(v)
  }

  predicate IsUpTo(v: Text, maximum: nat, reading: Reading) {
    IsWholeNumber(v, reading) && 0 <= Denoted(v) <= maximum
  }

  /** A member of a zone: an effect, a brightness, a speed, a colour; and a mode where one is allowed. */
  predicate IsZoneSetting(f: Field, allowMode: bool, reading: Reading) {
    (IsNamed(f, "e") && IsUpTo(f.value, 6, reading))
    || (IsNamed(f, "b") && IsReadable(f.value, reading))
    || (IsNamed(f, "s") && IsReadable(f.value, reading))
    || (IsNamed(f, "c") && IsWholeNumber(f.value, reading))
    || (allowMode && IsNamed(f, "m") && IsReadable(f.value, reading))
  }

  /** A member of an agent: the same without a mode, the number of the agent, and two flags. */
  predicate IsAgentSetting(f: Field, reading: Reading) {
    IsZoneSetting(f, false, reading)
    || (IsNamed(f, "id") && IsUpTo(f.value, 5, reading))
    || (IsNamed(f, "sk") && IsUpTo(f.value, 1, reading))
    || (IsNamed(f, "sa") && IsUpTo(f.value, 1, reading))
  }

  predicate NoKeyTwice(fs: seq<Field>)
    requires AllMembers(fs)
  {
    forall i, j :: 0 <= i < j < |fs| ==> Decoded(fs[i].key) != Decoded(fs[j].key)
  }

  lemma SettingIsRead(f: Field, reading: Reading)
    requires IsMemberOf(f)
    ensures IsZoneSetting(f, false, reading) <==> PropertyAt(f) in ZONE_PROPERTIES && Fits(PropertyAt(f), f.value, reading)
    ensures IsZoneSetting(f, true, reading) <==> PropertyAt(f) in ZONE_PROPERTIES + {Mode} && Fits(PropertyAt(f), f.value, reading)
    ensures IsAgentSetting(f, reading) <==> PropertyAt(f) in AGENT_PROPERTIES && Fits(PropertyAt(f), f.value, reading)
  {
    hide IsToken, Decoded, IsScalarOrContainer, PropertyAt, IsDecimal, DenotesInteger, Denoted, IsLiteral;
    PropertyIsNamed(f);
    NamesDiffer(Decoded(f.key));
  }

  lemma SameName(f: Field, g: Field)
    requires IsMemberOf(f) && IsMemberOf(g) && PropertyAt(f) != Foreign
    ensures PropertyAt(f) == PropertyAt(g) <==> Decoded(f.key) == Decoded(g.key)
  {
    hide IsToken, Decoded, IsScalarOrContainer;
    if PropertyAt(f) == PropertyAt(g) {
      hide PropertyOf;
      PropertyIsNamed(f);
      PropertyIsNamed(g);
    }
  }

  /** The members of an object are settings exactly if each of them is one and no key comes twice, however it is escaped. */
  lemma SettingsDecided(fs: seq<Field>, reading: Reading)
    requires AllMembers(fs)
    ensures AreSettings(fs, ZONE_PROPERTIES + {Mode}, reading) <==>
      (forall i :: 0 <= i < |fs| ==> IsZoneSetting(fs[i], true, reading)) && NoKeyTwice(fs)
    ensures AreSettings(fs, ZONE_PROPERTIES, reading) <==>
      (forall i :: 0 <= i < |fs| ==> IsZoneSetting(fs[i], false, reading)) && NoKeyTwice(fs)
    ensures AreSettings(fs, AGENT_PROPERTIES, reading) <==>
      (forall i :: 0 <= i < |fs| ==> IsAgentSetting(fs[i], reading)) && NoKeyTwice(fs)
  {
    hide IsMemberOf, PropertyAt, IsZoneSetting, IsAgentSetting, Fits, Decoded;
    forall i | 0 <= i < |fs| ensures
      (IsZoneSetting(fs[i], false, reading) <==> PropertyAt(fs[i]) in ZONE_PROPERTIES && Fits(PropertyAt(fs[i]), fs[i].value, reading))
      && (IsZoneSetting(fs[i], true, reading) <==> PropertyAt(fs[i]) in ZONE_PROPERTIES + {Mode} && Fits(PropertyAt(fs[i]), fs[i].value, reading))
      && (IsAgentSetting(fs[i], reading) <==> PropertyAt(fs[i]) in AGENT_PROPERTIES && Fits(PropertyAt(fs[i]), fs[i].value, reading))
    {
      SettingIsRead(fs[i], reading);
    }
    if forall i :: 0 <= i < |fs| ==> PropertyAt(fs[i]) != Foreign {
      TwiceDecided(fs);
    }
  }

  lemma TwiceDecided(fs: seq<Field>)
    requires AllMembers(fs) && forall i :: 0 <= i < |fs| ==> PropertyAt(fs[i]) != Foreign
    ensures NoneTwice(fs) <==> NoKeyTwice(fs)
  {
    hide IsToken, PropertyAt, Decoded, IsScalarOrContainer;
    forall i, j | 0 <= i < j < |fs| ensures PropertyAt(fs[i]) == PropertyAt(fs[j]) <==> Decoded(fs[i].key) == Decoded(fs[j].key) {
      SameName(fs[i], fs[j]);
    }
  }

  // ---------------------------------------------------------------- what is stored

  /** Between 0 and 1. */
  function InUnit(x: real): real {
    if x < 0.0 then 0.0 else if x > 1.0 then 1.0 else x
  }

  /** A colour of 24 bits. */
  function InColors(n: int): int {
    if n < 0 then 0 else if n > 0xFFFFFF then 0xFFFFFF else n
  }

  /** What the member with some name makes of one property; without one it keeps its value. */
  ghost predicate SetsWhole(fs: seq<Field>, name: string, before: int, after: int, stored: Text -> int) {
    (forall i :: 0 <= i < |fs| && IsNamed(fs[i], name) ==> after == stored(fs[i].value))
    && (!IsThere(fs, name) ==> after == before)
  }

  ghost predicate SetsPart(fs: seq<Field>, name: string, before: real, after: real, reading: Reading) {
    (forall i :: 0 <= i < |fs| && IsNamed(fs[i], name) ==> reading(fs[i].value).Some? && after == InUnit(reading(fs[i].value).value))
    && (!IsThere(fs, name) ==> after == before)
  }

  function DenotedOr0(v: Text): int {
    if IsDecimal(v) then Denoted(v) else 0
  }

  lemma StoredByName(a: Agent, fs: seq<Field>, reading: Reading, p: Property, name: string)
    requires AllMembers(fs) && SettingsFit(fs, reading) && NoneTwice(fs) && p != AgentId
    requires forall n: seq<nat> :: IsNameOf(n, p) <==> IsLiteral(n, name)
    ensures forall i :: 0 <= i < |fs| && IsNamed(fs[i], name) ==>
      Fits(p, fs[i].value, reading) && Get(Patched(a, fs, reading), p) == Reads(p, fs[i].value, reading)
    ensures !IsThere(fs, name) ==> Get(Patched(a, fs, reading), p) == Get(a, p)
  {
    hide IsToken, Decoded, IsScalarOrContainer, PropertyAt, Fits, Reads, Get, Patched, IsNameOf, IsLiteral;
    PatchedMeans(a, fs, reading, p);
    forall i | 0 <= i < |fs| ensures PropertyAt(fs[i]) == p <==> IsNamed(fs[i], name) {
      PropertyIsNamed(fs[i]);
    }
  }

  lemma PartStored(a: Agent, fs: seq<Field>, reading: Reading, p: Property, name: string)
    requires AllMembers(fs) && SettingsFit(fs, reading) && NoneTwice(fs) && (p == Brightness || p == Speed || p == Mode)
    requires forall n: seq<nat> :: IsNameOf(n, p) <==> IsLiteral(n, name)
    ensures Get(a, p).Part? && Get(Patched(a, fs, reading), p).Part?
    ensures SetsPart(fs, name, Get(a, p).x, Get(Patched(a, fs, reading), p).x, reading)
  {
    hide IsToken, Decoded, IsScalarOrContainer, PropertyAt, Patched, IsNamed, IsNameOf, IsLiteral, IsDecimal;
    StoredByName(a, fs, reading, p, name);
  }

  lemma WholeStored(a: Agent, fs: seq<Field>, reading: Reading, p: Property, name: string)
    requires AllMembers(fs) && SettingsFit(fs, reading) && NoneTwice(fs) && (p == ZoneEffect || p == Color || p == Sk || p == Sa)
    requires forall n: seq<nat> :: IsNameOf(n, p) <==> IsLiteral(n, name)
    ensures Get(a, p).Whole? && Get(Patched(a, fs, reading), p).Whole?
    ensures SetsWhole(fs, name, Get(a, p).n, Get(Patched(a, fs, reading), p).n,
                      if p == Color then (v: Text) => InColors(DenotedOr0(v)) else DenotedOr0)
  {
    hide IsToken, Decoded, IsScalarOrContainer, PropertyAt, Patched, IsNamed, IsNameOf, IsLiteral, IsDecimal, DenotesInteger, Denoted;
    StoredByName(a, fs, reading, p, name);
  }

  /**
   * Each property holds afterwards what its own member says, whatever order the members come in: the effect
   * and the two flags the integer, the colour the integer kept within 24 bits, brightness, speed and mode
   * the number kept within the unit; and a property without a member holds what it held before.
   */
  lemma SettingsMean(a: Agent, fs: seq<Field>, reading: Reading)
    requires AllMembers(fs) && SettingsFit(fs, reading) && NoneTwice(fs)
    ensures var t := Patched(a, fs, reading);
      SetsWhole(fs, "e", a.zone.effect, t.zone.effect, DenotedOr0)
      && SetsPart(fs, "b", a.zone.brightness, t.zone.brightness, reading)
      && SetsPart(fs, "s", a.zone.speed, t.zone.speed, reading)
      && SetsWhole(fs, "c", a.zone.color, t.zone.color, (v: Text) => InColors(DenotedOr0(v)))
      && SetsPart(fs, "m", a.zone.mode, t.zone.mode, reading)
      && SetsWhole(fs, "sk", if a.sk then 1 else 0, if t.sk then 1 else 0, DenotedOr0)
      && SetsWhole(fs, "sa", if a.sa then 1 else 0, if t.sa then 1 else 0, DenotedOr0)
  {
    hide AllMembers, SettingsFit, NoneTwice, SetsWhole, SetsPart, IsLiteral, Patched;
    WholeStored(a, fs, reading, ZoneEffect, "e");
    PartStored(a, fs, reading, Brightness, "b");
    PartStored(a, fs, reading, Speed, "s");
    WholeStored(a, fs, reading, Color, "c");
    PartStored(a, fs, reading, Mode, "m");
    WholeStored(a, fs, reading, Sk, "sk");
    WholeStored(a, fs, reading, Sa, "sa");
  }

  // ---------------------------------------------------------------- the parameters without their white space

  predicate IsWhite(b: byte) { b == 0x20 || b == 0x09 || b == 0x0A || b == 0x0D }

  predicate AllWhite(t: Text) {
    forall i :: 0 <= i < |t| ==> IsWhite(t[i])
  }

  lemma {:induction false} LeftIsTrimmed(s: Text) returns (a: Text)
    ensures s == a + TrimLeft(s) && AllWhite(a)
    ensures TrimLeft(s) != [] ==> !IsWhite(TrimLeft(s)[0])
    decreases |s|
  {
    if s != [] && IsSpace(s[0]) {
      var rest := LeftIsTrimmed(s[1..]);
      a := [s[0]] + rest;
      assert s == [s[0]] + s[1..];
    } else {
      a := [];
    }
  }

  lemma {:induction false} RightIsTrimmed(s: Text) returns (b: Text)
    ensures s == TrimRight(s) + b && AllWhite(b)
    ensures TrimRight(s) != [] ==> !IsWhite(TrimRight(s)[|TrimRight(s)| - 1]) && TrimRight(s)[0] == s[0]
    decreases |s|
  {
    if s != [] && IsSpace(s[|s| - 1]) {
      var front := s[..|s| - 1];
      var rest := RightIsTrimmed(front);
      b := rest + [s[|s| - 1]];
      assert s == front + [s[|s| - 1]];
    } else {
      b := [];
    }
  }

  /** What is left of the parameters: all but the white space around them. */
  lemma TrimIs(params: Text) returns (a: Text, b: Text)
    ensures params == a + Trim(params) + b && AllWhite(a) && AllWhite(b)
    ensures var t := Trim(params); t != [] ==> !IsWhite(t[0]) && !IsWhite(t[|t| - 1])
  {
    hide TrimLeft, TrimRight, AllWhite;
    a := LeftIsTrimmed(params);
    b := RightIsTrimmed(TrimLeft(params));
    assert a + (Trim(params) + b) == a + Trim(params) + b;
    if Trim(params) != [] {
      assert TrimLeft(params) != [];
    }
  }

  // ---------------------------------------------------------------- zones

  ghost predicate ZoneIsSet(before: Zone, after: Zone, fs: seq<Field>, reading: Reading) {
    SetsWhole(fs, "e", before.effect, after.effect, DenotedOr0)
    && SetsPart(fs, "b", before.brightness, after.brightness, reading)
    && SetsPart(fs, "s", before.speed, after.speed, reading)
    && SetsWhole(fs, "c", before.color, after.color, (v: Text) => InColors(DenotedOr0(v)))
    && SetsPart(fs, "m", before.mode, after.mode, reading)
  }

  lemma ZoneMeans(z: Zone, fs: seq<Field>, reading: Reading)
    requires AllMembers(fs) && SettingsFit(fs, reading) && NoneTwice(fs)
    ensures ZoneIsSet(z, PatchedZone(z, fs, reading), fs, reading)
  {
    hide AllMembers, SettingsFit, NoneTwice, SetsWhole, SetsPart, Patched;
    SettingsMean(Agent(z, false, false), fs, reading);
  }

  /** An object with at least one setting, and nothing else. */
  predicate IsZoneValue(v: Text, reading: Reading) {
    IsObjectOf(v, 31)
    && var fs := ObjectFields(v, 31);
       AllMembers(fs) && fs != [] && (forall i :: 0 <= i < |fs| ==> IsZoneSetting(fs[i], true, reading)) && NoKeyTwice(fs)
  }

  lemma ZoneValueDecided(v: Text, reading: Reading)
    ensures IsZoneValue(v, reading) <==> IsZoneObject(v, true, reading, ROOT_ROOM - 1)
  {
    hide IsObjectOf, ObjectFields, AllMembers, NoKeyTwice, IsZoneSetting, AllIn, SettingsFit, NoneTwice;
    if IsObjectOf(v, 31) && AllMembers(ObjectFields(v, 31)) {
      SettingsDecided(ObjectFields(v, 31), reading);
    }
  }

  lemma ZoneIsNamed(f: Field)
    requires IsMemberOf(f)
    ensures ZoneAt(f) == Keys <==> IsNamed(f, "keys")
    ensures ZoneAt(f) == Ambient <==> IsNamed(f, "ambient")
    ensures !(IsNamed(f, "keys") && IsNamed(f, "ambient"))
  {
    hide IsToken, Decoded, IsScalarOrContainer, Codes, IsLiteral;
    LiteralIsCodes(Decoded(f.key), "keys");
    LiteralIsCodes(Decoded(f.key), "ambient");
    ZoneNamesDiffer(Decoded(f.key));
  }

  lemma ZoneNamesDiffer(name: seq<nat>)
    ensures IsLiteral(name, "keys") ==> |name| == 4
    ensures IsLiteral(name, "ambient") ==> |name| == 7
  {
  }

  /** Members that are zones: the keys, the ambient light, or both. */
  predicate AreNamedZones(fs: seq<Field>, reading: Reading) {
    AllMembers(fs) && NoKeyTwice(fs)
    && forall i :: 0 <= i < |fs| ==> (IsNamed(fs[i], "keys") || IsNamed(fs[i], "ambient")) && IsZoneValue(fs[i].value, reading)
  }

  lemma SameZone(f: Field, g: Field)
    requires IsMemberOf(f) && IsMemberOf(g) && ZoneAt(f) != NoZone
    ensures ZoneAt(f) == ZoneAt(g) <==> Decoded(f.key) == Decoded(g.key)
  {
    hide IsToken, Decoded, IsScalarOrContainer, Codes;
  }

  lemma NamedZonesDecided(fs: seq<Field>, reading: Reading)
    ensures AreNamedZones(fs, reading) <==> AreZones(fs, reading)
  {
    hide IsMemberOf, ZoneAt, IsZoneValue, IsZoneObject, Decoded, IsNamed;
    if AllMembers(fs) {
      forall i | 0 <= i < |fs| ensures
        (IsZoneValue(fs[i].value, reading) <==> IsZoneObject(fs[i].value, true, reading, ROOT_ROOM - 1))
        && (ZoneAt(fs[i]) != NoZone <==> IsNamed(fs[i], "keys") || IsNamed(fs[i], "ambient"))
      {
        ZoneValueDecided(fs[i].value, reading);
        ZoneIsNamed(fs[i]);
      }
      if forall i :: 0 <= i < |fs| ==> ZoneAt(fs[i]) != NoZone {
        ZonesTwice(fs);
      }
    }
  }

  lemma ZonesTwice(fs: seq<Field>)
    requires AllMembers(fs) && forall i :: 0 <= i < |fs| ==> ZoneAt(fs[i]) != NoZone
    ensures (forall i, j :: 0 <= i < j < |fs| ==> ZoneAt(fs[i]) != ZoneAt(fs[j])) <==> NoKeyTwice(fs)
  {
    hide IsToken, ZoneAt, Decoded, IsScalarOrContainer;
    forall i, j | 0 <= i < j < |fs| ensures ZoneAt(fs[i]) == ZoneAt(fs[j]) <==> Decoded(fs[i].key) == Decoded(fs[j].key) {
      SameZone(fs[i], fs[j]);
    }
  }

  /**
   * The parameters of `v.oai.rgbcfg`, by name: exactly the objects with a member `keys`, a member `ambient`,
   * or both, and nothing else, each with at least one setting and nothing else.
   */
  lemma ConfigDecided(params: Text, reading: Reading)
    ensures IsRgbConfig(params, reading) <==>
      0 < |params| <= 1024 && IsObjectOf(Trim(params), 32)
      && ObjectFields(Trim(params), 32) != [] && AreNamedZones(ObjectFields(Trim(params), 32), reading)
  {
    hide IsObjectOf, ObjectFields, AreZones, AreNamedZones, Trim;
    if IsObjectOf(Trim(params), 32) {
      NamedZonesDecided(ObjectFields(Trim(params), 32), reading);
    }
  }

  /** And what they change: each zone by the settings under its own name, and no agent. */
  lemma ConfigMeans(m: Model, params: Text, reading: Reading)
    requires IsRgbConfig(params, reading)
    ensures var r, fs := Configured(m, params, reading), ObjectFields(Trim(params), 32);
      r.agents == m.agents
      && (forall i :: 0 <= i < |fs| && IsNamed(fs[i], "keys") ==>
            IsObjectOf(fs[i].value, 31) && ZoneIsSet(m.keys, r.keys, ObjectFields(fs[i].value, 31), reading))
      && (forall i :: 0 <= i < |fs| && IsNamed(fs[i], "ambient") ==>
            IsObjectOf(fs[i].value, 31) && ZoneIsSet(m.ambient, r.ambient, ObjectFields(fs[i].value, 31), reading))
      && (!IsThere(fs, "keys") ==> r.keys == m.keys)
      && (!IsThere(fs, "ambient") ==> r.ambient == m.ambient)
  {
    hide IsObjectOf, ObjectFields, Trim, IsMemberOf, ZoneAt, IsZoneObject, ZoneIsSet, IsNamed, PatchedZone, WithZones;
    var fs := ObjectFields(Trim(params), 32);
    ZonesMean(m, fs, reading);
    forall i | 0 <= i < |fs| ensures (ZoneAt(fs[i]) == Keys <==> IsNamed(fs[i], "keys")) && (ZoneAt(fs[i]) == Ambient <==> IsNamed(fs[i], "ambient")) {
      ZoneIsNamed(fs[i]);
    }
    var r := Configured(m, params, reading);
    forall i | 0 <= i < |fs| && IsNamed(fs[i], "keys")
      ensures IsObjectOf(fs[i].value, 31) && ZoneIsSet(m.keys, r.keys, ObjectFields(fs[i].value, 31), reading)
    {
      ZoneObjectMeans(m.keys, fs[i].value, reading);
    }
    forall i | 0 <= i < |fs| && IsNamed(fs[i], "ambient")
      ensures IsObjectOf(fs[i].value, 31) && ZoneIsSet(m.ambient, r.ambient, ObjectFields(fs[i].value, 31), reading)
    {
      ZoneObjectMeans(m.ambient, fs[i].value, reading);
    }
  }

  lemma ZoneObjectMeans(z: Zone, v: Text, reading: Reading)
    requires IsZoneObject(v, true, reading, 31)
    ensures IsObjectOf(v, 31)
    ensures var fs := ObjectFields(v, 31);
      AllMembers(fs) && SettingsFit(fs, reading) && ZoneIsSet(z, PatchedZone(z, fs, reading), fs, reading)
  {
    hide IsObjectOf, ObjectFields, AllMembers, SettingsFit, NoneTwice, AllIn, PatchedZone, ZoneIsSet;
    ZoneMeans(z, ObjectFields(v, 31), reading);
  }

  // ---------------------------------------------------------------- agents

  /** An object that names an agent and sets something for it, and nothing else. */
  ghost predicate IsAgentValue(v: Text, reading: Reading) {
    IsObjectOf(v, 31)
    && var fs := ObjectFields(v, 31);
       AllMembers(fs) && |fs| >= 2 && (forall i :: 0 <= i < |fs| ==> IsAgentSetting(fs[i], reading)) && NoKeyTwice(fs)
       && IsThere(fs, "id")
  }

  lemma IdIsNamed(fs: seq<Field>)
    requires AllMembers(fs)
    ensures Sets(fs, AgentId) <==> IsThere(fs, "id")
  {
    hide IsToken, Decoded, IsScalarOrContainer, PropertyAt, IsLiteral;
    forall i | 0 <= i < |fs| ensures PropertyAt(fs[i]) == AgentId <==> IsNamed(fs[i], "id") {
      PropertyIsNamed(fs[i]);
      NamesDiffer(Decoded(fs[i].key));
    }
  }

  lemma AgentValueDecided(v: Text, reading: Reading)
    ensures IsAgentValue(v, reading) <==> IsAgentObject(v, reading, ROOT_ROOM - 1)
  {
    hide IsObjectOf, ObjectFields, AllMembers, NoKeyTwice, IsAgentSetting, AllIn, SettingsFit, NoneTwice, IsThere;
    if IsObjectOf(v, 31) && AllMembers(ObjectFields(v, 31)) {
      SettingsDecided(ObjectFields(v, 31), reading);
      IdIsNamed(ObjectFields(v, 31));
    }
  }

  /** The agent that an object names is the number under `id`. */
  lemma {:induction false} IdIsUnderItsName(fs: seq<Field>, reading: Reading, k: nat)
    requires AllMembers(fs) && SettingsFit(fs, reading) && NoneTwice(fs) && k < |fs| && PropertyAt(fs[k]) == AgentId
    ensures IdIn(fs, reading) == DenotedOr0(fs[k].value)
  {
    hide IsMemberOf, PropertyAt, DenotesInteger, Denoted, IsDecimal;
    var n := |fs| - 1;
    if k < n {
      assert fs[..n][k] == fs[k];
      assert forall i :: 0 <= i < n ==> fs[..n][i] == fs[i];
      IdIsUnderItsName(fs[..n], reading, k);
    }
  }

  ghost predicate AgentIsSet(before: Agent, after: Agent, fs: seq<Field>, reading: Reading) {
    ZoneIsSet(before.zone, after.zone, fs, reading)
    && SetsWhole(fs, "sk", if before.sk then 1 else 0, if after.sk then 1 else 0, DenotedOr0)
    && SetsWhole(fs, "sa", if before.sa then 1 else 0, if after.sa then 1 else 0, DenotedOr0)
  }

  /** The object is for this agent. */
  ghost predicate IsFor(v: Text, id: int, reading: Reading) {
    IsObjectOf(v, 31)
    && exists k :: 0 <= k < |ObjectFields(v, 31)| && IsNamed(ObjectFields(v, 31)[k], "id") && DenotedOr0(ObjectFields(v, 31)[k].value) == id
  }

  lemma AgentObjectMeans(a: Agent, v: Text, reading: Reading)
    requires IsAgentObject(v, reading, 31)
    ensures IsObjectOf(v, 31)
    ensures var fs := ObjectFields(v, 31);
      AllMembers(fs) && SettingsFit(fs, reading) && AgentIsSet(a, Patched(a, fs, reading), fs, reading)
  {
    hide IsObjectOf, ObjectFields, AllMembers, SettingsFit, NoneTwice, AllIn, Patched, SetsWhole, SetsPart;
    SettingsMean(a, ObjectFields(v, 31), reading);
  }

  lemma ForIsAgentOf(v: Text, reading: Reading, id: int)
    requires IsAgentObject(v, reading, 31)
    ensures IsFor(v, id, reading) <==> AgentOf(v, reading) == id
  {
    hide IsObjectOf, ObjectFields, IsMemberOf, SettingsFit, NoneTwice, AllIn, DenotedOr0, PropertyAt, IsNamed;
    var fs := ObjectFields(v, 31);
    forall i | 0 <= i < |fs| ensures PropertyAt(fs[i]) == AgentId <==> IsNamed(fs[i], "id") {
      IdAtName(fs[i]);
    }
    forall k | 0 <= k < |fs| && PropertyAt(fs[k]) == AgentId ensures AgentOf(v, reading) == DenotedOr0(fs[k].value) {
      IdIsUnderItsName(fs, reading, k);
    }
  }

  lemma IdAtName(f: Field)
    requires IsMemberOf(f)
    ensures PropertyAt(f) == AgentId <==> IsNamed(f, "id")
  {
    hide IsToken, Decoded, IsScalarOrContainer, PropertyAt, IsLiteral;
    PropertyIsNamed(f);
    NamesDiffer(Decoded(f.key));
  }

  /** The elements of a list of agents: each is for another agent. */
  ghost predicate AreNamedAgents(vs: seq<Text>, reading: Reading) {
    (forall i :: 0 <= i < |vs| ==> IsAgentValue(vs[i], reading))
    && forall i, j, id :: 0 <= i < j < |vs| && IsFor(vs[i], id, reading) ==> !IsFor(vs[j], id, reading)
  }

  lemma NamedAgentsDecided(vs: seq<Text>, reading: Reading)
    ensures AreNamedAgents(vs, reading) <==> AreAgents(vs, reading)
  {
    hide IsAgentValue, IsAgentObject, IsFor, AgentOf;
    forall i | 0 <= i < |vs| ensures IsAgentValue(vs[i], reading) <==> IsAgentObject(vs[i], reading, ROOT_ROOM - 1) {
      AgentValueDecided(vs[i], reading);
    }
    if forall i :: 0 <= i < |vs| ==> IsAgentValue(vs[i], reading) {
      forall i, id | 0 <= i < |vs| ensures IsFor(vs[i], id, reading) <==> AgentOf(vs[i], reading) == id {
        ForIsAgentOf(vs[i], reading, id);
      }
      forall i | 0 <= i < |vs| ensures IsFor(vs[i], AgentOf(vs[i], reading), reading) {
        ForIsAgentOf(vs[i], reading, AgentOf(vs[i], reading));
      }
    }
  }

  /** The parameters of `v.oai.thstatus`, by name: exactly the lists of one to six objects for different agents. */
  lemma StatusDecided(params: Text, reading: Reading)
    ensures IsAgentStatus(params, reading) <==>
      0 < |params| <= 1024 && IsArrayOf(Trim(params), 32)
      && 1 <= |ArrayElements(Trim(params), 32)| <= 6 && AreNamedAgents(ArrayElements(Trim(params), 32), reading)
  {
    hide IsArrayOf, ArrayElements, AreAgents, AreNamedAgents, Trim;
    if IsArrayOf(Trim(params), 32) {
      NamedAgentsDecided(ArrayElements(Trim(params), 32), reading);
    }
  }

  /** And what they change: each agent by the object that is for it, and no zone. */
  lemma StatusMeans(m: Model, params: Text, reading: Reading)
    requires IsModel(m) && IsAgentStatus(params, reading)
    ensures var r, vs := Lighting.Reported(m, params, reading), ArrayElements(Trim(params), 32);
      IsModel(r) && r.keys == m.keys && r.ambient == m.ambient
      && (forall i, id :: 0 <= i < |vs| && IsFor(vs[i], id, reading) ==>
            0 <= id < 6 && AgentIsSet(m.agents[id], r.agents[id], ObjectFields(vs[i], 31), reading))
      && (forall id :: 0 <= id < 6 && (forall i :: 0 <= i < |vs| ==> !IsFor(vs[i], id, reading)) ==> r.agents[id] == m.agents[id])
  {
    hide IsArrayOf, ArrayElements, Trim, IsAgentObject, IsFor, AgentOf, AgentIsSet, Patched, WithAgents, ObjectFields, IsObjectOf;
    var r, vs := Lighting.Reported(m, params, reading), ArrayElements(Trim(params), 32);
    AgentsMean(m, vs, reading);
    forall i, id | 0 <= i < |vs| ensures IsFor(vs[i], id, reading) <==> AgentOf(vs[i], reading) == id {
      ForIsAgentOf(vs[i], reading, id);
    }
    forall i, id | 0 <= i < |vs| && IsFor(vs[i], id, reading)
      ensures 0 <= id < 6 && IsObjectOf(vs[i], 31) && AgentIsSet(m.agents[id], r.agents[id], ObjectFields(vs[i], 31), reading)
    {
      AgentObjectMeans(m.agents[id], vs[i], reading);
    }
  }
}
