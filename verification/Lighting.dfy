/** The lighting parameters of src/lighting/model.c: which texts are accepted, and what they change. */
module Lighting {
  import opened Bytes
  import opened JsonString
  import opened JsonObject
  import opened JsonMembers
  import opened ChannelSpec
  import opened Decimal

  // ---------------------------------------------------------------- the model

  datatype Zone = Zone(color: u32, brightness: real, speed: real, mode: real, effect: int)

  datatype Agent = Agent(zone: Zone, sk: bool, sa: bool)

  const AGENT_COUNT: nat := 6

  datatype Model = Model(keys: Zone, ambient: Zone, agents: seq<Agent>)

  predicate IsModel(m: Model) {
    |m.agents| == AGENT_COUNT
  }

  /** What `number_value` makes of a number in floating point, or nothing where it overflows. */
  type Reading = Text -> Option<real>

  function ClampUnit(x: real): real {
    if x <= 0.0 then 0.0 else if x >= 1.0 then 1.0 else x
  }

  // ---------------------------------------------------------------- members and their values

  datatype Property = ZoneEffect | Brightness | Speed | Color | Mode | AgentId | Sk | Sa | Foreign

  const NAMES: seq<Text> := [Ascii("e"), Ascii("b"), Ascii("s"), Ascii("c"), Ascii("m"), Ascii("id"), Ascii("sk"), Ascii("sa")]

  function PropertyOf(name: seq<nat>): Property {
    if name == Codes(NAMES[0]) then ZoneEffect
    else if name == Codes(NAMES[1]) then Brightness
    else if name == Codes(NAMES[2]) then Speed
    else if name == Codes(NAMES[3]) then Color
    else if name == Codes(NAMES[4]) then Mode
    else if name == Codes(NAMES[5]) then AgentId
    else if name == Codes(NAMES[6]) then Sk
    else if name == Codes(NAMES[7]) then Sa
    else Foreign
  }

  function PropertyAt(f: Field): Property
    requires IsMemberOf(f)
  {
    PropertyOf(Decoded(f.key))
  }

  predicate InRange(v: Text, reading: Reading) {
    IsDecimal(v) && reading(v).Some?
  }

  predicate IsBounded(v: Text, maximum: nat, reading: Reading) {
    InRange(v, reading) && DenotesInteger(v) && 0 <= Denoted(v) <= maximum
  }

  /** What a property must hold. */
  predicate Fits(p: Property, v: Text, reading: Reading) {
    match p
    case ZoneEffect => IsBounded(v, 6, reading)
    case Brightness => InRange(v, reading)
    case Speed => InRange(v, reading)
    case Color => InRange(v, reading) && DenotesInteger(v)
    case Mode => InRange(v, reading)
    case AgentId => IsBounded(v, AGENT_COUNT - 1, reading)
    case Sk => IsBounded(v, 1, reading)
    case Sa => IsBounded(v, 1, reading)
    case Foreign => false
  }

  /** What is stored for it: an exact integer, a colour clamped to 24 bits, a fraction clamped to the unit. */
  datatype Stored = Whole(n: int) | Part(x: real)

  function Reads(p: Property, v: Text, reading: Reading): Stored
    requires Fits(p, v, reading)
  {
    match p
    case Brightness => Part(ClampUnit(reading(v).value))
    case Speed => Part(ClampUnit(reading(v).value))
    case Mode => Part(ClampUnit(reading(v).value))
    case Color => Whole(Clamp(Denoted(v), 0, WHITE))
    case _ => Whole(Denoted(v))
  }

  predicate SettingsFit(fs: seq<Field>, reading: Reading)
    requires AllMembers(fs)
  {
    forall i :: 0 <= i < |fs| ==> Fits(PropertyAt(fs[i]), fs[i].value, reading)
  }

  /** No property twice, however the keys are escaped. */
  predicate NoneTwice(fs: seq<Field>)
    requires AllMembers(fs)
  {
    forall i, j :: 0 <= i < j < |fs| ==> PropertyAt(fs[i]) != PropertyAt(fs[j])
  }

  predicate AllIn(fs: seq<Field>, allowed: set<Property>)
    requires AllMembers(fs)
  {
    forall i :: 0 <= i < |fs| ==> PropertyAt(fs[i]) in allowed
  }

  const ZONE_PROPERTIES: set<Property> := {ZoneEffect, Brightness, Speed, Color}
  const AGENT_PROPERTIES: set<Property> := {ZoneEffect, Brightness, Speed, Color, AgentId, Sk, Sa}

  /** Members that each are allowed, fit, and come once. */
  predicate AreSettings(fs: seq<Field>, allowed: set<Property>, reading: Reading) {
    AllMembers(fs) && AllIn(fs, allowed) && SettingsFit(fs, reading) && NoneTwice(fs)
  }

  predicate Sets(fs: seq<Field>, p: Property) {
    AllMembers(fs) && exists i :: 0 <= i < |fs| && PropertyAt(fs[i]) == p
  }

  /** An object that sets something in a zone. */
  predicate IsZoneObject(v: Text, allowMode: bool, reading: Reading, room: nat) {
    IsObjectOf(v, room)
    && ObjectFields(v, room) != []
    && AreSettings(ObjectFields(v, room), if allowMode then ZONE_PROPERTIES + {Mode} else ZONE_PROPERTIES, reading)
  }

  /** An object that names an agent and sets something for it. */
  predicate IsAgentObject(v: Text, reading: Reading, room: nat) {
    IsObjectOf(v, room)
    && AreSettings(ObjectFields(v, room), AGENT_PROPERTIES, reading)
    && Sets(ObjectFields(v, room), AgentId)
    && |ObjectFields(v, room)| >= 2
  }

  // ---------------------------------------------------------------- patches

  /** A zone with one property set. */
  function SetInZone(z: Zone, p: Property, x: Stored): Zone {
    match p
    case ZoneEffect => if x.Whole? then z.(effect := x.n) else z
    case Color => if x.Whole? && 0 <= x.n <= WHITE then z.(color := x.n) else z
    case Brightness => if x.Part? then z.(brightness := x.x) else z
    case Speed => if x.Part? then z.(speed := x.x) else z
    case Mode => if x.Part? then z.(mode := x.x) else z
    case _ => z
  }

  function SetInAgent(a: Agent, p: Property, x: Stored): Agent {
    match p
    case Sk => if x.Whole? then a.(sk := x.n != 0) else a
    case Sa => if x.Whole? then a.(sa := x.n != 0) else a
    case _ => a.(zone := SetInZone(a.zone, p, x))
  }

  /** An agent with the members of an object set, one after the other. */
  function Patched(a: Agent, fs: seq<Field>, reading: Reading): Agent
    requires AllMembers(fs) && SettingsFit(fs, reading)
  {
    if fs == [] then a
    else
      var n := |fs| - 1;
      SetInAgent(Patched(a, fs[..n], reading), PropertyAt(fs[n]), Reads(PropertyAt(fs[n]), fs[n].value, reading))
  }

  function PatchedZone(z: Zone, fs: seq<Field>, reading: Reading): Zone
    requires AllMembers(fs) && SettingsFit(fs, reading)
  {
    Patched(Agent(z, false, false), fs, reading).zone
  }

  function Get(a: Agent, p: Property): Stored {
    match p
    case ZoneEffect => Whole(a.zone.effect)
    case Color => Whole(a.zone.color)
    case Brightness => Part(a.zone.brightness)
    case Speed => Part(a.zone.speed)
    case Mode => Part(a.zone.mode)
    case Sk => Whole(if a.sk then 1 else 0)
    case Sa => Whole(if a.sa then 1 else 0)
    case _ => Whole(0)
  }

  lemma SetThenGet(a: Agent, p: Property, v: Text, reading: Reading, q: Property)
    requires Fits(p, v, reading)
    ensures Get(SetInAgent(a, p, Reads(p, v, reading)), q)
      == if p == q && p != AgentId then Reads(p, v, reading) else Get(a, q)
  {
    hide DenotesInteger, IsDecimal, Denoted;
  }

  /** A patch stores exactly the values of the members, each in its place, and leaves every other place as it was. */
  lemma {:induction false} PatchedMeans(a: Agent, fs: seq<Field>, reading: Reading, p: Property)
    requires AllMembers(fs) && SettingsFit(fs, reading) && NoneTwice(fs) && p != AgentId
    ensures forall i :: 0 <= i < |fs| && PropertyAt(fs[i]) == p ==> Get(Patched(a, fs, reading), p) == Reads(p, fs[i].value, reading)
    ensures (forall i :: 0 <= i < |fs| ==> PropertyAt(fs[i]) != p) ==> Get(Patched(a, fs, reading), p) == Get(a, p)
    decreases |fs|
  {
    hide IsMemberOf, PropertyAt, Fits, Reads, Get, SetInAgent;
    if fs != [] {
      var n := |fs| - 1;
      var last := fs[n];
      assert forall i :: 0 <= i < n ==> fs[..n][i] == fs[i];
      PatchedMeans(a, fs[..n], reading, p);
      SetThenGet(Patched(a, fs[..n], reading), PropertyAt(last), last.value, reading, p);
    }
  }

  // ---------------------------------------------------------------- parameters

  function TrimLeft(s: Text): (t: Text)
    ensures |t| <= |s|
  {
    if s != [] && IsSpace(s[0]) then TrimLeft(s[1..]) else s
  }

  function TrimRight(s: Text): (t: Text)
    ensures |t| <= |s|
  {
    if s != [] && IsSpace(s[|s| - 1]) then TrimRight(s[..|s| - 1]) else s
  }

  /** The parameters without white space around them. */
  function Trim(s: Text): (t: Text)
    ensures |t| <= |s|
  {
    TrimRight(TrimLeft(s))
  }

  const ROOT_ROOM: nat := 32

  datatype ZoneName = Keys | Ambient | NoZone

  const KEYS: Text := Ascii("keys")
  const AMBIENT: Text := Ascii("ambient")

  function ZoneNameOf(name: seq<nat>): ZoneName {
    if name == Codes(KEYS) then Keys else if name == Codes(AMBIENT) then Ambient else NoZone
  }

  function ZoneAt(f: Field): ZoneName
    requires IsMemberOf(f)
  {
    ZoneNameOf(Decoded(f.key))
  }

  /** Members that each name a zone once and hold settings for it. */
  predicate AreZones(fs: seq<Field>, reading: Reading) {
    AllMembers(fs)
    && (forall i :: 0 <= i < |fs| ==> ZoneAt(fs[i]) != NoZone && IsZoneObject(fs[i].value, true, reading, ROOT_ROOM - 1))
    && (forall i, j :: 0 <= i < j < |fs| ==> ZoneAt(fs[i]) != ZoneAt(fs[j]))
  }

  /** The parameters of `v.oai.rgbcfg`: an object with settings for the keys, the ambient light, or both. */
  predicate IsRgbConfig(params: Text, reading: Reading) {
    var t := Trim(params);
    0 < |params| <= JSON_MAX_SIZE && IsObjectOf(t, ROOT_ROOM)
    && ObjectFields(t, ROOT_ROOM) != [] && AreZones(ObjectFields(t, ROOT_ROOM), reading)
  }

  function SetZone(m: Model, f: Field, reading: Reading): Model
    requires IsMemberOf(f) && IsZoneObject(f.value, true, reading, ROOT_ROOM - 1)
  {
    var fs := ObjectFields(f.value, ROOT_ROOM - 1);
    match ZoneAt(f)
    case Keys => m.(keys := PatchedZone(m.keys, fs, reading))
    case Ambient => m.(ambient := PatchedZone(m.ambient, fs, reading))
    case NoZone => m
  }

  function WithZones(m: Model, fs: seq<Field>, reading: Reading): Model
    requires AreZones(fs, reading)
  {
    if fs == [] then m
    else SetZone(WithZones(m, fs[..|fs| - 1], reading), fs[|fs| - 1], reading)
  }

  function Configured(m: Model, params: Text, reading: Reading): Model
    requires IsRgbConfig(params, reading)
  {
    WithZones(m, ObjectFields(Trim(params), ROOT_ROOM), reading)
  }

  /** The number under the last `id` member, if there is one. */
  function IdIn(fs: seq<Field>, reading: Reading): int
    requires AllMembers(fs) && SettingsFit(fs, reading)
  {
    hide IsMemberOf, IsDecimal, DenotesInteger;
    if fs == [] then -1
    else
      var n := |fs| - 1;
      if PropertyAt(fs[n]) == AgentId then Denoted(fs[n].value) else IdIn(fs[..n], reading)
  }

  lemma {:induction false} IdIsAgent(fs: seq<Field>, reading: Reading)
    requires AllMembers(fs) && SettingsFit(fs, reading) && Sets(fs, AgentId)
    ensures 0 <= IdIn(fs, reading) < AGENT_COUNT
    decreases |fs|
  {
    hide IsMemberOf, IsDecimal, DenotesInteger, PropertyOf, Decoded, Denoted;
    var n := |fs| - 1;
    if PropertyAt(fs[n]) != AgentId {
      var i :| 0 <= i < |fs| && PropertyAt(fs[i]) == AgentId;
      assert fs[..n][i] == fs[i];
      IdIsAgent(fs[..n], reading);
    }
  }

  /** The agent that an object names. */
  function AgentOf(v: Text, reading: Reading): (id: int)
    requires IsAgentObject(v, reading, ROOT_ROOM - 1)
    ensures 0 <= id < AGENT_COUNT
  {
    hide AllMembers, SettingsFit, IsObjectOf, ObjectFields;
    IdIsAgent(ObjectFields(v, ROOT_ROOM - 1), reading);
    IdIn(ObjectFields(v, ROOT_ROOM - 1), reading)
  }

  /** Objects that name different agents. */
  predicate AreAgents(vs: seq<Text>, reading: Reading) {
    (forall i :: 0 <= i < |vs| ==> IsAgentObject(vs[i], reading, ROOT_ROOM - 1))
    && (forall i, j :: 0 <= i < j < |vs| ==> AgentOf(vs[i], reading) != AgentOf(vs[j], reading))
  }

  /** The parameters of `v.oai.thstatus`: at least one and at most six agents. */
  predicate IsAgentStatus(params: Text, reading: Reading) {
    var t := Trim(params);
    0 < |params| <= JSON_MAX_SIZE && IsArrayOf(t, ROOT_ROOM)
    && 0 < |ArrayElements(t, ROOT_ROOM)| <= AGENT_COUNT && AreAgents(ArrayElements(t, ROOT_ROOM), reading)
  }

  function SetAgent(m: Model, v: Text, reading: Reading): (r: Model)
    requires IsModel(m) && IsAgentObject(v, reading, ROOT_ROOM - 1)
    ensures IsModel(r)
  {
    var id := AgentOf(v, reading);
    m.(agents := m.agents[id := Patched(m.agents[id], ObjectFields(v, ROOT_ROOM - 1), reading)])
  }

  function WithAgents(m: Model, vs: seq<Text>, reading: Reading): (r: Model)
    requires IsModel(m) && AreAgents(vs, reading)
    ensures IsModel(r)
  {
    if vs == [] then m
    else SetAgent(WithAgents(m, vs[..|vs| - 1], reading), vs[|vs| - 1], reading)
  }

  function Reported(m: Model, params: Text, reading: Reading): (r: Model)
    requires IsModel(m) && IsAgentStatus(params, reading)
    ensures IsModel(r)
  {
    WithAgents(m, ArrayElements(Trim(params), ROOT_ROOM), reading)
  }

  /** Each zone is patched by its own member, and a zone without a member stays as it was. */
  lemma {:induction false} ZonesMean(m: Model, fs: seq<Field>, reading: Reading)
    requires AreZones(fs, reading)
    ensures var r := WithZones(m, fs, reading);
      r.agents == m.agents
      && (forall i :: 0 <= i < |fs| && ZoneAt(fs[i]) == Keys ==> r.keys == PatchedZone(m.keys, ObjectFields(fs[i].value, ROOT_ROOM - 1), reading))
      && (forall i :: 0 <= i < |fs| && ZoneAt(fs[i]) == Ambient ==> r.ambient == PatchedZone(m.ambient, ObjectFields(fs[i].value, ROOT_ROOM - 1), reading))
      && ((forall i :: 0 <= i < |fs| ==> ZoneAt(fs[i]) != Keys) ==> r.keys == m.keys)
      && ((forall i :: 0 <= i < |fs| ==> ZoneAt(fs[i]) != Ambient) ==> r.ambient == m.ambient)
    decreases |fs|
  {
    hide IsZoneObject, IsMemberOf, ZoneAt, PatchedZone, ObjectFields, IsObjectOf;
    if fs != [] {
      var n := |fs| - 1;
      assert forall i :: 0 <= i < n ==> fs[..n][i] == fs[i];
      ZonesMean(m, fs[..n], reading);
    }
  }

  /** Each agent is patched by the object that names it, and an agent that no object names stays as it was. */
  lemma {:induction false} AgentsMean(m: Model, vs: seq<Text>, reading: Reading)
    requires IsModel(m) && AreAgents(vs, reading)
    ensures var r := WithAgents(m, vs, reading);
      r.keys == m.keys && r.ambient == m.ambient
      && (forall i :: 0 <= i < |vs| ==>
            r.agents[AgentOf(vs[i], reading)] == Patched(m.agents[AgentOf(vs[i], reading)], ObjectFields(vs[i], ROOT_ROOM - 1), reading))
      && (forall id :: 0 <= id < AGENT_COUNT && (forall i :: 0 <= i < |vs| ==> AgentOf(vs[i], reading) != id) ==> r.agents[id] == m.agents[id])
    decreases |vs|
  {
    hide IsAgentObject, AgentOf, Patched, ObjectFields, IsObjectOf;
    if vs != [] {
      var n := |vs| - 1;
      assert forall i :: 0 <= i < n ==> vs[..n][i] == vs[i];
      AgentsMean(m, vs[..n], reading);
    }
  }
}
