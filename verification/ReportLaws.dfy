/** What one report does to a transport, decided by its octets and its generation. */
module ReportLaws {
  import opened Bytes
  import opened ChannelSpec
  import opened ChannelRuns
  import opened FramingSpec

  /** How far a generation is ahead, in the arithmetic of 32 bits. */
  function Ahead(incoming: u32, known: u32): u32 {
    (incoming - known) % 0x1_0000_0000
  }

  /** The transport that a report of some generation finds; none, if the generation is an older one. */
  function Found(t: Transport, incoming: u32): Option<Transport> {
    if t.generationValid && incoming == t.generation then Some(t)
    else if t.generationValid && Ahead(incoming, t.generation) >= 0x8000_0000 then None
    else Some(Transport(IDLE, IDLE, incoming, true))
  }

  lemma GenerationDecided(t: Transport, incoming: u32)
    ensures AcceptGeneration(t, incoming)
      == match Found(t, incoming) case None => (t, Stale) case Some(found) => (found, Ok)
  {
  }

  /** The length is too large, or some octet behind the fragment is not zero. */
  predicate Malformed(payload: Payload) {
    payload[1] > 61 || exists i :: 2 + payload[1] <= i < 63 && payload[i] != 0
  }

  predicate IsChannelCode(code: byte) { code == 0x01 || code == 0x02 }

  function Other(id: ChannelId): ChannelId {
    if id == Debug then Rpc else Debug
  }

  /**
   * The whole decision about one report. An older generation changes nothing, and neither does an unknown
   * channel, but for the generation. A malformed report empties its channel. Any other one is a fragment
   * for its channel. The other channel keeps what it holds.
   */
  lemma ReportDecided(t: Transport, payload: Payload, generation: u32)
    requires TransportInv(t)
    ensures var r, found := IngestReport(t, payload, generation), Found(t, generation);
      match found
      case None => r == Received(t, None, Stale)
      case Some(f) =>
        if !IsChannelCode(payload[0]) then r == Received(f, None, InvalidInput)
        else
          var id := if payload[0] == 0x01 then Debug else Rpc;
          Inv(Get(f, id)) && Get(r.transport, Other(id)) == Get(f, Other(id))
          && r.transport.generation == f.generation && r.transport.generationValid
          && if Malformed(payload) then Get(r.transport, id) == IDLE && r.delivered.None? && r.status == InvalidInput
             else
               var step := Next(Get(f, id), payload[2..2 + payload[1]]);
               Get(r.transport, id) == step.channel && r.status == step.status
               && r.delivered == match step.delivered case None => None case Some(text) => Some((id, text))
  {
    hide Next, Inv;
    GenerationDecided(t, generation);
    IdleIsSound();
    if payload[1] <= FRAGMENT_MAX && !PaddingIsZero(payload, payload[1]) {
      assert Malformed(payload);
    }
  }
}
