/**
 The J1939 transport protocol as a machine over bus events (SAE J1939-21,
 section 5.10): what one received frame means, and what one step may do to the
 table of transfers in progress. The table is a finite map by (source,
 destination); the reassembler class refines it.
 */
module TransportProtocol {
  import opened Words
  import opened CanTypes
  import opened J1939

  const PGN_TP_CM: u32 := 0xEC00
  const PGN_TP_DT: u32 := 0xEB00
  const TP_BAM: u8 := 32
  const TP_RTS: u8 := 16
  const MAX_TRANSPORT := 1785
  const DT_PAYLOAD := 7
  const MAX_SESSIONS := 8
  const ORDER_WRAP := 0x1_0000_0000

  datatype Key = Key(source: u8, destination: u8)

  /** What an announce frame claims about the transfer it opens. */
  datatype Offer = Offer(size: u16, packets: u8, pgn: u32)
  {
    predicate Valid() {
      1 <= size <= MAX_TRANSPORT && packets == (size + DT_PAYLOAD - 1) / DT_PAYLOAD
    }
  }

  datatype Session = Session(source: u8, destination: u8, pgn: u32, size: u16, packets: u8,
                             received: u8, openedAt: u32, buffer: seq<u8>)
  {
    function Owner(): Key {
      Key(source, destination)
    }

    predicate WellFormed() {
      && 1 <= size <= MAX_TRANSPORT
      && packets == (size + DT_PAYLOAD - 1) / DT_PAYLOAD
      && received < packets
      && |buffer| == DT_PAYLOAD * received
    }
  }

  datatype Message = Message(pgn: u32, source: u8, destination: u8, data: seq<u8>)

  /** A frame as the protocol sees it; Other covers every frame it ignores. */
  datatype Event =
    | Other
    | Announce(key: Key, offer: Offer)
    | Data(key: Key, payload: seq<u8>)
  {
    predicate Of(k: Key) {
      !Other? && key == k
    }
  }

  function Classify(f: Frame): Event {
    if !f.id.Extended() then Other
    else
      var id := J1939Id(f.id);
      var key := Key(id.SourceAddress(), id.DestinationAddress());
      if id.Pgn() == PGN_TP_CM then
        if |f.data| >= MAX_CLASSIC_LENGTH && (f.data[0] == TP_BAM || f.data[0] == TP_RTS) then
          Announce(key, OfferOf(f.data))
        else Other
      else if id.Pgn() == PGN_TP_DT then Data(key, f.data)
      else Other
  }

  function OfferOf(data: seq<u8>): Offer
    requires |data| >= MAX_CLASSIC_LENGTH
  {
    Offer(LittleEndian16(data[1], data[2]), data[3], LittleEndian24(data[5], data[6], data[7]))
  }

  function Events(frames: seq<Frame>): (es: seq<Event>)
    ensures |es| == |frames|
  {
    seq(|frames|, i requires 0 <= i < |frames| => Classify(frames[i]))
  }

  /** The transfers in progress, and how many transfers were ever opened. */
  datatype State = State(live: map<Key, Session>, opens: nat)

  const INITIAL := State(map[], 0)

  function Opened(k: Key, offer: Offer, opens: nat): Session {
    Session(k.source, k.destination, offer.pgn, offer.size, offer.packets, 0, opens % ORDER_WRAP, [])
  }

  /** The session after one more packet: a sequence byte and seven data bytes. */
  function Grown(s: Session, payload: seq<u8>): Session
    requires |payload| >= MAX_CLASSIC_LENGTH
  {
    s.(received := (s.received + 1) % 0x100, buffer := s.buffer + payload[1..8])
  }

  function Cut(bytes: seq<u8>, size: nat): seq<u8> {
    if size <= |bytes| then bytes[..size] else bytes
  }

  function MessageFrom(s: Session): Message {
    Message(s.pgn, s.source, s.destination, Cut(s.buffer, s.size))
  }

  ghost predicate Oldest(live: map<Key, Session>, v: Key) {
    v in live && forall k :: k in live ==> live[v].openedAt <= live[k].openedAt
  }

  /** What one event may do: the next state, and the message it returns. */
  ghost predicate Next(s: State, e: Event, s': State, out: Option<Message>) {
    match e
    case Other => s' == s && out == None
    case Announce(k, offer) => out == None && NextAnnounce(s, k, offer, s')
    case Data(k, payload) => NextData(s, k, payload, s', out)
  }

  ghost predicate NextAnnounce(s: State, k: Key, offer: Offer, s': State) {
    var rest := s.live - {k};
    if !offer.Valid() then
      s' == State(rest, s.opens)
    else if |rest| < MAX_SESSIONS then
      s' == State(rest[k := Opened(k, offer, s.opens)], s.opens + 1)
    else
      exists v :: Oldest(rest, v) && s' == State((rest - {v})[k := Opened(k, offer, s.opens)], s.opens + 1)
  }

  ghost predicate NextData(s: State, k: Key, payload: seq<u8>, s': State, out: Option<Message>) {
    if k !in s.live then
      s' == s && out == None
    else if |payload| < MAX_CLASSIC_LENGTH || payload[0] != (s.live[k].received + 1) % 0x100 then
      s' == s.(live := s.live - {k}) && out == None
    else
      var grown := Grown(s.live[k], payload);
      if grown.received < grown.packets then
        s' == s.(live := s.live[k := grown]) && out == None
      else
        s' == s.(live := s.live - {k}) && out == Some(MessageFrom(grown))
  }

  /** A whole run from the empty table, one output per event. */
  ghost predicate IsRun(states: seq<State>, events: seq<Event>, outs: seq<Option<Message>>) {
    && |states| == |events| + 1
    && |outs| == |events|
    && states[0] == INITIAL
    && forall i :: 0 <= i < |events| ==> Next(states[i], events[i], states[i + 1], outs[i])
  }
}
