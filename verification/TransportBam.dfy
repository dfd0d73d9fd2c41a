/** Splitting a payload into BAM frames, and getting it back out of any run. */
module TransportBam {
  import opened Words
  import opened CanTypes
  import opened J1939
  import opened TransportProtocol
  import opened TransportRuns

  function PacketCount(size: nat): nat {
    (size + DT_PAYLOAD - 1) / DT_PAYLOAD
  }

  function AnnounceBytes(pgn: u32, size: nat): seq<u8>
    requires size <= MAX_TRANSPORT
  {
    [TP_BAM, size % 0x100, (size / 0x100) % 0x100, PacketCount(size), 0xFF,
     pgn % 0x100, (pgn / 0x100) % 0x100, (pgn / 0x1_0000) % 0x100]
  }

  /** Packet number packet + 1: seven payload bytes, padded with 0xFF at the end. */
  function PacketBytes(data: seq<u8>, packet: nat): (bytes: seq<u8>)
    requires packet < 0xFF
    ensures |bytes| == 8
  {
    seq(8, i requires 0 <= i < 8 => PacketByte(data, packet, i))
  }

  function PacketByte(data: seq<u8>, packet: nat, i: nat): u8
    requires packet < 0xFF
  {
    if i == 0 then packet + 1 else Padded(data, packet * DT_PAYLOAD + i - 1)
  }

  function Padded(data: seq<u8>, index: nat): u8 {
    if index < |data| then data[index] else 0xFF
  }

  /** The frames that broadcast data: one announce, then the packets in order. */
  function BamFrames(priority: u8, pgn: u32, source: u8, data: seq<u8>): (fs: seq<Frame>)
    requires |data| <= MAX_TRANSPORT
    ensures |fs| == PacketCount(|data|) + 1
  {
    [Frame(Make(priority, PGN_TP_CM, source, GLOBAL_ADDRESS).id, AnnounceBytes(pgn, |data|))]
    + seq(PacketCount(|data|), i requires 0 <= i < PacketCount(|data|) =>
            Frame(Make(priority, PGN_TP_DT, source, GLOBAL_ADDRESS).id, PacketBytes(data, i)))
  }

  lemma BamFrameAt(priority: u8, pgn: u32, source: u8, data: seq<u8>, packet: nat)
    requires |data| <= MAX_TRANSPORT && packet <= PacketCount(|data|)
    ensures var all := BamFrames(priority, pgn, source, data);
            && all[0] == Frame(Make(priority, PGN_TP_CM, source, GLOBAL_ADDRESS).id, AnnounceBytes(pgn, |data|))
            && (packet < PacketCount(|data|) ==>
                  all[packet + 1]
                  == Frame(Make(priority, PGN_TP_DT, source, GLOBAL_ADDRESS).id, PacketBytes(data, packet)))
  {
    hide Make;
  }

  method SegmentBam(priority: u8, pgn: u32, source: u8, data: seq<u8>) returns (r: Result<seq<Frame>>)
    requires data != []
    ensures |data| > 1785 ==> r == Err(PayloadTooLarge)
    ensures |data| <= 1785 ==> r == Ok(BamFrames(priority, pgn, source, data))
  {
    hide Make, BamFrames;
    if |data| > MAX_TRANSPORT {
      return Err(PayloadTooLarge);
    }
    var packets: u8 := (|data| + DT_PAYLOAD - 1) / DT_PAYLOAD;
    var cm := FillAnnounce(pgn, |data|, packets);
    var cmId := Make(priority, PGN_TP_CM, source, GLOBAL_ADDRESS).id;
    BamFrameAt(priority, pgn, source, data, 0);
    var frames := [ClassicFrame(cmId, cm[..]).value];
    var dtId := Make(priority, PGN_TP_DT, source, GLOBAL_ADDRESS).id;
    for packet := 0 to packets
      invariant frames == BamFrames(priority, pgn, source, data)[..packet + 1]
    {
      var dt := FillPacket(data, packet);
      BamFrameAt(priority, pgn, source, data, packet);
      frames := frames + [ClassicFrame(dtId, dt[..]).value];
    }
    assert frames == BamFrames(priority, pgn, source, data);
    return Ok(frames);
  }

  method FillAnnounce(pgn: u32, size: nat, packets: u8) returns (cm: array<u8>)
    requires size <= MAX_TRANSPORT && packets == PacketCount(size)
    ensures fresh(cm) && cm[..] == AnnounceBytes(pgn, size)
  {
    cm := new u8[MAX_CLASSIC_LENGTH](_ => 0);
    cm[0], cm[1], cm[2], cm[3] := TP_BAM, size % 0x100, (size / 0x100) % 0x100, packets;
    cm[4], cm[5], cm[6], cm[7] := 0xFF, pgn % 0x100, (pgn / 0x100) % 0x100, (pgn / 0x1_0000) % 0x100;
  }

  method FillPacket(data: seq<u8>, packet: nat) returns (dt: array<u8>)
    requires packet < 0xFF
    ensures fresh(dt) && dt[..] == PacketBytes(data, packet)
  {
    dt := new u8[MAX_CLASSIC_LENGTH](_ => 0);
    dt[0] := packet + 1;
    for i := 0 to DT_PAYLOAD
      invariant forall j :: 0 <= j <= i ==> dt[j] == PacketByte(data, packet, j)
    {
      var index := packet * DT_PAYLOAD + i;
      dt[i + 1] := if index < |data| then data[index] else 0xFF;
    }
  }

  // ----- what the frames mean to a receiver

  function Sender(source: u8): Key {
    Key(source, GLOBAL_ADDRESS)
  }

  function OfferFor(pgn: u32, size: nat): Offer
    requires size <= MAX_TRANSPORT
  {
    Offer(size, PacketCount(size), pgn % 0x100_0000)
  }

  function Packets(data: seq<u8>): (ps: seq<seq<u8>>)
    requires |data| <= MAX_TRANSPORT
    ensures |ps| == PacketCount(|data|)
  {
    seq(PacketCount(|data|), i requires 0 <= i < PacketCount(|data|) => PacketBytes(data, i))
  }

  /** The events of one whole transfer of key k: its announce, then its packets. */
  function TransferEvents(k: Key, pgn: u32, data: seq<u8>): (es: seq<Event>)
    requires |data| <= MAX_TRANSPORT
    ensures |es| == PacketCount(|data|) + 1
  {
    [Announce(k, OfferFor(pgn, |data|))]
    + seq(PacketCount(|data|), i requires 0 <= i < PacketCount(|data|) => Data(k, Packets(data)[i]))
  }

  function BamEvents(pgn: u32, source: u8, data: seq<u8>): (es: seq<Event>)
    requires |data| <= MAX_TRANSPORT
    ensures |es| == PacketCount(|data|) + 1
  {
    TransferEvents(Sender(source), pgn, data)
  }

  lemma ClassifyMade(priority: u8, source: u8, bytes: seq<u8>)
    requires |bytes| == 8
    ensures bytes[0] == TP_BAM ==>
              Classify(Frame(Make(priority, PGN_TP_CM, source, GLOBAL_ADDRESS).id, bytes))
              == Announce(Sender(source), OfferOf(bytes))
    ensures Classify(Frame(Make(priority, PGN_TP_DT, source, GLOBAL_ADDRESS).id, bytes)) == Data(Sender(source), bytes)
  {
    hide Make, J1939Id.Pgn, OfferOf;
    MadeFields(priority, PGN_TP_CM, source, GLOBAL_ADDRESS);
    MadeFields(priority, PGN_TP_DT, source, GLOBAL_ADDRESS);
  }

  lemma OfferSurvives(pgn: u32, size: nat)
    requires size <= MAX_TRANSPORT
    ensures OfferOf(AnnounceBytes(pgn, size)) == OfferFor(pgn, size)
  {
    hide LittleEndian16, LittleEndian24;
    assert (size / 0x100) % 0x100 == size / 0x100;
    LowBytes(pgn);
  }

  lemma LowBytes(n: nat)
    ensures n % 0x100_0000 == n % 0x100 + 0x100 * ((n / 0x100) % 0x100) + 0x1_0000 * ((n / 0x1_0000) % 0x100)
  {
    var a := n / 0x100;
    var b := a / 0x100;
    var c := b / 0x100;
    assert b == n / 0x1_0000 && c == n / 0x100_0000;
  }

  lemma BamIsClassified(priority: u8, pgn: u32, source: u8, data: seq<u8>)
    requires |data| <= MAX_TRANSPORT
    ensures Events(BamFrames(priority, pgn, source, data)) == BamEvents(pgn, source, data)
  {
    hide Make, Classify, OfferOf;
    var frames, events := BamFrames(priority, pgn, source, data), BamEvents(pgn, source, data);
    ClassifyMade(priority, source, AnnounceBytes(pgn, |data|));
    OfferSurvives(pgn, |data|);
    forall i | 0 <= i < |frames|
      ensures Classify(frames[i]) == events[i]
    {
      if i > 0 {
        ClassifyMade(priority, source, PacketBytes(data, i - 1));
        assert frames[i] == Frame(Make(priority, PGN_TP_DT, source, GLOBAL_ADDRESS).id, PacketBytes(data, i - 1));
        assert events[i] == Data(Sender(source), Packets(data)[i - 1]);
      }
    }
  }

  /** After the announce and c packets of a transfer, that is what is pending. */
  lemma {:induction false} PendingInTransfer(before: seq<Event>, k: Key, pgn: u32, data: seq<u8>, c: nat)
    requires |data| <= MAX_TRANSPORT && c <= PacketCount(|data|)
    ensures Pending(before + TransferEvents(k, pgn, data)[..c + 1], k)
            == Some(Transfer(OfferFor(pgn, |data|), Packets(data)[..c]))
  {
    var events := before + TransferEvents(k, pgn, data)[..c + 1];
    if c == 0 {
      assert events[|events| - 1] == Announce(k, OfferFor(pgn, |data|));
    } else {
      PendingInTransfer(before, k, pgn, data, c - 1);
      assert events[..|events| - 1] == before + TransferEvents(k, pgn, data)[..c];
      assert events[|events| - 1] == Data(k, Packets(data)[c - 1]);
      assert Packets(data)[..c - 1] + [Packets(data)[c - 1]] == Packets(data)[..c];
    }
  }

  lemma {:induction false} JoinedPackets(data: seq<u8>, c: nat)
    requires |data| <= MAX_TRANSPORT && c <= PacketCount(|data|)
    ensures InOrder(Packets(data)[..c])
    ensures forall i :: 0 <= i < DT_PAYLOAD * c ==> Joined(Packets(data)[..c])[i] == Padded(data, i)
  {
    if c > 0 {
      var ps := Packets(data)[..c];
      JoinedPackets(data, c - 1);
      assert ps[..c - 1] == Packets(data)[..c - 1];
      assert ps == Packets(data)[..c - 1] + [Packets(data)[c - 1]];
      GrowInOrder(Packets(data)[..c - 1], Packets(data)[c - 1]);
      forall i | 0 <= i < DT_PAYLOAD * c
        ensures Joined(ps)[i] == Padded(data, i)
      {
        if i >= DT_PAYLOAD * (c - 1) {
          var j := i - DT_PAYLOAD * (c - 1);
          assert Joined(ps)[i] == Packets(data)[c - 1][1..8][j];
        }
      }
    }
  }

  /** The message a receiver should build from a transfer; only 24 bits of the PGN travel. */
  function TransferMessage(k: Key, pgn: u32, data: seq<u8>): Message {
    Message(pgn % 0x100_0000, k.source, k.destination, data)
  }

  function BamMessage(pgn: u32, source: u8, data: seq<u8>): Message {
    TransferMessage(Sender(source), pgn, data)
  }

  /** A transfer makes its message due at its last frame and at no other. */
  lemma DueInTransfer(before: seq<Event>, k: Key, pgn: u32, data: seq<u8>, c: nat)
    requires 1 <= |data| <= 1785 && c <= PacketCount(|data|)
    ensures Due(before + TransferEvents(k, pgn, data)[..c + 1])
            == if c == PacketCount(|data|) then Some(TransferMessage(k, pgn, data)) else None
  {
    hide Pending, Joined;
    var events := before + TransferEvents(k, pgn, data)[..c + 1];
    assert events[|events| - 1] == TransferEvents(k, pgn, data)[c];
    PendingInTransfer(before, k, pgn, data, c);
    JoinedPackets(data, c);
    if c == PacketCount(|data|) {
      assert Packets(data)[..c] == Packets(data);
      assert Joined(Packets(data))[..|data|] == data;
    }
  }

  /** A broadcast is such a transfer. */
  lemma DueInBam(before: seq<Event>, pgn: u32, source: u8, data: seq<u8>, c: nat)
    requires 1 <= |data| <= 1785 && c <= PacketCount(|data|)
    ensures Due(before + BamEvents(pgn, source, data)[..c + 1])
            == if c == PacketCount(|data|) then Some(BamMessage(pgn, source, data)) else None
  {
    DueInTransfer(before, Sender(source), pgn, data, c);
  }

  /** Consecutive frames of one key leave nobody a chance to evict it. */
  lemma {:induction false} NotEvictedMeanwhile(states: seq<State>, events: seq<Event>, start: nat, k: Key, pgn: u32,
                                               data: seq<u8>, c: nat)
    requires |data| <= MAX_TRANSPORT && c <= PacketCount(|data|)
    requires start + PacketCount(|data|) < |events| < |states|
    requires forall i :: 0 <= i <= PacketCount(|data|) ==> events[start + i] == TransferEvents(k, pgn, data)[i]
    ensures c > 0 ==> !EvictedSince(states, events, start + c, k)
  {
    if c > 0 {
      NotEvictedMeanwhile(states, events, start, k, pgn, data, c - 1);
      assert events[start + c - 1] == events[start + (c - 1)] == TransferEvents(k, pgn, data)[c - 1];
    }
  }

  /** Wherever in a run the events of a transfer come one after the other, the last one returns it. */
  lemma ConsecutiveTransfer(states: seq<State>, events: seq<Event>, outs: seq<Option<Message>>, start: nat, k: Key,
                            pgn: u32, data: seq<u8>, c: nat)
    requires 1 <= |data| <= 1785 && c <= PacketCount(|data|)
    requires IsRun(states, events, outs) && start + PacketCount(|data|) < |events|
    requires forall i :: 0 <= i <= PacketCount(|data|) ==> events[start + i] == TransferEvents(k, pgn, data)[i]
    ensures outs[start + c] == if c == PacketCount(|data|) then Some(TransferMessage(k, pgn, data)) else None
  {
    hide Next, Due, EvictedSince;
    var all := TransferEvents(k, pgn, data);
    DeliveredExactly(states, events, outs, start + c);
    DueInTransfer(events[..start], k, pgn, data, c);
    assert events[..start + c + 1] == events[..start] + all[..c + 1];
    NotEvictedMeanwhile(states, events, start, k, pgn, data, c);
    assert events[start + c] == all[c];
  }

  /**
   Segment, then reassemble. Wherever in a run the frames of a broadcast come one
   after the other, whatever came before and whatever comes after, nothing is
   returned until the last of them, and that one returns exactly the payload.
   */
  lemma SegmentThenReassemble(states: seq<State>, frames: seq<Frame>, outs: seq<Option<Message>>, start: nat,
                              priority: u8, pgn: u32, source: u8, data: seq<u8>, c: nat)
    requires 1 <= |data| <= 1785 && c <= PacketCount(|data|)
    requires IsRun(states, Events(frames), outs)
    requires start + PacketCount(|data|) < |frames|
    ensures frames[start..start + PacketCount(|data|) + 1] == BamFrames(priority, pgn, source, data) ==>
              outs[start + c] == if c == PacketCount(|data|) then Some(BamMessage(pgn, source, data)) else None
  {
    hide Next, Classify, Make, BamFrames;
    var bam, events := BamEvents(pgn, source, data), Events(frames);
    if frames[start..start + PacketCount(|data|) + 1] == BamFrames(priority, pgn, source, data) {
      BamIsClassified(priority, pgn, source, data);
      forall i | 0 <= i < |bam|
        ensures events[start + i] == bam[i]
      {
        assert frames[start + i] == BamFrames(priority, pgn, source, data)[i];
        assert bam[i] == Events(BamFrames(priority, pgn, source, data))[i];
      }
      ConsecutiveTransfer(states, events, outs, start, Sender(source), pgn, data, c);
    }
  }
}
