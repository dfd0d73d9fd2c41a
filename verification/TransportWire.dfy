/**
 Transport frames bit by bit: which received frames are announces and packets, what
 a broadcast looks like on the wire, and the round trip of a transfer to one address.
 */
module TransportWire {
  import opened Words
  import opened CanTypes
  import opened J1939
  import opened TransportProtocol
  import opened TransportRuns
  import opened TransportEviction
  import opened TransportBam
  import opened TransportInterleaving

  /** The extended identifier of a PDU1 group: priority, format, destination, source. */
  function WireId(priority: u8, format: u8, destination: u8, source: u8): CanId {
    CanId(0x8000_0000 + 0x400_0000 * (priority % 8) + 0x1_0000 * format + 0x100 * destination + source)
  }

  // ----- what a receiver takes a frame for

  /** Two or three bytes, the low one first. */
  function Low16(low: u8, high: u8): u16 {
    low as int + 0x100 * high as int
  }

  function Low24(low: u8, mid: u8, high: u8): u32 {
    low as int + 0x100 * mid as int + 0x1_0000 * high as int
  }

  /** The two page bits and the format, together. */
  lemma GroupOfRaw(id: CanId)
    requires id.raw >= 0x8000_0000
    ensures var j := J1939Id(id);
            && id.Extended()
            && (id.raw / 0x1_0000) % 0x400
               == 0x200 * j.ExtendedDataPage() + 0x100 * j.DataPage() + j.PduFormat()
            && j.PduSpecific() == (id.raw / 0x100) % 0x100 && j.SourceAddress() == id.raw % 0x100
  {
    var n := id.raw % 0x2000_0000;
    LowBitsOnly(id.raw / 0x2000_0000, n);
    GroupSplits(n / 0x1_0000);
    assert (n / 0x1_0000) / 0x100 == n / 0x100_0000 && (n / 0x1_0000) / 0x200 == n / 0x200_0000;
  }

  /** The bits above the 29th do not reach the group or the addresses. */
  lemma LowBitsOnly(q: nat, n: nat)
    requires n < 0x2000_0000
    ensures var raw := 0x2000_0000 * q + n;
            && (raw / 0x1_0000) % 0x400 == (n / 0x1_0000) % 0x400
            && (raw / 0x100) % 0x100 == (n / 0x100) % 0x100 && raw % 0x100 == n % 0x100
  {
    HighDividesOut(q, n, 0x1_0000, 0x2000);
    HighDropsOut(8 * q, n / 0x1_0000, 0x400);
    HighDividesOut(q, n, 0x100, 0x20_0000);
    HighDropsOut(0x2000 * q, n / 0x100, 0x100);
    HighDropsOut(0x20_0000 * q, n, 0x100);
  }

  lemma HighDividesOut(q: nat, n: nat, d: nat, c: nat)
    requires d > 0 && c > 0
    ensures (d * c * q + n) / d == c * q + n / d
  {
    var r := n % d;
    DivModSum(n, d);
    MulSwap(d, c, q, n / d);
    DivModUnique(d * c * q + n, d, c * q + n / d, r);
  }

  lemma MulSwap(d: nat, c: nat, q: nat, m: nat)
    ensures d * (c * q + m) == d * c * q + d * m
  {
  }

  lemma HighDropsOut(q: nat, n: nat, d: nat)
    requires d > 0
    ensures (d * q + n) % d == n % d
  {
    DivModSum(n, d);
    MulSwap(d, 1, q, n / d);
    DivModUnique(d * q + n, d, q + n / d, n % d);
  }

  lemma GroupSplits(a: nat)
    ensures a % 0x400 == 0x200 * ((a / 0x200) % 2) + 0x100 * ((a / 0x100) % 2) + a % 0x100
  {
    assert a / 0x200 == (a / 0x100) / 2;
  }

  lemma PgnOfRaw(id: CanId)
    requires id.raw >= 0x8000_0000
    ensures J1939Id(id).Pgn() == 0xEC00 <==> (id.raw / 0x1_0000) % 0x400 == 0xEC
    ensures J1939Id(id).Pgn() == 0xEB00 <==> (id.raw / 0x1_0000) % 0x400 == 0xEB
    ensures J1939Id(id).Pgn() == 0xEC00 || J1939Id(id).Pgn() == 0xEB00 ==>
              J1939Id(id).DestinationAddress() == (id.raw / 0x100) % 0x100
  {
    hide J1939Id.Pgn, J1939Id.ExtendedDataPage, J1939Id.DataPage, J1939Id.PduFormat, J1939Id.PduSpecific;
    GroupOfRaw(id);
    PgnIsSum(J1939Id(id));
  }

  /**
   Every frame, read off its bits. An extended frame of group 0xEC00 with at least
   eight bytes is an announce exactly when its first byte is 16 (RTS) or 32 (BAM); its
   size, packet count and PGN are bytes 1 and 2, byte 3 and bytes 5 to 7, low byte
   first. An extended frame of group 0xEB00 is a packet. Anything else is ignored.
   */
  lemma ClassifyExactly(f: Frame)
    ensures var raw, d := f.id.raw, f.data;
            var group, key := (raw / 0x1_0000) % 0x400, Key(raw % 0x100, (raw / 0x100) % 0x100);
            Classify(f)
            == if raw >= 0x8000_0000 && group == 0xEC && |d| >= 8 && (d[0] == 16 || d[0] == 32) then
                 Announce(key, Offer(Low16(d[1], d[2]), d[3], Low24(d[5], d[6], d[7])))
               else if raw >= 0x8000_0000 && group == 0xEB then Data(key, d)
               else Other
  {
    hide J1939Id.Pgn, J1939Id.DestinationAddress, J1939Id.SourceAddress, OfferOf;
    if f.id.raw >= 0x8000_0000 {
      GroupOfRaw(f.id);
      PgnOfRaw(f.id);
      if |f.data| >= 8 {
        OfferIsLittleEndian(f.data);
      }
    } else {
      assert !f.id.Extended();
    }
  }

  lemma OfferIsLittleEndian(d: seq<u8>)
    requires |d| >= 8
    ensures OfferOf(d) == Offer(Low16(d[1], d[2]), d[3], Low24(d[5], d[6], d[7]))
  {
    hide LittleEndian16, LittleEndian24, Low16, Low24;
    BytesInOrder(d[1], d[2], 0);
    BytesInOrder(d[5], d[6], d[7]);
  }

  lemma BytesInOrder(b0: u8, b1: u8, b2: u8)
    ensures LittleEndian16(b0, b1) == Low16(b0, b1)
    ensures LittleEndian24(b0, b1, b2) == Low24(b0, b1, b2)
  {
    hide LittleEndian16, LittleEndian24, Or, Shl, Pow2;
  }

  /** The receiver opens the transfer of an announce exactly when it has 1 to 1785 bytes in as many packets of 7. */
  lemma OpensExactlyWhen(offer: Offer)
    ensures offer.Valid()
            <==> 1 <= offer.size <= 1785 && 7 * (offer.packets - 1) < offer.size <= 7 * offer.packets
  {
  }

  // ----- what a broadcast looks like

  lemma MakeOnTheWire(priority: u8, format: u8, source: u8, destination: u8)
    requires format < 240
    ensures Make(priority, 0x100 * format, source, destination).id == WireId(priority, format, destination, source)
  {
    hide Make;
    MakeIsSum(priority, 0x100 * format, source, destination);
    var pgn := 0x100 * format;
    assert pgn / 0x100 == format && pgn / 0x1_0000 == 0 && pgn / 0x2_0000 == 0;
  }

  /**
   The frames of a broadcast, byte by byte: an announce with control byte 32, the size,
   the count, 0xFF and the PGN, low bytes first, then packets numbered from 1 holding
   seven bytes each, the last padded with 0xFF, all to the global address.
   */
  lemma BamOnTheWire(priority: u8, pgn: u32, source: u8, data: seq<u8>, i: nat)
    requires 1 <= |data| <= 1785 && i < (|data| + 6) / 7
    ensures var fs := BamFrames(priority, pgn, source, data);
            && |fs| == 1 + (|data| + 6) / 7
            && fs[0] == Frame(WireId(priority, 0xEC, 0xFF, source),
                              [32, |data| % 0x100, |data| / 0x100, (|data| + 6) / 7, 0xFF,
                               pgn % 0x100, (pgn / 0x100) % 0x100, (pgn / 0x1_0000) % 0x100])
            && var dt := fs[i + 1];
            && dt.id == WireId(priority, 0xEB, 0xFF, source)
            && |dt.data| == 8 && dt.data[0] == i + 1
            && forall j :: 1 <= j <= 7 ==>
                 dt.data[j] == if 7 * i + j <= |data| then data[7 * i + j - 1] else 0xFF
  {
    hide Make, BamFrames;
    BamFrameAt(priority, pgn, source, data, i);
    MakeOnTheWire(priority, 0xEC, source, 0xFF);
    MakeOnTheWire(priority, 0xEB, source, 0xFF);
    assert (|data| / 0x100) % 0x100 == |data| / 0x100;
  }

  // ----- a transfer to one address

  /** The frames of a transfer to one address: a request to send with control byte 16, then the packets. */
  function RtsFrames(priority: u8, pgn: u32, source: u8, destination: u8, limit: u8, data: seq<u8>): (fs: seq<Frame>)
    requires |data| <= 1785
    ensures |fs| == PacketCount(|data|) + 1
  {
    [Frame(WireId(priority, 0xEC, destination, source),
           [16, |data| % 0x100, |data| / 0x100, PacketCount(|data|), limit,
            pgn % 0x100, (pgn / 0x100) % 0x100, (pgn / 0x1_0000) % 0x100])]
    + seq(PacketCount(|data|), i requires 0 <= i < PacketCount(|data|) =>
            Frame(WireId(priority, 0xEB, destination, source), PacketBytes(data, i)))
  }

  lemma WireIdFields(priority: u8, format: u8, destination: u8, source: u8)
    ensures var raw := WireId(priority, format, destination, source).raw;
            && raw >= 0x8000_0000 && (raw / 0x1_0000) % 0x400 == format
            && raw % 0x100 == source && (raw / 0x100) % 0x100 == destination
  {
    var p := priority % 8;
    var raw := WireId(priority, format, destination, source).raw;
    assert raw / 0x100 == 0x80_0000 + 0x4_0000 * p + 0x100 * format + destination;
    assert raw / 0x1_0000 == 0x8000 + 0x400 * p + format;
  }

  lemma RtsIsClassified(priority: u8, pgn: u32, source: u8, destination: u8, limit: u8, data: seq<u8>)
    requires |data| <= 1785
    ensures Events(RtsFrames(priority, pgn, source, destination, limit, data))
            == TransferEvents(Key(source, destination), pgn, data)
  {
    hide WireId, Classify, PacketBytes;
    var frames := RtsFrames(priority, pgn, source, destination, limit, data);
    var events := TransferEvents(Key(source, destination), pgn, data);
    forall i | 0 <= i < |frames|
      ensures Classify(frames[i]) == events[i]
    {
      ClassifyExactly(frames[i]);
      WireIdFields(priority, if i == 0 then 0xEC else 0xEB, destination, source);
      if i == 0 {
        LowBytes(pgn);
      } else {
        assert frames[i] == Frame(WireId(priority, 0xEB, destination, source), PacketBytes(data, i - 1));
        assert events[i] == Data(Key(source, destination), Packets(data)[i - 1]);
      }
    }
  }

  /** Consecutive frames of a transfer to any address return nothing until the last, and then the payload. */
  lemma AddressedRoundTrip(states: seq<State>, frames: seq<Frame>, outs: seq<Option<Message>>, start: nat,
                           priority: u8, pgn: u32, source: u8, destination: u8, limit: u8, data: seq<u8>, c: nat)
    requires 1 <= |data| <= 1785 && c <= PacketCount(|data|)
    requires IsRun(states, Events(frames), outs)
    requires start + PacketCount(|data|) < |frames|
    ensures frames[start..start + PacketCount(|data|) + 1]
            == RtsFrames(priority, pgn, source, destination, limit, data) ==>
              outs[start + c] == if c < PacketCount(|data|) then None
                                 else Some(Message(pgn % 0x100_0000, source, destination, data))
  {
    hide Next, Classify, RtsFrames;
    var rts, events := RtsFrames(priority, pgn, source, destination, limit, data), Events(frames);
    if frames[start..start + PacketCount(|data|) + 1] == rts {
      RtsIsClassified(priority, pgn, source, destination, limit, data);
      forall i | 0 <= i < |rts|
        ensures events[start + i] == Events(rts)[i]
      {
        assert frames[start + i] == rts[i];
      }
      ConsecutiveTransfer(states, events, outs, start, Key(source, destination), pgn, data, c);
    }
  }

  /**
   The same with any other frames in between: whenever the frames of the key so far end
   in those of the transfer, the last one returns the payload and none before it does,
   as long as fewer than eight other keys made a valid announce meanwhile and at most
   2^32 transfers were opened in all.
   */
  lemma AddressedDelivery(states: seq<State>, frames: seq<Frame>, outs: seq<Option<Message>>, n: nat,
                          before: seq<Frame>, priority: u8, pgn: u32, source: u8, destination: u8, limit: u8,
                          data: seq<u8>, c: nat)
    requires 1 <= |data| <= 1785 && c <= PacketCount(|data|)
    requires IsRun(states, Events(frames), outs) && n < |frames|
    requires Classify(frames[n]).Of(Key(source, destination))
    requires Own(frames[..n + 1], Key(source, destination))
             == before + RtsFrames(priority, pgn, source, destination, limit, data)[..c + 1]
    requires Opens(Events(frames)[..n]) <= 0x1_0000_0000
    requires |Rivals(Events(frames)[..n], Key(source, destination))| < 8
    ensures outs[n] == if c < PacketCount(|data|) then None
                       else Some(Message(pgn % 0x100_0000, source, destination, data))
  {
    hide IsRun, Classify, RtsFrames, Own, Due, Pending, Opens, Rivals;
    var k, upTo := Key(source, destination), frames[..n + 1];
    var rts := RtsFrames(priority, pgn, source, destination, limit, data);
    DeliveredByHistory(states, Events(frames), outs, n);
    assert Events(frames)[..n + 1] == Events(upTo);
    PendingSeesOwnOnly(upTo, k);
    SameDue(upTo, before + rts[..c + 1], k);
    RtsIsClassified(priority, pgn, source, destination, limit, data);
    assert Events(before + rts[..c + 1]) == Events(before) + Events(rts)[..c + 1];
    DueInTransfer(Events(before), k, pgn, data, c);
  }

  /** What is due at a frame of k is due from the frames of k alone. */
  lemma SameDue(frames: seq<Frame>, own: seq<Frame>, k: Key)
    requires frames != [] && Classify(frames[|frames| - 1]).Of(k) && Own(frames, k) == own
    ensures Due(Events(frames)) == Due(Events(own))
  {
    hide Classify, Pending;
    PendingSeesOwnOnly(frames, k);
    assert own[|own| - 1] == frames[|frames| - 1];
  }
}
