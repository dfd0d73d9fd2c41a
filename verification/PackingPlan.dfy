/** The packing plan object: nine chunk slots filled once, then two loops over them. */
module PackingPlan {
  import opened Words
  import opened Packing
  import opened PackingLayout
  import opened PackingLaws

  class PackingPlan {
    const chunks: array<PlanChunk>
    var count: nat
    var bitLength: u8
    var isSigned: bool
    var requiredLength: u16
    ghost const layout: Layout

    ghost predicate Building()
      reads this, chunks
    {
      && chunks.Length == MAX_CHUNKS
      && count <= MAX_CHUNKS
      && requiredLength == Reach(chunks[..count])
    }

    /** The plan holds the compiled chunks of its layout, and their reach. */
    ghost predicate Valid()
      reads this, chunks
    {
      && Building()
      && layout.Valid()
      && bitLength == layout.length
      && chunks[..count] == Chunks(layout)
    }

    method PushChunk(byte: nat, lsb: nat, take: nat, dest: nat)
      requires Building() && count < MAX_CHUNKS
      requires byte < 0xFFFF && lsb < 8 && take <= 8 && dest < 64
      modifies this`count, this`requiredLength, chunks
      ensures Building() && count == old(count) + 1
      ensures chunks[..count] == old(chunks[..count]) + [MaskedChunk(byte, lsb, take, dest)]
    {
      chunks[count] := MaskedChunk(byte, lsb, take, dest);
      count := count + 1;
      assert chunks[..count][..count - 1] == old(chunks[..count]);
      var reach: u16 := byte + 1;
      if reach > requiredLength {
        requiredLength := reach;
      }
    }

    method BuildLittleEndian(startBit: u16)
      requires Building() && count == 0 && layout.Valid() && bitLength == layout.length
      requires layout.startBit == startBit && layout.order == LittleEndian
      modifies this`count, this`requiredLength, chunks
      ensures Valid()
    {
      hide Chunks, LittleEndianChunks, MaskedChunk, Reach;
      AtMostNineChunks(layout);
      LittleEndianStart(layout);
      var remaining: u8 := bitLength;
      var global: u32 := startBit;
      var dest: u8 := 0;
      while remaining != 0
        invariant Building() && bitLength == layout.length
        invariant dest + remaining == bitLength && global == startBit + dest
        invariant chunks[..count] + LittleEndianChunks(global, remaining, dest) == Chunks(layout)
        decreases remaining
      {
        var byte: u16 := global / 8;
        var lsb: u8 := global % 8;
        var take: u8 := Min(8 - lsb, remaining);
        ghost var rest := LittleEndianNext(global, remaining, dest);
        assert |chunks[..count]| + 1 + |rest| == |Chunks(layout)|;
        PushChunk(byte, lsb, take, dest);
        dest := dest + take;
        global := global + take;
        remaining := remaining - take;
      }
      LittleEndianDone(global, dest);
    }

    method BuildBigEndian(startBit: u16)
      requires Building() && count == 0 && layout.Valid() && bitLength == layout.length
      requires layout.startBit == startBit && layout.order == BigEndian
      modifies this`count, this`requiredLength, chunks
      ensures Valid()
    {
      hide Chunks, BigEndianChunks, MaskedChunk, Reach;
      AtMostNineChunks(layout);
      BigEndianStart(layout);
      var remaining: u8 := bitLength;
      var byte: u16 := startBit / 8;
      var msb: u8 := startBit % 8;
      while remaining != 0
        invariant Building() && bitLength == layout.length
        invariant msb < 8 && remaining <= 64 && byte + remaining <= startBit / 8 + 64
        invariant chunks[..count] + BigEndianChunks(byte, msb, remaining) == Chunks(layout)
        decreases remaining
      {
        var take: u8 := Min(msb + 1, remaining);
        var lsb: u8 := msb + 1 - take;
        var dest: u8 := remaining - take;
        ghost var rest := BigEndianNext(byte, msb, remaining);
        assert |chunks[..count]| + 1 + |rest| == |Chunks(layout)|;
        PushChunk(byte, lsb, take, dest);
        remaining := remaining - take;
        byte := byte + 1;
        msb := 7;
      }
      BigEndianDone(byte, msb);
    }

    constructor (startBit: u16, length: u16, order: ByteOrder, signed: bool)
      requires 1 <= length <= 64
      ensures Valid() && layout == Layout(startBit, length, order) && isSigned == signed
      ensures fresh(chunks)
    {
      chunks := new PlanChunk[MAX_CHUNKS];
      count, requiredLength := 0, 0;
      bitLength, isSigned := length, signed;
      layout := Layout(startBit, length, order);
      new;
      if order == LittleEndian {
        BuildLittleEndian(startBit);
      } else {
        BuildBigEndian(startBit);
      }
    }

    /** Gathers the chunks; the result is the field's bits, zero-extended. */
    method Extract(payload: seq<u8>) returns (value: u64)
      requires Valid() && requiredLength <= |payload|
      ensures forall k :: 0 <= k < layout.length ==> Bit(value, k) == PayloadBit(payload, Position(layout, k))
      ensures forall k :: layout.length <= k ==> !Bit(value, k)
      ensures value == PackingLaws.Extract(layout, payload)
    {
      ghost var cs := Chunks(layout);
      value := 0;
      ReachGrows(cs, 0);
      for i := 0 to count
        invariant Reach(cs[..i]) <= |payload| && value == Gather(cs[..i], payload)
      {
        var c := chunks[i];
        assert cs[i] == c && cs[..i + 1][..i] == cs[..i];
        ReachGrows(cs, i + 1);
        GatherFits(layout, i + 1, payload);
        var source := payload[c.byte];
        var bits := And(Shr(source, c.lsbInByte), c.mask);
        value := Or(value, Shl(bits, c.destShift));
      }
      assert cs[..count] == cs;
      ExtractIsLayout(layout, payload);
    }

    /** Scatters the chunks of raw into the payload, in place. */
    method Insert(payload: array<u8>, raw: u64)
      requires Valid() && requiredLength <= payload.Length
      modifies payload
      ensures Valid()
      ensures forall k :: 0 <= k < layout.length ==> PayloadBit(payload[..], Position(layout, k)) == Bit(raw, k)
      ensures forall q: nat :: q !in FieldBits(layout) ==> PayloadBit(payload[..], q) == old(PayloadBit(payload[..], q))
      ensures payload[..] == PackingLaws.Insert(layout, old(payload[..]), raw)
    {
      hide Bit, Position, FieldBits, PayloadBit, Chunks, Scatter, Reach;
      ghost var cs, before := Chunks(layout), payload[..];
      ScatterNone(before, raw);
      for i := 0 to count
        invariant Valid() && chunks[..count] == cs
        invariant Reach(cs[..i]) <= |before| && payload[..] == Scatter(cs[..i], before, raw)
      {
        var c := chunks[i];
        ScatterNext(cs, i, before, raw);
        var piece := And(Shr(raw, c.destShift) % 0x1_0000_0000, c.mask);
        var clear := Complement32(Shl(c.mask, c.lsbInByte) % 0x1_0000_0000);
        var updated := Or(And(payload[c.byte], clear), Shl(piece, c.lsbInByte) % 0x1_0000_0000);
        assert updated % 0x100 == InsertByte(payload[c.byte], c, raw);
        payload[c.byte] := updated % 0x100;
      }
      assert cs[..count] == cs;
      InsertIsLayout(layout, before, raw);
    }
  }

  lemma ScatterNone(before: seq<u8>, raw: u64)
    ensures Reach([]) == 0 && Scatter([], before, raw) == before
  {
  }

  /** One more chunk written. */
  lemma ScatterNext(cs: seq<PlanChunk>, i: nat, before: seq<u8>, raw: u64)
    requires i < |cs| && Reach(cs) <= |before| && Reach(cs[..i]) <= |before|
    ensures Reach(cs[..i + 1]) <= |before| && cs[i].byte < |before|
    ensures var done := Scatter(cs[..i], before, raw);
            Scatter(cs[..i + 1], before, raw) == done[cs[i].byte := InsertByte(done[cs[i].byte], cs[i], raw)]
  {
    hide InsertByte;
    assert cs[..i + 1][..i] == cs[..i];
    ReachGrows(cs, i + 1);
  }

  // ----- one step of each builder

  lemma LittleEndianStart(l: Layout)
    requires l.Valid() && l.order == LittleEndian
    ensures Chunks(l) == LittleEndianChunks(l.startBit, l.length, 0)
  {
  }

  lemma LittleEndianNext(global: nat, remaining: nat, dest: nat) returns (rest: seq<PlanChunk>)
    requires remaining > 0 && dest + remaining <= 64 && global + remaining < 0x8_0000
    ensures var take := Min(8 - global % 8, remaining);
            && rest == LittleEndianChunks(global + take, remaining - take, dest + take)
            && LittleEndianChunks(global, remaining, dest) == [MaskedChunk(global / 8, global % 8, take, dest)] + rest
  {
    hide MaskedChunk;
    var take := Min(8 - global % 8, remaining);
    rest := LittleEndianChunks(global + take, remaining - take, dest + take);
  }

  lemma LittleEndianDone(global: nat, dest: nat)
    requires dest <= 64 && global < 0x8_0000
    ensures LittleEndianChunks(global, 0, dest) == []
  {
  }

  lemma BigEndianStart(l: Layout)
    requires l.Valid() && l.order == BigEndian
    ensures Chunks(l) == BigEndianChunks(l.startBit / 8, l.startBit % 8, l.length)
  {
  }

  lemma BigEndianNext(byte: nat, msb: nat, remaining: nat) returns (rest: seq<PlanChunk>)
    requires msb < 8 && 0 < remaining <= 64 && byte + remaining < 0x1_0000
    ensures var take := Min(msb + 1, remaining);
            && rest == BigEndianChunks(byte + 1, 7, remaining - take)
            && BigEndianChunks(byte, msb, remaining)
               == [MaskedChunk(byte, msb + 1 - take, take, remaining - take)] + rest
  {
    hide MaskedChunk;
    var take := Min(msb + 1, remaining);
    rest := BigEndianChunks(byte + 1, 7, remaining - take);
  }

  lemma BigEndianDone(byte: nat, msb: nat)
    requires msb < 8 && byte < 0x1_0000
    ensures BigEndianChunks(byte, msb, 0) == []
  {
  }

  /** A prefix of a chunk list reaches no further than the list. */
  lemma {:induction false} ReachGrows(chunks: seq<PlanChunk>, i: nat)
    requires i <= |chunks|
    ensures Reach(chunks[..i]) <= Reach(chunks)
    decreases |chunks|
  {
    if i < |chunks| {
      var init := chunks[..|chunks| - 1];
      ReachGrows(init, i);
      assert init[..i] == chunks[..i];
    } else {
      assert chunks[..i] == chunks;
    }
  }

  /** The value gathered so far always fits 64 bits. */
  lemma GatherFits(l: Layout, i: nat, payload: seq<u8>)
    requires l.Valid() && i <= |Chunks(l)| && Reach(Chunks(l)[..i]) <= |payload|
    ensures Gather(Chunks(l)[..i], payload) < 0x1_0000_0000_0000_0000
  {
    hide Bit, Chunks, Gather;
    var cs := Chunks(l)[..i];
    ChunksFollow(l);
    assert forall j :: 0 <= j < i ==> cs[j] in Chunks(l);
    forall k: nat | 64 <= k
      ensures !Bit(Gather(cs, payload), k)
    {
      GatherBit(cs, payload, k);
    }
    BoundFromBits(Gather(cs, payload), 64);
    Pow2Values();
  }
}
