/** The compiled chunks refine the documented bit layout, for reading and for writing. */
module PackingLayout {
  import opened Words
  import opened Packing

  // ----- the sawtooth in closed form

  /** Bit numbers with each byte read from bit 7 down; its own inverse. */
  function Mirror(q: nat): nat {
    8 * (q / 8) + 7 - q % 8
  }

  lemma MirrorInverse(q: nat)
    ensures Mirror(Mirror(q)) == q
  {
  }

  /** Walking the sawtooth is counting up in mirrored bit numbers. */
  lemma {:induction false} SawtoothIsMirrored(start: nat, steps: nat)
    ensures Sawtooth(start, steps) == Mirror(Mirror(start) + steps)
  {
    if steps > 0 {
      SawtoothIsMirrored(start, steps - 1);
      MirrorStep(Mirror(start) + steps - 1);
    } else {
      MirrorInverse(start);
    }
  }

  lemma MirrorStep(q: nat)
    ensures Mirror(q + 1) == SawtoothStep(Mirror(q))
  {
    var a, b := q / 8, q % 8;
    assert Mirror(q) == 8 * a + (7 - b);
    if b == 7 {
      assert (q + 1) / 8 == a + 1 && (q + 1) % 8 == 0;
    } else {
      assert (q + 1) / 8 == a && (q + 1) % 8 == b + 1;
      assert (8 * a + (7 - b)) % 8 == 7 - b;
    }
  }

  /** The closed form of a Motorola position. */
  lemma MotorolaPosition(l: Layout, k: nat)
    requires l.order == BigEndian && k < l.length
    ensures var q := 8 * (l.startBit / 8) + 7 - l.startBit % 8 + l.length - 1 - k;
            Position(l, k) == 8 * (q / 8) + 7 - q % 8
  {
    SawtoothIsMirrored(l.startBit, l.length - 1 - k);
  }

  /** No payload bit holds two value bits. */
  lemma PositionInjective(l: Layout, j: nat, k: nat)
    requires j < l.length && k < l.length && Position(l, j) == Position(l, k)
    ensures j == k
  {
    if l.order == BigEndian {
      SawtoothIsMirrored(l.startBit, l.length - 1 - j);
      SawtoothIsMirrored(l.startBit, l.length - 1 - k);
      MirrorInverse(Mirror(l.startBit) + l.length - 1 - j);
      MirrorInverse(Mirror(l.startBit) + l.length - 1 - k);
    }
  }

  // ----- chunks agree with the layout

  /** Value bit k travels in chunk c. */
  predicate Holds(c: PlanChunk, k: nat) {
    c.destShift <= k < c.destShift + c.numBits
  }

  /** A non-empty run inside one byte with the mask of its width. */
  predicate WellMasked(c: PlanChunk) {
    c.numBits >= 1 && c.lsbInByte + c.numBits <= 8 && c.mask == Mask(c.numBits)
  }

  /** The payload bit from which chunk c takes value bit k. */
  function Source(c: PlanChunk, k: nat): nat
    requires Holds(c, k)
  {
    8 * c.byte + c.lsbInByte + k - c.destShift
  }

  ghost predicate Covered(chunks: seq<PlanChunk>, k: nat) {
    exists i :: 0 <= i < |chunks| && Holds(chunks[i], k)
  }

  ghost predicate Follows(c: PlanChunk, l: Layout) {
    && WellMasked(c)
    && forall k: nat :: Holds(c, k) ==> k < l.length && Source(c, k) == Position(l, k)
  }

  /** Ascending, gapless value ranges from lo to hi. */
  predicate TilesUp(chunks: seq<PlanChunk>, lo: nat, hi: nat) {
    if chunks == [] then lo == hi
    else chunks[0].destShift == lo && TilesUp(chunks[1..], lo + chunks[0].numBits, hi)
  }

  /** Descending, gapless value ranges from hi to 0. */
  predicate TilesDown(chunks: seq<PlanChunk>, hi: nat) {
    if chunks == [] then hi == 0
    else chunks[0].destShift + chunks[0].numBits == hi && TilesDown(chunks[1..], chunks[0].destShift)
  }

  lemma {:induction false} LittleEndianFollows(l: Layout, global: nat, remaining: nat, dest: nat)
    requires l.Valid() && l.order == LittleEndian
    requires dest + remaining == l.length && global == l.startBit + dest
    ensures var cs := LittleEndianChunks(global, remaining, dest);
            (forall c :: c in cs ==> Follows(c, l)) && TilesUp(cs, dest, l.length)
    decreases remaining
  {
    hide Follows, Mask;
    if remaining > 0 {
      var take := Min(8 - global % 8, remaining);
      LittleEndianFollows(l, global + take, remaining - take, dest + take);
      FirstLittleEndianChunk(l, global, remaining, dest);
      var cs := LittleEndianChunks(global, remaining, dest);
      assert cs[1..] == LittleEndianChunks(global + take, remaining - take, dest + take);
    }
  }

  lemma FirstLittleEndianChunk(l: Layout, global: nat, remaining: nat, dest: nat)
    requires l.Valid() && l.order == LittleEndian && remaining > 0
    requires dest + remaining == l.length && global == l.startBit + dest
    ensures Follows(MaskedChunk(global / 8, global % 8, Min(8 - global % 8, remaining), dest), l)
  {
    hide Mask;
  }

  lemma {:induction false} BigEndianFollows(l: Layout, byte: nat, msb: nat, remaining: nat)
    requires l.Valid() && l.order == BigEndian
    requires msb < 8 && remaining <= l.length && byte + remaining < 0x1_0000
    requires remaining > 0 ==> Mirror(l.startBit) + l.length - remaining == 8 * byte + 7 - msb
    ensures var cs := BigEndianChunks(byte, msb, remaining);
            (forall c :: c in cs ==> Follows(c, l)) && TilesDown(cs, remaining)
    decreases remaining
  {
    hide Follows, Mask;
    if remaining > 0 {
      var take := Min(msb + 1, remaining);
      BigEndianFollows(l, byte + 1, 7, remaining - take);
      FirstBigEndianChunk(l, byte, msb, remaining);
      var cs := BigEndianChunks(byte, msb, remaining);
      assert cs[1..] == BigEndianChunks(byte + 1, 7, remaining - take);
    }
  }

  lemma FirstBigEndianChunk(l: Layout, byte: nat, msb: nat, remaining: nat)
    requires l.Valid() && l.order == BigEndian
    requires msb < 8 && 0 < remaining <= l.length && byte + remaining < 0x1_0000
    requires Mirror(l.startBit) + l.length - remaining == 8 * byte + 7 - msb
    ensures var take := Min(msb + 1, remaining);
            Follows(MaskedChunk(byte, msb + 1 - take, take, remaining - take), l)
  {
    hide Mask, Mirror, Sawtooth;
    var take := Min(msb + 1, remaining);
    var c := MaskedChunk(byte, msb + 1 - take, take, remaining - take);
    forall k: nat | Holds(c, k)
      ensures k < l.length && Source(c, k) == Position(l, k)
    {
      SawtoothIsMirrored(l.startBit, l.length - 1 - k);
      SameByteRun(byte, msb, remaining - 1 - k);
    }
  }

  /** Below msb in the same byte, counting up in mirrored numbers counts down in the byte. */
  lemma SameByteRun(byte: nat, msb: nat, down: nat)
    requires down <= msb < 8
    ensures Mirror(8 * byte + 7 - msb + down) == 8 * byte + msb - down
  {
    var q := 8 * byte + 7 - msb + down;
    assert q / 8 == byte && q % 8 == 7 - msb + down;
  }

  lemma ChunksFollow(l: Layout)
    requires l.Valid()
    ensures forall c :: c in Chunks(l) ==> Follows(c, l)
    ensures if l.order == LittleEndian then TilesUp(Chunks(l), 0, l.length) else TilesDown(Chunks(l), l.length)
  {
    if l.order == LittleEndian {
      LittleEndianFollows(l, l.startBit, l.length, 0);
    } else {
      BigEndianFollows(l, l.startBit / 8, l.startBit % 8, l.length);
    }
  }

  lemma {:induction false} TilesUpOwner(chunks: seq<PlanChunk>, lo: nat, hi: nat, k: nat) returns (i: nat)
    requires TilesUp(chunks, lo, hi) && lo <= k < hi
    ensures i < |chunks| && Holds(chunks[i], k)
  {
    if Holds(chunks[0], k) {
      i := 0;
    } else {
      i := TilesUpOwner(chunks[1..], lo + chunks[0].numBits, hi, k);
      i := i + 1;
    }
  }

  lemma {:induction false} TilesDownOwner(chunks: seq<PlanChunk>, hi: nat, k: nat) returns (i: nat)
    requires TilesDown(chunks, hi) && k < hi
    ensures i < |chunks| && Holds(chunks[i], k)
  {
    if Holds(chunks[0], k) {
      i := 0;
    } else {
      i := TilesDownOwner(chunks[1..], chunks[0].destShift, k);
      i := i + 1;
    }
  }

  lemma {:induction false} TilesUpFrom(chunks: seq<PlanChunk>, lo: nat, hi: nat, i: nat)
    requires TilesUp(chunks, lo, hi) && i < |chunks|
    ensures lo <= chunks[i].destShift
  {
    if i > 0 { TilesUpFrom(chunks[1..], lo + chunks[0].numBits, hi, i - 1); }
  }

  lemma {:induction false} TilesDownTo(chunks: seq<PlanChunk>, hi: nat, i: nat)
    requires TilesDown(chunks, hi) && i < |chunks|
    ensures chunks[i].destShift + chunks[i].numBits <= hi
  {
    if i > 0 { TilesDownTo(chunks[1..], chunks[0].destShift, i - 1); }
  }

  lemma {:induction false} TilesUpOnce(chunks: seq<PlanChunk>, lo: nat, hi: nat, i: nat, j: nat, k: nat)
    requires TilesUp(chunks, lo, hi) && i < j < |chunks| && Holds(chunks[i], k)
    ensures !Holds(chunks[j], k)
  {
    if i > 0 {
      TilesUpOnce(chunks[1..], lo + chunks[0].numBits, hi, i - 1, j - 1, k);
    } else {
      TilesUpFrom(chunks[1..], lo + chunks[0].numBits, hi, j - 1);
    }
  }

  lemma {:induction false} TilesDownOnce(chunks: seq<PlanChunk>, hi: nat, i: nat, j: nat, k: nat)
    requires TilesDown(chunks, hi) && i < j < |chunks| && Holds(chunks[i], k)
    ensures !Holds(chunks[j], k)
  {
    if i > 0 {
      TilesDownOnce(chunks[1..], chunks[0].destShift, i - 1, j - 1, k);
    } else {
      TilesDownTo(chunks[1..], chunks[0].destShift, j - 1);
    }
  }

  /** The value ranges of a plan tile [0, length): every value bit in exactly one chunk. */
  lemma ChunksTile(l: Layout)
    requires l.Valid()
    ensures forall k :: 0 <= k < l.length ==> Covered(Chunks(l), k)
    ensures forall i, j, k: nat :: 0 <= i < j < |Chunks(l)| && Holds(Chunks(l)[i], k) ==> !Holds(Chunks(l)[j], k)
  {
    hide Chunks, TilesUp, TilesDown;
    ChunksFollow(l);
    forall k | 0 <= k < l.length
      ensures Covered(Chunks(l), k)
    {
      if l.order == LittleEndian {
        var i := TilesUpOwner(Chunks(l), 0, l.length, k);
      } else {
        var i := TilesDownOwner(Chunks(l), l.length, k);
      }
    }
    forall i, j, k: nat | 0 <= i < j < |Chunks(l)| && Holds(Chunks(l)[i], k)
      ensures !Holds(Chunks(l)[j], k)
    {
      if l.order == LittleEndian {
        TilesUpOnce(Chunks(l), 0, l.length, i, j, k);
      } else {
        TilesDownOnce(Chunks(l), l.length, i, j, k);
      }
    }
  }

  /** No two chunks of a plan take the same payload bit. */
  lemma ChunksTakeDistinctBits(l: Layout, i: nat, j: nat, k: nat, m: nat)
    requires l.Valid() && i < j < |Chunks(l)|
    requires Holds(Chunks(l)[i], k) && Holds(Chunks(l)[j], m)
    ensures Source(Chunks(l)[i], k) != Source(Chunks(l)[j], m)
  {
    hide Chunks, Position;
    ChunksFollow(l);
    ChunksTile(l);
    assert Chunks(l)[i] in Chunks(l) && Chunks(l)[j] in Chunks(l);
    if Source(Chunks(l)[i], k) == Source(Chunks(l)[j], m) {
      PositionInjective(l, k, m);
    }
  }

  lemma {:induction false} LittleEndianCount(global: nat, remaining: nat, dest: nat)
    requires dest + remaining <= 64 && global + remaining < 0x8_0000
    ensures |LittleEndianChunks(global, remaining, dest)| == (global % 8 + remaining + 7) / 8
            || (remaining == 0 && |LittleEndianChunks(global, remaining, dest)| == 0)
    decreases remaining
  {
    hide MaskedChunk;
    if remaining > 0 {
      var take := Min(8 - global % 8, remaining);
      var b := global % 8;
      if take < remaining {
        assert take == 8 - b && (global + take) % 8 == 0;
        assert (b + remaining + 7) / 8 == 1 + (remaining - take + 7) / 8;
      } else {
        assert (b + remaining + 7) / 8 == 1;
      }
      LittleEndianCount(global + take, remaining - take, dest + take);
    }
  }

  lemma {:induction false} BigEndianCount(byte: nat, msb: nat, remaining: nat)
    requires msb < 8 && remaining <= 64 && byte + remaining < 0x1_0000
    ensures |BigEndianChunks(byte, msb, remaining)| == if remaining == 0 then 0 else (7 - msb + remaining + 7) / 8
    decreases remaining
  {
    if remaining > 0 {
      var take := Min(msb + 1, remaining);
      BigEndianCount(byte + 1, 7, remaining - take);
    }
  }

  /** Nine chunks are always enough. */
  lemma AtMostNineChunks(l: Layout)
    requires l.Valid()
    ensures 1 <= |Chunks(l)| <= MAX_CHUNKS
  {
    if l.order == LittleEndian {
      LittleEndianCount(l.startBit, l.length, 0);
    } else {
      BigEndianCount(l.startBit / 8, l.startBit % 8, l.length);
    }
  }

  // ----- how far the field reaches

  lemma {:induction false} ReachCovers(chunks: seq<PlanChunk>, c: PlanChunk)
    requires c in chunks
    ensures c.byte < Reach(chunks)
  {
    var init := chunks[..|chunks| - 1];
    if c in init { ReachCovers(init, c); }
  }

  lemma {:induction false} ReachWitness(chunks: seq<PlanChunk>) returns (c: PlanChunk)
    requires chunks != []
    ensures c in chunks && Reach(chunks) == c.byte + 1
  {
    var init, last := chunks[..|chunks| - 1], chunks[|chunks| - 1];
    if last.byte + 1 > Reach(init) {
      c := last;
    } else {
      c := ReachWitness(init);
    }
  }

  /** The required length is exactly one past the last payload byte of the field. */
  lemma RequiredLengthIsExact(l: Layout)
    requires l.Valid()
    ensures forall k :: 0 <= k < l.length ==> Position(l, k) / 8 < Reach(Chunks(l))
    ensures exists k :: 0 <= k < l.length && Position(l, k) / 8 + 1 == Reach(Chunks(l))
  {
    hide Chunks, Position;
    ChunksFollow(l);
    ChunksTile(l);
    AtMostNineChunks(l);
    forall k | 0 <= k < l.length
      ensures Position(l, k) / 8 < Reach(Chunks(l))
    {
      assert Covered(Chunks(l), k);
      var i :| 0 <= i < |Chunks(l)| && Holds(Chunks(l)[i], k);
      ReachCovers(Chunks(l), Chunks(l)[i]);
      assert Source(Chunks(l)[i], k) / 8 == Chunks(l)[i].byte;
    }
    var c := ReachWitness(Chunks(l));
    assert Holds(c, c.destShift);
    assert Source(c, c.destShift) / 8 == c.byte;
  }

  // ----- gathering

  /** A chunk list of well-masked runs. */
  ghost predicate AllMasked(chunks: seq<PlanChunk>) {
    forall i :: 0 <= i < |chunks| ==> WellMasked(chunks[i])
  }

  lemma ChunkBit(c: PlanChunk, b: u8, k: nat)
    requires WellMasked(c)
    ensures Bit(Shl(And(Shr(b, c.lsbInByte), c.mask), c.destShift), k)
            <==> Holds(c, k) && Bit(b, c.lsbInByte + k - c.destShift)
  {
    hide Bit, Shl, Shr, And, Mask;
    BitShl(And(Shr(b, c.lsbInByte), c.mask), c.destShift, k);
    if k >= c.destShift {
      BitAnd(Shr(b, c.lsbInByte), c.mask, k - c.destShift);
      BitShr(b, c.lsbInByte, k - c.destShift);
      BitMask(c.numBits, k - c.destShift);
    }
  }

  /** Bit k is gathered exactly when some chunk carries it from a set payload bit. */
  lemma {:induction false} GatherBit(chunks: seq<PlanChunk>, payload: seq<u8>, k: nat)
    requires AllMasked(chunks) && Reach(chunks) <= |payload|
    ensures Bit(Gather(chunks, payload), k)
            <==> exists i :: 0 <= i < |chunks| && Holds(chunks[i], k) && PayloadBit(payload, Source(chunks[i], k))
  {
    hide Bit, Shl, Shr, And, Or;
    if chunks == [] {
      BitZero(k);
    } else {
      var init, c := chunks[..|chunks| - 1], chunks[|chunks| - 1];
      GatherBit(init, payload, k);
      ChunkBit(c, payload[c.byte], k);
      BitOr(Gather(init, payload), Shl(And(Shr(payload[c.byte], c.lsbInByte), c.mask), c.destShift), k);
      if Holds(c, k) {
        assert Source(c, k) / 8 == c.byte && Source(c, k) % 8 == c.lsbInByte + k - c.destShift;
      }
      assert forall i :: 0 <= i < |init| ==> chunks[i] == init[i];
    }
  }

  /** Reading: value bit k is the payload bit the layout names, and nothing lies above the field. */
  lemma ExtractIsLayout(l: Layout, payload: seq<u8>)
    requires l.Valid() && Reach(Chunks(l)) <= |payload|
    ensures forall k :: 0 <= k < l.length ==> Bit(Gather(Chunks(l), payload), k) == PayloadBit(payload, Position(l, k))
    ensures forall k :: l.length <= k ==> !Bit(Gather(Chunks(l), payload), k)
    ensures Gather(Chunks(l), payload) < Pow2(l.length)
  {
    hide Chunks, Position, Bit, Gather;
    var cs := Chunks(l);
    ChunksFollow(l);
    ChunksTile(l);
    assert forall i :: 0 <= i < |cs| ==> Follows(cs[i], l);
    forall k: nat
      ensures Bit(Gather(cs, payload), k) <==> k < l.length && PayloadBit(payload, Position(l, k))
    {
      GatherBit(cs, payload, k);
      if k < l.length {
        assert Covered(cs, k);
        var i :| 0 <= i < |cs| && Holds(cs[i], k);
        assert Follows(cs[i], l);
      } else {
        assert forall i :: 0 <= i < |cs| ==> Follows(cs[i], l) && !Holds(cs[i], k);
      }
    }
    BoundFromBits(Gather(cs, payload), l.length);
  }

  // ----- scattering

  lemma InsertByteBit(b: u8, c: PlanChunk, raw: u64, i: nat)
    requires WellMasked(c)
    ensures Bit(InsertByte(b, c, raw), i)
            <==> if c.lsbInByte <= i < c.lsbInByte + c.numBits then Bit(raw, c.destShift + i - c.lsbInByte)
                 else Bit(b, i)
  {
    hide Bit, Shl, Shr, And, Or, Mask;
    Pow2Values();
    var piece := And(Shr(raw, c.destShift) % Pow2(32), c.mask);
    var run := Shl(c.mask, c.lsbInByte) % Pow2(32);
    var updated := Or(And(b, Not(run, 32)), Shl(piece, c.lsbInByte) % Pow2(32));
    BitMod(updated, 8, i);
    if i < 8 {
      BitOr(And(b, Not(run, 32)), Shl(piece, c.lsbInByte) % Pow2(32), i);
      BitAnd(b, Not(run, 32), i);
      BitNot(run, 32, i);
      BitMod(Shl(c.mask, c.lsbInByte), 32, i);
      BitShl(c.mask, c.lsbInByte, i);
      BitMod(Shl(piece, c.lsbInByte), 32, i);
      BitShl(piece, c.lsbInByte, i);
      if c.lsbInByte <= i {
        var d := i - c.lsbInByte;
        BitMask(c.numBits, d);
        BitAnd(Shr(raw, c.destShift) % Pow2(32), c.mask, d);
        BitMod(Shr(raw, c.destShift), 32, d);
        BitShr(raw, c.destShift, d);
      }
    } else {
      HighBitsZero(b, 8, i);
    }
  }

  /** Writing one chunk sets the bits of its run and no others. */
  lemma WriteChunkBit(payload: seq<u8>, c: PlanChunk, raw: u64, q: nat)
    requires WellMasked(c) && c.byte < |payload|
    ensures var after := payload[c.byte := InsertByte(payload[c.byte], c, raw)];
            var first := 8 * c.byte + c.lsbInByte;
            PayloadBit(after, q)
            <==> if first <= q < first + c.numBits then Bit(raw, c.destShift + q - first) else PayloadBit(payload, q)
  {
    hide Bit, InsertByte;
    if q / 8 == c.byte {
      InsertByteBit(payload[c.byte], c, raw, q % 8);
    }
  }

  /** Writing a plan's chunks puts every value bit at its position and leaves the other bits. */
  lemma {:induction false} ScatterBits(l: Layout, chunks: seq<PlanChunk>, payload: seq<u8>, raw: u64)
    requires l.Valid() && Reach(chunks) <= |payload|
    requires forall i :: 0 <= i < |chunks| ==> Follows(chunks[i], l)
    ensures var after := Scatter(chunks, payload, raw);
            && (forall k :: 0 <= k < l.length && Covered(chunks, k) ==>
                  PayloadBit(after, Position(l, k)) == Bit(raw, k))
            && (forall q: nat :: (forall k :: 0 <= k < l.length && Covered(chunks, k) ==> Position(l, k) != q)
                  ==> PayloadBit(after, q) == PayloadBit(payload, q))
  {
    hide Bit, InsertByte, Position;
    if chunks != [] {
      var init, c := chunks[..|chunks| - 1], chunks[|chunks| - 1];
      ScatterBits(l, init, payload, raw);
      var before, after := Scatter(init, payload, raw), Scatter(chunks, payload, raw);
      assert forall i :: 0 <= i < |init| ==> init[i] == chunks[i];
      assert Follows(c, l);
      forall k | 0 <= k < l.length && Covered(chunks, k)
        ensures PayloadBit(after, Position(l, k)) == Bit(raw, k)
      {
        CoveredByLast(chunks, k);
        LastWriter(l, before, c, raw, k);
      }
      forall q: nat | forall k :: 0 <= k < l.length && Covered(chunks, k) ==> Position(l, k) != q
        ensures PayloadBit(after, q) == PayloadBit(payload, q)
      {
        forall k | 0 <= k < l.length && Covered(init, k)
          ensures Position(l, k) != q
        {
          CoveredByMore(chunks, k);
        }
        UntouchedByLast(l, before, chunks, raw, q);
      }
    }
  }

  lemma CoveredByLast(chunks: seq<PlanChunk>, k: nat)
    requires chunks != [] && Covered(chunks, k)
    ensures Covered(chunks[..|chunks| - 1], k) || Holds(chunks[|chunks| - 1], k)
  {
    var i :| 0 <= i < |chunks| && Holds(chunks[i], k);
    if i < |chunks| - 1 { assert chunks[..|chunks| - 1][i] == chunks[i]; }
  }

  lemma CoveredByMore(chunks: seq<PlanChunk>, k: nat)
    requires chunks != [] && Covered(chunks[..|chunks| - 1], k)
    ensures Covered(chunks, k)
  {
    var i :| 0 <= i < |chunks| - 1 && Holds(chunks[..|chunks| - 1][i], k);
    assert Holds(chunks[i], k);
  }

  /** After one more chunk, position k holds its bit if it did before or the chunk carries it. */
  lemma LastWriter(l: Layout, before: seq<u8>, c: PlanChunk, raw: u64, k: nat)
    requires l.Valid() && Follows(c, l) && c.byte < |before| && k < l.length
    requires Holds(c, k) || PayloadBit(before, Position(l, k)) == Bit(raw, k)
    ensures var after := before[c.byte := InsertByte(before[c.byte], c, raw)];
            PayloadBit(after, Position(l, k)) == Bit(raw, k)
  {
    hide Bit, InsertByte, Position, PayloadBit, Mask;
    var first := 8 * c.byte + c.lsbInByte;
    var q := Position(l, k);
    WriteChunkBit(before, c, raw, q);
    if Holds(c, k) {
      assert Source(c, k) == q;
    }
    if first <= q < first + c.numBits {
      var j := c.destShift + q - first;
      assert Holds(c, j) && Source(c, j) == q;
      PositionInjective(l, j, k);
    }
  }

  /** A payload bit in the run of the last chunk is the position of a value bit it carries. */
  lemma RunIsCovered(l: Layout, chunks: seq<PlanChunk>, q: nat) returns (j: nat)
    requires chunks != [] && Follows(chunks[|chunks| - 1], l)
    requires var c := chunks[|chunks| - 1];
             8 * c.byte + c.lsbInByte <= q < 8 * c.byte + c.lsbInByte + c.numBits
    ensures j < l.length && Covered(chunks, j) && Position(l, j) == q
  {
    hide Position;
    var c := chunks[|chunks| - 1];
    j := c.destShift + q - 8 * c.byte - c.lsbInByte;
    assert Holds(c, j) && Source(c, j) == q;
  }

  lemma UntouchedByLast(l: Layout, before: seq<u8>, chunks: seq<PlanChunk>, raw: u64, q: nat)
    requires l.Valid() && chunks != [] && chunks[|chunks| - 1].byte < |before|
    requires Follows(chunks[|chunks| - 1], l)
    requires forall k :: 0 <= k < l.length && Covered(chunks, k) ==> Position(l, k) != q
    ensures var c := chunks[|chunks| - 1];
            PayloadBit(before[c.byte := InsertByte(before[c.byte], c, raw)], q) == PayloadBit(before, q)
  {
    hide Bit, InsertByte, Position;
    var c := chunks[|chunks| - 1];
    var first := 8 * c.byte + c.lsbInByte;
    WriteChunkBit(before, c, raw, q);
    if first <= q < first + c.numBits {
      var j := RunIsCovered(l, chunks, q);
      assert false;
    }
  }

  /** Writing: the field holds the low bits of raw, every other payload bit is as before. */
  lemma InsertIsLayout(l: Layout, payload: seq<u8>, raw: u64)
    requires l.Valid() && Reach(Chunks(l)) <= |payload|
    ensures var after := Scatter(Chunks(l), payload, raw);
            && (forall k :: 0 <= k < l.length ==> PayloadBit(after, Position(l, k)) == Bit(raw, k))
            && (forall q: nat :: q !in FieldBits(l) ==> PayloadBit(after, q) == PayloadBit(payload, q))
  {
    hide Bit, Chunks, Position, Scatter;
    ChunksFollow(l);
    ChunksTile(l);
    assert forall i :: 0 <= i < |Chunks(l)| ==> Chunks(l)[i] in Chunks(l);
    ScatterBits(l, Chunks(l), payload, raw);
    forall q: nat | q !in FieldBits(l)
      ensures forall k :: 0 <= k < l.length && Covered(Chunks(l), k) ==> Position(l, k) != q
    {
    }
  }
}
