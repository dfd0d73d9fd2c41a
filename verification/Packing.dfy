/**
 The bit layout of a signal, compiled into byte chunks.

 The documented layout is Position: which payload bit holds value bit k. The
 compiled form is a list of chunks that one gather loop and one scatter loop
 serve for both byte orders. PackingLayout proves that the second refines the first,
 and PackingPlan is the object that holds the chunks and runs the loops.
 */
module Packing {
  import opened Words

  datatype ByteOrder = LittleEndian | BigEndian

  /** The layout a signal asks for. */
  datatype Layout = Layout(startBit: u16, length: nat, order: ByteOrder)
  {
    predicate Valid() {
      1 <= length <= 64
    }
  }

  // ----- the documented layout

  /** The next less significant bit of a Motorola field: down, then bit 7 of the next byte. */
  function SawtoothStep(position: nat): nat {
    if position % 8 == 0 then position + 15 else position - 1
  }

  function Sawtooth(start: nat, steps: nat): nat {
    if steps == 0 then start else SawtoothStep(Sawtooth(start, steps - 1))
  }

  /** The payload bit, in DBC numbering, that holds bit k of the value. */
  function Position(l: Layout, k: nat): nat
    requires k < l.length
  {
    match l.order
    case LittleEndian => l.startBit + k
    case BigEndian => Sawtooth(l.startBit, l.length - 1 - k)
  }

  /** All payload bits of a field. */
  ghost function FieldBits(l: Layout): set<nat> {
    set k | 0 <= k < l.length :: Position(l, k)
  }

  predicate PayloadBit(payload: seq<u8>, position: nat) {
    position / 8 < |payload| && Bit(payload[position / 8], position % 8)
  }

  // ----- the compiled form

  /** A run of bits inside one byte, and where it goes in the value. */
  datatype PlanChunk = PlanChunk(byte: u16, lsbInByte: u8, numBits: u8, destShift: u8, mask: u8)

  const MAX_CHUNKS := 9

  datatype Plan = Plan(chunks: seq<PlanChunk>, bitLength: u8, isSigned: bool, requiredLength: u16)

  /** A chunk with the width mask of its run. */
  function MaskedChunk(byte: nat, lsb: nat, take: nat, dest: nat): PlanChunk
    requires byte < 0x1_0000 && lsb < 8 && take <= 8 && dest < 64
  {
    MaskBound(take);
    PlanChunk(byte, lsb, take, dest, Mask(take))
  }

  lemma MaskBound(n: nat)
    requires n <= 8
    ensures Mask(n) < 0x100
  {
    Pow2Values();
    Pow2Monotone(n, 8);
  }

  function Min(a: nat, b: nat): nat {
    if a < b then a else b
  }

  /** Intel: bits taken upwards from a running offset, byte by byte. */
  function LittleEndianChunks(global: nat, remaining: nat, dest: nat): seq<PlanChunk>
    requires dest + remaining <= 64 && global + remaining < 0x8_0000
    decreases remaining
  {
    if remaining == 0 then []
    else
      var take := Min(8 - global % 8, remaining);
      [MaskedChunk(global / 8, global % 8, take, dest)]
      + LittleEndianChunks(global + take, remaining - take, dest + take)
  }

  /** Motorola: bits taken downwards from msb, then from bit 7 of each next byte. */
  function BigEndianChunks(byte: nat, msb: nat, remaining: nat): seq<PlanChunk>
    requires msb < 8 && remaining <= 64 && byte + remaining < 0x1_0000
    decreases remaining
  {
    if remaining == 0 then []
    else
      var take := Min(msb + 1, remaining);
      [MaskedChunk(byte, msb + 1 - take, take, remaining - take)]
      + BigEndianChunks(byte + 1, 7, remaining - take)
  }

  function Chunks(l: Layout): seq<PlanChunk>
    requires l.Valid()
  {
    match l.order
    case LittleEndian => LittleEndianChunks(l.startBit, l.length, 0)
    case BigEndian => BigEndianChunks(l.startBit / 8, l.startBit % 8, l.length)
  }

  /** One past the highest byte any chunk touches. */
  function Reach(chunks: seq<PlanChunk>): nat {
    if chunks == [] then 0
    else
      var r, c := Reach(chunks[..|chunks| - 1]), chunks[|chunks| - 1];
      if c.byte + 1 > r then c.byte + 1 else r
  }

  /** The value bits a chunk list gathers from a payload, or-ed in list order. */
  function Gather(chunks: seq<PlanChunk>, payload: seq<u8>): nat
    requires Reach(chunks) <= |payload|
  {
    if chunks == [] then 0
    else
      var c := chunks[|chunks| - 1];
      Or(Gather(chunks[..|chunks| - 1], payload), Shl(And(Shr(payload[c.byte], c.lsbInByte), c.mask), c.destShift))
  }

  /** One byte after a chunk of raw is written into it: clear the run, then or the bits in. */
  function InsertByte(b: u8, c: PlanChunk, raw: u64): u8 {
    var piece := And(Shr(raw, c.destShift) % 0x1_0000_0000, c.mask);
    var clear := Complement32(Shl(c.mask, c.lsbInByte) % 0x1_0000_0000);
    Or(And(b, clear), Shl(piece, c.lsbInByte) % 0x1_0000_0000) % 0x100
  }

  function Complement32(w: u32): u32 {
    0xFFFF_FFFF - w
  }

  /** The payload after each chunk of raw is written into its byte, in list order. */
  function Scatter(chunks: seq<PlanChunk>, payload: seq<u8>, raw: u64): (after: seq<u8>)
    requires Reach(chunks) <= |payload|
    ensures |after| == |payload|
  {
    if chunks == [] then payload
    else
      var c := chunks[|chunks| - 1];
      var before := Scatter(chunks[..|chunks| - 1], payload, raw);
      before[c.byte := InsertByte(before[c.byte], c, raw)]
  }
}
