/** Laws of reading and writing fields: inverse, framing and non-interference. */
module PackingLaws {
  import opened Words
  import opened Packing
  import opened PackingLayout

  /** The raw value of a field in a payload. */
  function Extract(l: Layout, payload: seq<u8>): (raw: u64)
    requires l.Valid() && Reach(Chunks(l)) <= |payload|
    ensures raw < Pow2(l.length)
  {
    ExtractIsLayout(l, payload);
    Pow2Values();
    Pow2Monotone(l.length, 64);
    Gather(Chunks(l), payload)
  }

  /** The payload with raw written into a field. */
  function Insert(l: Layout, payload: seq<u8>, raw: u64): (after: seq<u8>)
    requires l.Valid() && Reach(Chunks(l)) <= |payload|
    ensures |after| == |payload|
  {
    Scatter(Chunks(l), payload, raw)
  }

  /** Payloads of one length with the same bits are equal. */
  lemma SamePayload(a: seq<u8>, b: seq<u8>)
    requires |a| == |b|
    requires forall q: nat :: PayloadBit(a, q) == PayloadBit(b, q)
    ensures a == b
  {
    hide Bit;
    Pow2Values();
    forall i | 0 <= i < |a|
      ensures a[i] == b[i]
    {
      forall j: nat
        ensures Bit(a[i], j) == Bit(b[i], j)
      {
        if j < 8 {
          assert (8 * i + j) / 8 == i && (8 * i + j) % 8 == j;
          assert PayloadBit(a, 8 * i + j) == PayloadBit(b, 8 * i + j);
        } else {
          HighBitsZero(a[i], 8, j);
          HighBitsZero(b[i], 8, j);
        }
      }
      SameBits(a[i], b[i]);
    }
  }

  /** Reading back what was written gives its low bits. */
  lemma ExtractAfterInsert(l: Layout, payload: seq<u8>, raw: u64)
    requires l.Valid() && Reach(Chunks(l)) <= |payload|
    ensures Extract(l, Insert(l, payload, raw)) == raw % Pow2(l.length)
  {
    hide Bit, Chunks, Gather, Scatter, Position;
    var after := Insert(l, payload, raw);
    InsertIsLayout(l, payload, raw);
    ExtractIsLayout(l, after);
    forall k: nat
      ensures Bit(Extract(l, after), k) == Bit(raw % Pow2(l.length), k)
    {
      BitMod(raw, l.length, k);
    }
    SameBits(Extract(l, after), raw % Pow2(l.length));
  }

  /** Writing back what was read changes nothing. */
  lemma InsertAfterExtract(l: Layout, payload: seq<u8>)
    requires l.Valid() && Reach(Chunks(l)) <= |payload|
    ensures Insert(l, payload, Extract(l, payload)) == payload
  {
    hide Bit, Chunks, Gather, Scatter, Position;
    var raw := Extract(l, payload);
    var after := Insert(l, payload, raw);
    ExtractIsLayout(l, payload);
    InsertIsLayout(l, payload, raw);
    forall q: nat
      ensures PayloadBit(after, q) == PayloadBit(payload, q)
    {
      if q in FieldBits(l) {
        var k :| 0 <= k < l.length && Position(l, k) == q;
      }
    }
    SamePayload(after, payload);
  }

  /** Only the low bits of the written value matter. */
  lemma InsertSeesLowBits(l: Layout, payload: seq<u8>, raw: u64, other: u64)
    requires l.Valid() && Reach(Chunks(l)) <= |payload|
    requires raw % Pow2(l.length) == other % Pow2(l.length)
    ensures Insert(l, payload, raw) == Insert(l, payload, other)
  {
    hide Bit, Chunks, Gather, Scatter, Position;
    var a, b := Insert(l, payload, raw), Insert(l, payload, other);
    InsertIsLayout(l, payload, raw);
    InsertIsLayout(l, payload, other);
    forall q: nat
      ensures PayloadBit(a, q) == PayloadBit(b, q)
    {
      if q in FieldBits(l) {
        var k :| 0 <= k < l.length && Position(l, k) == q;
        BitMod(raw, l.length, k);
        BitMod(other, l.length, k);
      }
    }
    SamePayload(a, b);
  }

  /** A field still reads its old value after a disjoint field is written. */
  lemma DisjointReadsUnaffected(a: Layout, b: Layout, payload: seq<u8>, raw: u64)
    requires a.Valid() && b.Valid() && FieldBits(a) !! FieldBits(b)
    requires Reach(Chunks(a)) <= |payload| && Reach(Chunks(b)) <= |payload|
    ensures Extract(a, Insert(b, payload, raw)) == Extract(a, payload)
  {
    hide Bit, Chunks, Gather, Scatter, Position;
    var after := Insert(b, payload, raw);
    InsertIsLayout(b, payload, raw);
    ExtractIsLayout(a, payload);
    ExtractIsLayout(a, after);
    forall k: nat
      ensures Bit(Extract(a, after), k) == Bit(Extract(a, payload), k)
    {
      if k < a.length {
        assert Position(a, k) in FieldBits(a);
      }
    }
    SameBits(Extract(a, after), Extract(a, payload));
  }

  /** Writes to disjoint fields commute. */
  lemma DisjointInsertsCommute(a: Layout, b: Layout, payload: seq<u8>, x: u64, y: u64)
    requires a.Valid() && b.Valid() && FieldBits(a) !! FieldBits(b)
    requires Reach(Chunks(a)) <= |payload| && Reach(Chunks(b)) <= |payload|
    ensures Insert(a, Insert(b, payload, y), x) == Insert(b, Insert(a, payload, x), y)
  {
    hide Bit, Chunks, Gather, Scatter, Position;
    InsertIsLayout(b, payload, y);
    InsertIsLayout(a, Insert(b, payload, y), x);
    InsertIsLayout(a, payload, x);
    InsertIsLayout(b, Insert(a, payload, x), y);
    var one, two := Insert(a, Insert(b, payload, y), x), Insert(b, Insert(a, payload, x), y);
    forall q: nat
      ensures PayloadBit(one, q) == PayloadBit(two, q)
    {
      if q in FieldBits(a) {
        var k :| 0 <= k < a.length && Position(a, k) == q;
        assert q !in FieldBits(b);
      } else if q in FieldBits(b) {
        var k :| 0 <= k < b.length && Position(b, k) == q;
      }
    }
    SamePayload(one, two);
  }
}
