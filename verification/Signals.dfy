/** A signal: a payload field, its scaling to a physical value, and its description. */
module Signals {
  import opened Words
  import opened Packing

  /** A double, with the finite ones taken as exact reals. */
  datatype Double = NegInf | Finite(value: real) | PosInf | NaN

  /** The comparison of doubles: false whenever one side is not a number. */
  predicate Less(a: Double, b: Double) {
    match (a, b)
    case (Finite(x), Finite(y)) => x < y
    case (NegInf, Finite(_)) => true
    case (NegInf, PosInf) => true
    case (Finite(_), PosInf) => true
    case _ => false
  }

  /** Everything but NaN is ordered, reals by value, between the infinities. */
  lemma LessOrders(a: Double, b: Double, c: Double)
    ensures !Less(a, a) && (Less(a, b) && Less(b, c) ==> Less(a, c))
    ensures a != NaN && b != NaN <==> Less(a, b) || Less(b, a) || (a == b && a != NaN)
    ensures a.Finite? && b.Finite? ==> (Less(a, b) <==> a.value < b.value)
    ensures a.Finite? ==> Less(NegInf, a) && Less(a, PosInf)
  {
  }

  datatype MultiplexRole = NoMultiplex | Selector | Multiplexed

  datatype InvalidValue = NoInvalid | AllOnes | AllZeros | AllOnesOrZeros

  datatype Signal = Signal(
    startBit: u16, length: u16, order: ByteOrder, isSigned: bool, isFloat: bool,
    scale: real, offset: real, minimum: Double, maximum: Double,
    name: string, unit: string, muxRole: MultiplexRole, muxValue: u32, invalid: InvalidValue)
  {
    function Layout(): Packing.Layout {
      Packing.Layout.Layout(startBit, length, order)
    }

    predicate Valid() {
      1 <= length <= 64
    }
  }

  const DEFAULT_SIGNAL :=
    Signal(0, 1, LittleEndian, false, false, 1.0, 0.0, NegInf, PosInf, "", "", NoMultiplex, 0, NoInvalid)

  /** The compiled plan of a signal, as a value. */
  function Compile(sig: Signal): Plan
    requires sig.Valid()
  {
    ReachBound(sig.Layout());
    Plan(Chunks(sig.Layout()), sig.length, sig.isSigned, Reach(Chunks(sig.Layout())))
  }

  lemma {:induction false} ReachBelow(chunks: seq<PlanChunk>, n: nat)
    requires forall c :: c in chunks ==> c.byte < n
    ensures Reach(chunks) <= n
  {
    if chunks != [] { ReachBelow(chunks[..|chunks| - 1], n); }
  }

  lemma {:induction false} LittleEndianBytes(global: nat, remaining: nat, dest: nat)
    requires dest + remaining <= 64 && global + remaining < 0x7_FFF8
    ensures forall c :: c in LittleEndianChunks(global, remaining, dest) ==> c.byte < 0xFFFF
    decreases remaining
  {
    if remaining > 0 {
      var take := Min(8 - global % 8, remaining);
      LittleEndianBytes(global + take, remaining - take, dest + take);
    }
  }

  lemma {:induction false} BigEndianBytes(byte: nat, msb: nat, remaining: nat)
    requires msb < 8 && remaining <= 64 && byte + remaining < 0xFFFF
    ensures forall c :: c in BigEndianChunks(byte, msb, remaining) ==> c.byte < 0xFFFF
    decreases remaining
  {
    if remaining > 0 {
      BigEndianBytes(byte + 1, 7, remaining - Min(msb + 1, remaining));
    }
  }

  /** The 16-bit required length never wraps. */
  lemma ReachBound(l: Packing.Layout)
    requires l.Valid()
    ensures Reach(Chunks(l)) < 0x1_0000
  {
    if l.order == LittleEndian {
      LittleEndianBytes(l.startBit, l.length, 0);
    } else {
      BigEndianBytes(l.startBit / 8, l.startBit % 8, l.length);
    }
    ReachBelow(Chunks(l), 0xFFFF);
  }
}
