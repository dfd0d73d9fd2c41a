/** Encoding and decoding signals in a frame's payload. */
module Codec {
  import opened Words
  import opened CanTypes
  import opened Packing
  import PackingLaws
  import PackingLayout
  import PackingPlan
  import opened Signals
  import opened CodecArithmetic

  /** The IEEE-754 bit casts, which this model takes as given. */
  datatype FloatCasts = FloatCasts(fromRaw: (u64, nat) -> real, toRaw: (real, nat) -> u64)

  // ----- what the codec computes, on payload values

  function ReadField(l: Layout, payload: seq<u8>): (r: Result<u64>)
    requires l.Valid()
    ensures r.Ok? ==> r.value < Pow2(l.length)
  {
    if Reach(Chunks(l)) > |payload| then Err(SignalOutOfRange) else Ok(PackingLaws.Extract(l, payload))
  }

  function WriteField(l: Layout, payload: seq<u8>, raw: u64): (r: Result<seq<u8>>)
    requires l.Valid()
    ensures r.Ok? ==> |r.value| == |payload|
  {
    if Reach(Chunks(l)) > |payload| then Err(SignalOutOfRange)
    else Ok(PackingLaws.Insert(l, payload, FieldWord(raw, l.length)))
  }

  /** The number a raw field stands for before scaling. */
  function Numeric(casts: FloatCasts, sig: Signal, raw: u64): real
    requires sig.Valid()
  {
    if sig.isFloat then casts.fromRaw(raw, sig.length)
    else if sig.isSigned then SignExtend(raw, sig.length) as real
    else raw as real
  }

  /** The linear scaling, and its inverse before rounding. */
  function Physical(sig: Signal, number: real): real {
    number * sig.scale + sig.offset
  }

  function Unscaled(sig: Signal, physical: real): real
    requires sig.scale != 0.0
  {
    (physical - sig.offset) / sig.scale
  }

  function Decoded(casts: FloatCasts, sig: Signal, payload: seq<u8>): Result<real>
    requires sig.Valid()
  {
    match ReadField(sig.Layout(), payload)
    case Err(e) => Err(e)
    case Ok(raw) => Ok(Physical(sig, Numeric(casts, sig, raw)))
  }

  predicate IsDontCare(policy: InvalidValue, raw: u64, bits: nat)
    requires bits <= 64
  {
    var ones := LowMask(bits);
    match policy
    case NoInvalid => false
    case AllOnes => raw == ones
    case AllZeros => raw == 0
    case AllOnesOrZeros => raw == ones || raw == 0
  }

  function Clamped(sig: Signal, value: Double): Double {
    var low := if Less(value, sig.minimum) then sig.minimum else value;
    if Less(sig.maximum, low) then sig.maximum else low
  }

  /** The quotient to round; None when it is not a finite number. */
  function Scaled(sig: Signal, clamped: Double): Option<real> {
    if clamped.Finite? && sig.scale != 0.0 then Some(Unscaled(sig, clamped.value)) else None
  }

  predicate Fits(sig: Signal, n: int)
    requires sig.Valid()
  {
    if sig.isSigned then FitsSigned(n, sig.length) else 0 <= n < Pow2(sig.length)
  }

  function Encoded(casts: FloatCasts, sig: Signal, payload: seq<u8>, value: Double): Result<seq<u8>>
    requires sig.Valid()
  {
    match Scaled(sig, Clamped(sig, value))
    case None => Err(ValueOutOfRange)
    case Some(x) =>
      if sig.isFloat then WriteField(sig.Layout(), payload, casts.toRaw(x, sig.length))
      else if Fits(sig, Round(x)) then WriteField(sig.Layout(), payload, ToWord(Round(x)))
      else Err(ValueOutOfRange)
  }

  /** Every payload bit of the field is set; none is. */
  predicate AllSet(l: Layout, payload: seq<u8>) {
    forall k :: 0 <= k < l.length ==> PayloadBit(payload, Position(l, k))
  }

  predicate NoneSet(l: Layout, payload: seq<u8>) {
    forall k :: 0 <= k < l.length ==> !PayloadBit(payload, Position(l, k))
  }

  /** The payload bits that a policy reserves for "no value". */
  predicate Reserved(policy: InvalidValue, l: Layout, payload: seq<u8>) {
    match policy
    case NoInvalid => false
    case AllOnes => AllSet(l, payload)
    case AllZeros => NoneSet(l, payload)
    case AllOnesOrZeros => AllSet(l, payload) || NoneSet(l, payload)
  }

  // ----- the frame and the operations on it

  /** A frame whose payload is written in place: 64 bytes, the first length of them valid. */
  class CanFrame {
    const bytes: array<u8>
    var length: u8

    ghost predicate Valid()
      reads this
    {
      bytes.Length == MAX_FD_LENGTH && length <= MAX_FD_LENGTH
    }

    /** The valid payload bytes. */
    function Payload(): (p: seq<u8>)
      requires Valid()
      reads this, bytes
      ensures |p| == length
    {
      bytes[..length]
    }

    constructor (payload: seq<u8>)
      requires |payload| <= MAX_FD_LENGTH
      ensures Valid() && fresh(bytes) && Payload() == payload
    {
      bytes := new u8[MAX_FD_LENGTH](i => if 0 <= i < |payload| then payload[i] else 0);
      length := |payload|;
    }
  }

  method ReadBits(plan: PackingPlan.PackingPlan, f: CanFrame) returns (r: Result<u64>)
    requires plan.Valid() && f.Valid()
    ensures r == ReadField(plan.layout, f.Payload())
  {
    if plan.requiredLength > f.length {
      return Err(SignalOutOfRange);
    }
    var raw := plan.Extract(f.bytes[..f.length]);
    return Ok(raw);
  }

  method WriteBits(plan: PackingPlan.PackingPlan, f: CanFrame, raw: u64) returns (r: Result<()>)
    requires plan.Valid() && f.Valid()
    modifies f.bytes
    ensures f.Valid() && plan.Valid()
    ensures r.Ok? <==> WriteField(plan.layout, old(f.Payload()), raw).Ok?
    ensures r.Err? ==> r.error == SignalOutOfRange && f.Payload() == old(f.Payload())
    ensures r.Ok? ==> f.Payload() == WriteField(plan.layout, old(f.Payload()), raw).value
  {
    if plan.requiredLength > f.length {
      return Err(SignalOutOfRange);
    }
    ghost var before := f.bytes[..];
    MaskedWord(raw, plan.bitLength);
    plan.Insert(f.bytes, And(ToWord(raw), LowMask(plan.bitLength)));
    InsertKeepsTail(plan.layout, before, f.length, FieldWord(raw, plan.layout.length));
    return Ok(());
  }

  /** The plan was compiled from the signal. */
  ghost predicate CompiledFrom(plan: PackingPlan.PackingPlan, sig: Signal)
    reads plan, plan.chunks
  {
    sig.Valid() && plan.Valid() && plan.layout == sig.Layout() && plan.isSigned == sig.isSigned
  }

  /** The plan stored as a value beside a signal is the plan object built from it. */
  lemma CompiledIsBuilt(plan: PackingPlan.PackingPlan, sig: Signal)
    requires CompiledFrom(plan, sig)
    ensures Compile(sig) == Plan(plan.chunks[..plan.count], plan.bitLength, plan.isSigned, plan.requiredLength)
  {
    hide Chunks, Reach;
  }

  method Decode(casts: FloatCasts, sig: Signal, plan: PackingPlan.PackingPlan, f: CanFrame) returns (r: Result<real>)
    requires CompiledFrom(plan, sig) && f.Valid()
    ensures r == Decoded(casts, sig, f.Payload())
  {
    hide Physical, Unscaled;
    var raw := ReadBits(plan, f);
    if raw.Err? {
      return Err(raw.error);
    }
    var numeric := 0.0;
    if sig.isFloat {
      numeric := casts.fromRaw(raw.value, plan.bitLength);
    } else if plan.isSigned {
      numeric := SignExtend(raw.value, plan.bitLength) as real;
    } else {
      numeric := raw.value as real;
    }
    return Ok(Physical(sig, numeric));
  }

  method DecodeValue(casts: FloatCasts, sig: Signal, plan: PackingPlan.PackingPlan, f: CanFrame)
    returns (r: Result<Option<real>>)
    requires CompiledFrom(plan, sig) && f.Valid()
    ensures r.Err? <==> ReadField(sig.Layout(), f.Payload()).Err?
    ensures r.Err? ==> r.error == SignalOutOfRange
    ensures r.Ok? ==>
              r.value == if Reserved(sig.invalid, sig.Layout(), f.Payload()) then None
                         else Some(Decoded(casts, sig, f.Payload()).value)
  {
    hide Physical, Unscaled, Reserved, IsDontCare;
    var raw := ReadBits(plan, f);
    if raw.Err? {
      return Err(raw.error);
    }
    DontCareIsReserved(sig.invalid, sig.Layout(), f.Payload());
    if IsDontCare(sig.invalid, raw.value, plan.bitLength) {
      return Ok(None);
    }
    var numeric := 0.0;
    if sig.isFloat {
      numeric := casts.fromRaw(raw.value, plan.bitLength);
    } else if plan.isSigned {
      numeric := SignExtend(raw.value, plan.bitLength) as real;
    } else {
      numeric := raw.value as real;
    }
    return Ok(Some(Physical(sig, numeric)));
  }

  method Encode(casts: FloatCasts, sig: Signal, plan: PackingPlan.PackingPlan, f: CanFrame, value: Double)
    returns (r: Result<()>)
    requires CompiledFrom(plan, sig) && f.Valid()
    modifies f.bytes
    ensures f.Valid() && CompiledFrom(plan, sig)
    ensures var spec := Encoded(casts, sig, old(f.Payload()), value);
            && (r.Ok? <==> spec.Ok?)
            && (r.Err? ==> r.error == spec.error && f.Payload() == old(f.Payload()))
            && (r.Ok? ==> f.Payload() == spec.value)
  {
    hide Physical, Unscaled;
    var clamped := value;
    if Less(clamped, sig.minimum) {
      clamped := sig.minimum;
    }
    if Less(sig.maximum, clamped) {
      clamped := sig.maximum;
    }
    if !clamped.Finite? || sig.scale == 0.0 {
      return Err(ValueOutOfRange);
    }
    var scaled := Unscaled(sig, clamped.value);
    if sig.isFloat {
      r := WriteBits(plan, f, casts.toRaw(scaled, plan.bitLength));
      return r;
    }
    var rounded := Round(scaled);
    var bits := plan.bitLength;
    if plan.isSigned {
      var half: int := Shl(1, bits - 1);
      ShlIsMul(1, bits - 1);
      if rounded < -half || rounded >= half {
        return Err(ValueOutOfRange);
      }
      r := WriteBits(plan, f, ToWord(rounded));
      return r;
    }
    var maxExclusive := LowMask(bits) as int + 1;
    if rounded < 0 || rounded >= maxExclusive {
      return Err(ValueOutOfRange);
    }
    r := WriteBits(plan, f, ToWord(rounded));
    return r;
  }

  method EncodeStrict(casts: FloatCasts, sig: Signal, plan: PackingPlan.PackingPlan, f: CanFrame, value: Double)
    returns (r: Result<()>)
    requires CompiledFrom(plan, sig) && f.Valid()
    modifies f.bytes
    ensures f.Valid() && CompiledFrom(plan, sig)
    ensures Less(value, sig.minimum) || Less(sig.maximum, value) ==>
              r == Err(ValueOutOfRange) && f.Payload() == old(f.Payload())
    ensures !Less(value, sig.minimum) && !Less(sig.maximum, value) ==>
              var spec := Encoded(casts, sig, old(f.Payload()), value);
              && (r.Ok? <==> spec.Ok?)
              && (r.Err? ==> r.error == spec.error && f.Payload() == old(f.Payload()))
              && (r.Ok? ==> f.Payload() == spec.value)
  {
    if Less(value, sig.minimum) || Less(sig.maximum, value) {
      return Err(ValueOutOfRange);
    }
    r := Encode(casts, sig, plan, f, value);
  }

  method WriteNotAvailable(plan: PackingPlan.PackingPlan, f: CanFrame) returns (r: Result<()>)
    requires plan.Valid() && f.Valid()
    modifies f.bytes
    ensures f.Valid() && plan.Valid()
    ensures r.Ok? <==> plan.requiredLength <= f.length
    ensures r.Err? ==> r.error == SignalOutOfRange && f.Payload() == old(f.Payload())
    ensures r.Ok? ==> ReadField(plan.layout, f.Payload()) == Ok(LowMask(plan.bitLength))
    ensures r.Ok? ==> AllSet(plan.layout, f.Payload())
    ensures forall q: nat :: q !in FieldBits(plan.layout) ==>
              PayloadBit(f.Payload(), q) == old(PayloadBit(f.Payload(), q))
  {
    hide PayloadBit, FieldBits, Position, AllSet;
    ghost var before := f.Payload();
    r := WriteBits(plan, f, LowMask(plan.bitLength));
    if r.Ok? {
      PackingLayout.InsertIsLayout(plan.layout, before, FieldWord(LowMask(plan.bitLength), plan.layout.length));
      AllOnesIsMask(plan.layout, f.Payload());
      WriteThenRead(plan.layout, before, LowMask(plan.bitLength));
      DivModUnique(LowMask(plan.bitLength), Pow2(plan.bitLength), 0, LowMask(plan.bitLength));
    }
  }

  method IsNotAvailable(plan: PackingPlan.PackingPlan, f: CanFrame) returns (r: Result<bool>)
    requires plan.Valid() && f.Valid()
    ensures r.Err? <==> plan.requiredLength > f.length
    ensures r.Err? ==> r.error == SignalOutOfRange
    ensures r.Ok? ==>
              (r.value <==> AllSet(plan.layout, f.Payload()))
  {
    var raw := ReadBits(plan, f);
    if raw.Err? {
      return Err(raw.error);
    }
    AllOnesIsMask(plan.layout, f.Payload());
    return Ok(raw.value == LowMask(plan.bitLength));
  }

  lemma AllOnesIsMask(l: Layout, payload: seq<u8>)
    requires l.Valid() && Reach(Chunks(l)) <= |payload|
    ensures PackingLaws.Extract(l, payload) == LowMask(l.length) <==> AllSet(l, payload)
  {
    hide Bit, Chunks, Gather, Position, LowMask, Mask, PayloadBit;
    var raw := PackingLaws.Extract(l, payload);
    PackingLayout.ExtractIsLayout(l, payload);
    forall k: nat
      ensures Bit(LowMask(l.length), k) == (k < l.length)
    {
      BitMask(l.length, k);
    }
    if forall k :: 0 <= k < l.length ==> PayloadBit(payload, Position(l, k)) {
      SameBits(raw, LowMask(l.length));
    } else {
      var k :| 0 <= k < l.length && !PayloadBit(payload, Position(l, k));
      assert !Bit(raw, k);
    }
  }

  lemma NoneSetIsZero(l: Layout, payload: seq<u8>)
    requires l.Valid() && Reach(Chunks(l)) <= |payload|
    ensures PackingLaws.Extract(l, payload) == 0 <==> NoneSet(l, payload)
  {
    hide Bit, Chunks, Gather, Position, PayloadBit;
    var raw := PackingLaws.Extract(l, payload);
    PackingLayout.ExtractIsLayout(l, payload);
    forall k: nat
      ensures !Bit(0, k)
    {
      BitZero(k);
    }
    if NoneSet(l, payload) {
      SameBits(raw, 0);
    } else {
      var k :| 0 <= k < l.length && PayloadBit(payload, Position(l, k));
      assert Bit(raw, k);
    }
  }

  /** The raw field is the pattern of its policy exactly when its payload bits are. */
  lemma DontCareIsReserved(policy: InvalidValue, l: Layout, payload: seq<u8>)
    requires l.Valid() && Reach(Chunks(l)) <= |payload|
    ensures IsDontCare(policy, PackingLaws.Extract(l, payload), l.length) <==> Reserved(policy, l, payload)
  {
    hide Chunks, AllSet, NoneSet, LowMask;
    AllOnesIsMask(l, payload);
    NoneSetIsZero(l, payload);
  }

  /** Writing into a longer buffer writes the same bytes of its prefix and keeps the rest. */
  lemma {:induction false} ScatterPrefix(chunks: seq<PlanChunk>, buffer: seq<u8>, n: nat, raw: u64)
    requires Reach(chunks) <= n <= |buffer|
    ensures Scatter(chunks, buffer, raw)[..n] == Scatter(chunks, buffer[..n], raw)
  {
    hide InsertByte;
    if chunks != [] { ScatterPrefix(chunks[..|chunks| - 1], buffer, n, raw); }
  }

  lemma InsertKeepsTail(l: Layout, buffer: seq<u8>, n: nat, raw: u64)
    requires l.Valid() && Reach(Chunks(l)) <= n <= |buffer|
    ensures PackingLaws.Insert(l, buffer, raw)[..n] == PackingLaws.Insert(l, buffer[..n], raw)
  {
    ScatterPrefix(Chunks(l), buffer, n, raw);
  }

  lemma WriteThenRead(l: Layout, payload: seq<u8>, raw: u64)
    requires l.Valid() && Reach(Chunks(l)) <= |payload|
    ensures WriteField(l, payload, raw).Ok?
    ensures ReadField(l, WriteField(l, payload, raw).value) == Ok(raw % Pow2(l.length))
  {
    hide Chunks, FieldWord;
    var w := FieldWord(raw, l.length);
    PackingLaws.ExtractAfterInsert(l, payload, w);
    DivModUnique(w, Pow2(l.length), 0, w);
  }
}
