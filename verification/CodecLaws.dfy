/** What encoding and decoding promise each other. */
module CodecLaws {
  import opened Words
  import opened CanTypes
  import opened Packing
  import PackingLaws
  import PackingLayout
  import opened Signals
  import opened CodecArithmetic
  import opened Codec

  /** The number read back after a fitting integer was stored. */
  lemma StoredNumber(casts: FloatCasts, sig: Signal, payload: seq<u8>, n: int)
    requires sig.Valid() && !sig.isFloat && Fits(sig, n)
    requires Reach(Chunks(sig.Layout())) <= |payload|
    ensures var w := WriteField(sig.Layout(), payload, ToWord(n));
            && w.Ok?
            && ReadField(sig.Layout(), w.value) == Ok(n % Pow2(sig.length))
            && Numeric(casts, sig, ReadField(sig.Layout(), w.value).value) == n as real
  {
    hide Chunks, SignExtend, FieldWord, WriteField, ReadField;
    var l := sig.Layout();
    WriteThenRead(l, payload, ToWord(n));
    MaskedWord(n, l.length);
    AndMaskIsMod(ToWord(n), l.length);
    if sig.isSigned {
      SignExtendInvertsMask(n, sig.length);
    } else {
      DivModUnique(n, Pow2(sig.length), 0, n);
    }
  }

  /** And the value decoded from it. */
  lemma NumberReadBack(casts: FloatCasts, sig: Signal, payload: seq<u8>, n: int)
    requires sig.Valid() && !sig.isFloat && Fits(sig, n)
    requires WriteField(sig.Layout(), payload, ToWord(n)).Ok?
    ensures Decoded(casts, sig, WriteField(sig.Layout(), payload, ToWord(n)).value)
            == Ok(Physical(sig, n as real))
  {
    hide Chunks, Fits, Numeric, ToWord, FieldWord, Physical, ReadField;
    StoredNumber(casts, sig, payload, n);
  }

  lemma PhysicalIsNear(sig: Signal, c: real)
    requires sig.scale != 0.0
    ensures Abs(Physical(sig, Round(Unscaled(sig, c)) as real) - c) <= Abs(sig.scale) / 2.0
  {
    hide Round;
    var x := Unscaled(sig, c);
    QuotientTimes(c - sig.offset, sig.scale);
    ScaledRoundIsNear(c, sig.offset, sig.scale, x);
  }

  /** A successful encode of an integer signal decodes to within half a scale step. */
  lemma DecodeOfEncode(casts: FloatCasts, sig: Signal, payload: seq<u8>, value: Double)
    requires sig.Valid() && !sig.isFloat
    ensures Encoded(casts, sig, payload, value).Ok? ==>
              var back := Decoded(casts, sig, Encoded(casts, sig, payload, value).value);
              && back.Ok? && Clamped(sig, value).Finite?
              && Abs(back.value - Clamped(sig, value).value) <= Abs(sig.scale) / 2.0
  {
    hide Chunks, Round, Abs, Fits, Clamped, Numeric, ToWord, WriteField, ReadField, Physical, Unscaled;
    if Encoded(casts, sig, payload, value).Ok? {
      assert Clamped(sig, value).Finite?;
      var c := Clamped(sig, value).value;
      var n := Round(Unscaled(sig, c));
      assert Encoded(casts, sig, payload, value) == WriteField(sig.Layout(), payload, ToWord(n));
      NumberReadBack(casts, sig, payload, n);
      PhysicalIsNear(sig, c);
    }
  }

  /** Inside the signal's range nothing is clamped, so a strict encode keeps the value itself. */
  lemma DecodeOfStrictEncode(casts: FloatCasts, sig: Signal, payload: seq<u8>, value: real)
    requires sig.Valid() && !sig.isFloat
    requires !Less(Finite(value), sig.minimum) && !Less(sig.maximum, Finite(value))
    ensures Encoded(casts, sig, payload, Finite(value)).Ok? ==>
              var back := Decoded(casts, sig, Encoded(casts, sig, payload, Finite(value)).value);
              back.Ok? && Abs(back.value - value) <= Abs(sig.scale) / 2.0
  {
    hide Encoded, Decoded, Abs;
    assert Clamped(sig, Finite(value)) == Finite(value);
    DecodeOfEncode(casts, sig, payload, Finite(value));
  }

  /** The number of a raw field: unsigned, or two's complement. */
  function NumberOf(isSigned: bool, raw: nat, bits: nat): int
    requires bits >= 1
  {
    if isSigned && raw >= Pow2(bits - 1) then raw - Pow2(bits) else raw
  }

  /** What decoding computes: the number of the field, times the scale, plus the offset. */
  lemma DecodedMeans(casts: FloatCasts, sig: Signal, payload: seq<u8>)
    requires sig.Valid() && !sig.isFloat && ReadField(sig.Layout(), payload).Ok?
    ensures var number := NumberOf(sig.isSigned, ReadField(sig.Layout(), payload).value, sig.length);
            var back := Decoded(casts, sig, payload);
            back.Ok? && back.value == number as real * sig.scale + sig.offset
  {
    hide Physical, Numeric, NumberOf, ReadField;
    var raw := ReadField(sig.Layout(), payload).value;
    var x := NumberOf(sig.isSigned, raw, sig.length) as real;
    NumericIsNumber(casts, sig, raw);
    assert Decoded(casts, sig, payload) == Ok(Physical(sig, x));
    PhysicalIs(sig, x);
  }

  lemma NumericIsNumber(casts: FloatCasts, sig: Signal, raw: u64)
    requires sig.Valid() && !sig.isFloat && raw < Pow2(sig.length)
    ensures Numeric(casts, sig, raw) == NumberOf(sig.isSigned, raw, sig.length) as real
  {
    hide SignExtend;
    if sig.isSigned {
      SignExtendMeans(raw, sig.length);
    }
  }

  lemma PhysicalIs(sig: Signal, x: real)
    ensures Physical(sig, x) == x * sig.scale + sig.offset
  {
  }

  /**
   What encoding stores: the field of a successful encode reads back as the integer
   nearest to the clamped value with the offset taken off and the scale divided out.
   */
  lemma EncodedStores(casts: FloatCasts, sig: Signal, payload: seq<u8>, value: Double)
    requires sig.Valid() && !sig.isFloat && Encoded(casts, sig, payload, value).Ok?
    ensures var c, raw := Clamped(sig, value), ReadField(sig.Layout(), Encoded(casts, sig, payload, value).value);
            && c.Finite? && sig.scale != 0.0 && raw.Ok?
            && NumberOf(sig.isSigned, raw.value, sig.length) == Round((c.value - sig.offset) / sig.scale)
  {
    hide Chunks, Round, Fits, Clamped, ToWord, WriteField, ReadField, SignExtend;
    var c := Clamped(sig, value).value;
    var n := Round((c - sig.offset) / sig.scale);
    assert Encoded(casts, sig, payload, value) == WriteField(sig.Layout(), payload, ToWord(n));
    WriteNeedsReach(sig.Layout(), payload, ToWord(n));
    StoredNumber(casts, sig, payload, n);
    var raw := ReadField(sig.Layout(), Encoded(casts, sig, payload, value).value).value;
    if sig.isSigned {
      SignExtendMeans(raw, sig.length);
    }
    assert NumberOf(sig.isSigned, raw, sig.length) as real == n as real;
  }

  lemma WriteNeedsReach(l: Layout, payload: seq<u8>, raw: u64)
    requires l.Valid()
    ensures WriteField(l, payload, raw).Ok? <==> Reach(Chunks(l)) <= |payload|
  {
    hide Chunks, FieldWord;
  }

  /** An encode touches the bits of its own field only. */
  lemma EncodeKeepsOtherBits(casts: FloatCasts, sig: Signal, payload: seq<u8>, value: Double, q: nat)
    requires sig.Valid() && Encoded(casts, sig, payload, value).Ok? && q !in FieldBits(sig.Layout())
    ensures PayloadBit(Encoded(casts, sig, payload, value).value, q) == PayloadBit(payload, q)
  {
    hide Chunks, Round, FieldWord, Fits, FieldBits, ToWord, Clamped, Unscaled, PayloadBit;
    var x := Scaled(sig, Clamped(sig, value)).value;
    var raw := if sig.isFloat then casts.toRaw(x, sig.length) else ToWord(Round(x));
    PackingLayout.InsertIsLayout(sig.Layout(), payload, FieldWord(raw, sig.length));
  }

  /** A value outside a range that is not inverted encodes as the end that it passed. */
  lemma EncodeSaturates(casts: FloatCasts, sig: Signal, payload: seq<u8>, value: Double)
    requires sig.Valid() && !Less(sig.maximum, sig.minimum)
    ensures Less(value, sig.minimum) ==>
              Encoded(casts, sig, payload, value) == Encoded(casts, sig, payload, sig.minimum)
    ensures Less(sig.maximum, value) ==>
              Encoded(casts, sig, payload, value) == Encoded(casts, sig, payload, sig.maximum)
  {
    hide WriteField;
  }

  /** In particular, in numbers: below lo as lo, above hi as hi, infinities as the ends, and NaN not at all. */
  lemma EncodeClampsTo(casts: FloatCasts, sig: Signal, payload: seq<u8>, lo: real, hi: real, x: real)
    requires sig.Valid() && sig.minimum == Finite(lo) && sig.maximum == Finite(hi) && lo <= hi
    ensures var inside := if x < lo then lo else if x > hi then hi else x;
            Encoded(casts, sig, payload, Finite(x)) == Encoded(casts, sig, payload, Finite(inside))
            && Clamped(sig, Finite(inside)) == Finite(inside)
    ensures Encoded(casts, sig, payload, NegInf) == Encoded(casts, sig, payload, Finite(lo))
    ensures Encoded(casts, sig, payload, PosInf) == Encoded(casts, sig, payload, Finite(hi))
    ensures Encoded(casts, sig, payload, NaN) == Err(ValueOutOfRange)
  {
    hide WriteField;
  }

  /** With casts that are inverse on the scaled value, a float signal keeps the clamped value exactly. */
  lemma FloatRoundTrip(casts: FloatCasts, sig: Signal, payload: seq<u8>, value: Double)
    requires sig.Valid() && sig.isFloat && Encoded(casts, sig, payload, value).Ok?
    requires var x := Unscaled(sig, Clamped(sig, value).value);
             casts.toRaw(x, sig.length) < Pow2(sig.length)
             && casts.fromRaw(casts.toRaw(x, sig.length), sig.length) == x
    ensures Decoded(casts, sig, Encoded(casts, sig, payload, value).value) == Ok(Clamped(sig, value).value)
  {
    hide Chunks, FieldWord, Clamped, WriteField, ReadField;
    var c := Clamped(sig, value).value;
    var raw := casts.toRaw(Unscaled(sig, c), sig.length);
    WriteNeedsReach(sig.Layout(), payload, raw);
    WriteThenRead(sig.Layout(), payload, raw);
    DivModUnique(raw, Pow2(sig.length), 0, raw);
    QuotientTimes(c - sig.offset, sig.scale);
  }

  /** Exactly when an integer signal fails to encode, and with which error. */
  lemma EncodeFailsExactlyWhen(casts: FloatCasts, sig: Signal, payload: seq<u8>, value: Double)
    requires sig.Valid() && !sig.isFloat
    ensures var c, r := Clamped(sig, value), Encoded(casts, sig, payload, value);
            && (r == Err(ValueOutOfRange)
                <==> !c.Finite? || sig.scale == 0.0 || !Fits(sig, Round(Unscaled(sig, c.value))))
            && (r == Err(SignalOutOfRange)
                <==> c.Finite? && sig.scale != 0.0 && Fits(sig, Round(Unscaled(sig, c.value)))
                     && exists k :: 0 <= k < sig.length && Position(sig.Layout(), k) / 8 >= |payload|)
  {
    hide Chunks, Round, Fits, Clamped, Position, Unscaled;
    ReachIsLastByte(sig.Layout(), |payload|);
  }

  lemma ReachIsLastByte(l: Layout, n: nat)
    requires l.Valid()
    ensures Reach(Chunks(l)) > n <==> exists k :: 0 <= k < l.length && Position(l, k) / 8 >= n
  {
    hide Chunks, Reach, Position;
    PackingLayout.RequiredLengthIsExact(l);
  }

  /** Encoding what was decoded, when it is in range, leaves every payload byte as it was. */
  lemma EncodeOfDecode(casts: FloatCasts, sig: Signal, payload: seq<u8>)
    requires sig.Valid() && !sig.isFloat && sig.scale != 0.0
    requires Decoded(casts, sig, payload).Ok?
    requires var v := Finite(Decoded(casts, sig, payload).value);
             !Less(v, sig.minimum) && !Less(sig.maximum, v)
    ensures Encoded(casts, sig, payload, Finite(Decoded(casts, sig, payload).value)) == Ok(payload)
  {
    hide Chunks, Round, Fits, Numeric, ToWord, FieldWord;
    var l := sig.Layout();
    var raw := ReadField(l, payload).value;
    var n := StoredInteger(casts, sig, raw);
    var v := Decoded(casts, sig, payload).value;
    assert v == Physical(sig, n as real);
    UnscaleInteger(n, sig.offset, sig.scale);
    assert Unscaled(sig, v) == n as real;
    RoundOfInteger(n);
    assert Scaled(sig, Clamped(sig, Finite(v))) == Some(n as real);
    PackingLaws.InsertAfterExtract(l, payload);
  }

  /** The integer a raw field stands for: it fits, and stores back as the same raw bits. */
  lemma StoredInteger(casts: FloatCasts, sig: Signal, raw: u64) returns (n: int)
    requires sig.Valid() && !sig.isFloat && raw < Pow2(sig.length)
    ensures Numeric(casts, sig, raw) == n as real && Fits(sig, n)
    ensures FieldWord(ToWord(n), sig.length) == raw
  {
    hide SignExtend, FieldWord;
    n := if sig.isSigned then SignExtend(raw, sig.length) else raw;
    if sig.isSigned {
      SignExtendMeans(raw, sig.length);
    }
    assert Pow2(sig.length) == 2 * Pow2(sig.length - 1);
    MaskedWord(n, sig.length);
    AndMaskIsMod(ToWord(n), sig.length);
    if n == raw {
      DivModUnique(n, Pow2(sig.length), 0, raw);
    } else {
      DivModUnique(n, Pow2(sig.length), -1, raw);
    }
  }

  /** Two fitting integers that store the same payload are the same integer: no aliasing inside the range. */
  lemma EncodeIsInjective(casts: FloatCasts, sig: Signal, payload: seq<u8>, m: int, n: int)
    requires sig.Valid() && !sig.isFloat && Fits(sig, m) && Fits(sig, n)
    requires Reach(Chunks(sig.Layout())) <= |payload|
    requires WriteField(sig.Layout(), payload, ToWord(m)) == WriteField(sig.Layout(), payload, ToWord(n))
    ensures m == n
  {
    hide Chunks, SignExtend, FieldWord, WriteField, ReadField;
    StoredNumber(casts, sig, payload, m);
    StoredNumber(casts, sig, payload, n);
  }

  /** Encoding one signal leaves what a disjoint signal decodes to unchanged. */
  lemma EncodeLeavesOthersAlone(casts: FloatCasts, sig: Signal, other: Signal, payload: seq<u8>, value: Double)
    requires sig.Valid() && other.Valid() && FieldBits(sig.Layout()) !! FieldBits(other.Layout())
    requires Encoded(casts, sig, payload, value).Ok?
    ensures Decoded(casts, other, Encoded(casts, sig, payload, value).value) == Decoded(casts, other, payload)
  {
    hide Chunks, Round, FieldWord, Fits, FieldBits, Numeric, ToWord, Clamped, Physical, Unscaled;
    var x := Scaled(sig, Clamped(sig, value)).value;
    var raw := if sig.isFloat then casts.toRaw(x, sig.length) else ToWord(Round(x));
    assert Encoded(casts, sig, payload, value) == WriteField(sig.Layout(), payload, raw);
    if Reach(Chunks(other.Layout())) <= |payload| {
      PackingLaws.DisjointReadsUnaffected(other.Layout(), sig.Layout(), payload, FieldWord(raw, sig.length));
    }
  }
}
