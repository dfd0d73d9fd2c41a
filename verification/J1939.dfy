/** The SAE J1939 reading of a 29-bit identifier (SAE J1939-21, section 5.2). */
module J1939 {
  import opened Words
  import opened CanTypes

  const PDU2_THRESHOLD := 240
  const GLOBAL_ADDRESS: u8 := 0xFF

  /** The J1939 view of an identifier; it reads the masked 29-bit value only. */
  datatype J1939Id = J1939Id(id: CanId)
  {
    function Raw(): u32 { id.Identifier() }
    function Priority(): u8 { (Raw() / 0x400_0000) % 8 }
    function ExtendedDataPage(): u8 { (Raw() / 0x200_0000) % 2 }
    function DataPage(): u8 { (Raw() / 0x100_0000) % 2 }
    function PduFormat(): u8 { (Raw() / 0x1_0000) % 0x100 }
    function PduSpecific(): u8 { (Raw() / 0x100) % 0x100 }
    function SourceAddress(): u8 { Raw() % 0x100 }
    predicate IsPdu1() { PduFormat() < PDU2_THRESHOLD }

    function Pgn(): u32 {
      PgnFields(ExtendedDataPage(), DataPage(), PduFormat(), PduSpecific());
      var high := Or(Or(Shl(ExtendedDataPage(), 17), Shl(DataPage(), 16)), Shl(PduFormat(), 8));
      if IsPdu1() then high else Or(high, PduSpecific())
    }

    function DestinationAddress(): u8 {
      if IsPdu1() then PduSpecific() else GLOBAL_ADDRESS
    }
  }

  function Decode(id: CanId): (r: Option<J1939Id>)
    ensures r.Some? <==> id.Extended()
    ensures r.Some? ==> r.value.id == id
  {
    if id.Extended() then Some(J1939Id(id)) else None
  }

  /** Assembles an identifier; destination is used only by a PDU1 group. */
  function Make(priority: u8, pgn: u32, source: u8, destination: u8): J1939Id {
    var edp, dp, pf := And(Shr(pgn, 17), 1), And(Shr(pgn, 16), 1), And(Shr(pgn, 8), 0xFF);
    var ps := if pf < PDU2_THRESHOLD then destination else And(pgn, 0xFF);
    J1939Id(ExtendedId(
      Or(Or(Or(Or(Or(Shl(And(priority, 7), 26), Shl(edp, 25)), Shl(dp, 24)), Shl(pf, 16)),
            Shl(ps, 8)), source)))
  }

  /** Or-ing a value below 2^k under a value shifted by k adds the two. */
  lemma {:induction false} OrIsSumHigh(high: nat, low: nat, k: nat)
    requires low < Pow2(k)
    ensures Or(Shl(high, k), low) == Shl(high, k) + low
    decreases k
  {
    if k == 0 {
      OrZeroRight(high);
    } else {
      assert Shl(high, k) == 2 * Shl(high, k - 1);
      OrIsSumHigh(high, low / 2, k - 1);
      if low == 0 && Shl(high, k) == 0 {
      } else {
        assert Or(Shl(high, k), low) == 2 * Or(Shl(high, k - 1), low / 2) + low % 2;
      }
    }
  }

  lemma {:induction false} OrZeroRight(w: nat)
    ensures Or(w, 0) == w
  {
    if w > 0 { OrZeroRight(w / 2); }
  }

  /** Placing a field low of k bits under a shifted value, with c = 2^k spelled out. */
  lemma Join(high: nat, low: nat, k: nat, c: nat)
    requires Pow2(k) == c && low < c
    ensures Shl(high, k) == high * c
    ensures Or(Shl(high, k), low) == high * c + low
  {
    ShlIsMul(high, k);
    OrIsSumHigh(high, low, k);
  }

  lemma Shifts()
    ensures Pow2(8) == 0x100 && Pow2(16) == 0x1_0000 && Pow2(17) == 0x2_0000
    ensures Pow2(24) == 0x100_0000 && Pow2(25) == 0x200_0000 && Pow2(26) == 0x400_0000
    ensures Pow2(1) == 2 && Pow2(3) == 8
  {
    Pow2Values();
    Pow2Sum(16, 8);
    assert Pow2(25) == 2 * Pow2(24);
    assert Pow2(26) == 2 * Pow2(25);
  }

  lemma PgnFields(edp: nat, dp: nat, pf: nat, ps: nat)
    requires edp < 2 && dp < 2 && pf < 0x100 && ps < 0x100
    ensures var high := Or(Or(Shl(edp, 17), Shl(dp, 16)), Shl(pf, 8));
            && high == 0x2_0000 * edp + 0x1_0000 * dp + 0x100 * pf
            && Or(high, ps) == high + ps
  {
    hide Or, Shl, And, Shr, Pow2;
    Shifts();
    Join(dp, 0, 16, 0x1_0000);
    Join(pf, 0, 8, 0x100);
    Join(edp, Shl(dp, 16), 17, 0x2_0000);
    Join(2 * edp + dp, Shl(pf, 8), 16, 0x1_0000);
    Join(0x200 * edp + 0x100 * dp + pf, ps, 8, 0x100);
  }

  lemma PgnIsSum(j: J1939Id)
    ensures j.Pgn() == 0x2_0000 * j.ExtendedDataPage() + 0x1_0000 * j.DataPage() + 0x100 * j.PduFormat()
                       + if j.IsPdu1() then 0 else j.PduSpecific()
  {
    PgnFields(j.ExtendedDataPage(), j.DataPage(), j.PduFormat(), j.PduSpecific());
  }

  lemma {:induction false} ShrIsDiv(w: nat, k: nat)
    ensures Shr(w, k) == w / Pow2(k)
    decreases k
  {
    if k > 0 {
      ShrIsDiv(w / 2, k - 1);
      DivModOfHalf(w, Pow2(k - 1));
    }
  }

  /** What Make packs: the fields side by side, none overlapping another. */
  lemma MakeIsSum(priority: u8, pgn: u32, source: u8, destination: u8)
    ensures var pf := (pgn / 0x100) % 0x100;
            var ps := if pf < PDU2_THRESHOLD then destination else pgn % 0x100;
            Make(priority, pgn, source, destination).id
            == CanId(EXTENDED_FLAG + 0x400_0000 * (priority % 8) + 0x200_0000 * ((pgn / 0x2_0000) % 2)
                     + 0x100_0000 * ((pgn / 0x1_0000) % 2) + 0x1_0000 * pf + 0x100 * ps + source)
  {
    hide Or, Shl, And, Shr, Pow2;
    Shifts();
    var p := priority % 8;
    var edp, dp, pf := (pgn / 0x2_0000) % 2, (pgn / 0x1_0000) % 2, (pgn / 0x100) % 0x100;
    var ps := if pf < PDU2_THRESHOLD then destination else pgn % 0x100;
    AndMaskIsMod(priority, 3);
    ShrIsDiv(pgn, 17);
    ShrIsDiv(pgn, 16);
    ShrIsDiv(pgn, 8);
    AndMaskIsMod(pgn / 0x2_0000, 1);
    AndMaskIsMod(pgn / 0x1_0000, 1);
    AndMaskIsMod(pgn / 0x100, 8);
    AndMaskIsMod(pgn, 8);
    PackFields(p, edp, dp, pf, ps, source);
  }

  lemma PackFields(p: nat, edp: nat, dp: nat, pf: nat, ps: nat, sa: nat)
    requires p < 8 && edp < 2 && dp < 2 && pf < 0x100 && ps < 0x100 && sa < 0x100
    ensures Or(Or(Or(Or(Or(Shl(p, 26), Shl(edp, 25)), Shl(dp, 24)), Shl(pf, 16)), Shl(ps, 8)), sa)
            == 0x400_0000 * p + 0x200_0000 * edp + 0x100_0000 * dp + 0x1_0000 * pf + 0x100 * ps + sa
  {
    hide Or, Shl, And, Shr, Pow2;
    Shifts();
    Join(edp, 0, 25, 0x200_0000);
    Join(dp, 0, 24, 0x100_0000);
    Join(pf, 0, 16, 0x1_0000);
    Join(ps, 0, 8, 0x100);
    Join(p, Shl(edp, 25), 26, 0x400_0000);
    var a := 2 * p + edp;
    Join(a, Shl(dp, 24), 25, 0x200_0000);
    var b := 2 * a + dp;
    Join(b, Shl(pf, 16), 24, 0x100_0000);
    var c := 0x100 * b + pf;
    Join(c, Shl(ps, 8), 16, 0x1_0000);
    Join(0x100 * c + ps, sa, 8, 0x100);
  }

  /** Unpacking a sum of fields gives each field back. */
  lemma UnpackFields(n: nat, p: nat, edp: nat, dp: nat, pf: nat, ps: nat, sa: nat)
    requires p < 8 && edp < 2 && dp < 2 && pf < 0x100 && ps < 0x100 && sa < 0x100
    requires n == 0x400_0000 * p + 0x200_0000 * edp + 0x100_0000 * dp + 0x1_0000 * pf + 0x100 * ps + sa
    ensures n < 0x2000_0000
    ensures n % 0x100 == sa && (n / 0x100) % 0x100 == ps && (n / 0x1_0000) % 0x100 == pf
    ensures (n / 0x100_0000) % 2 == dp && (n / 0x200_0000) % 2 == edp && (n / 0x400_0000) % 8 == p
  {
    assert n / 0x100 == 0x4_0000 * p + 0x2_0000 * edp + 0x1_0000 * dp + 0x100 * pf + ps;
    assert n / 0x1_0000 == 0x400 * p + 0x200 * edp + 0x100 * dp + pf;
    assert n / 0x100_0000 == 4 * p + 2 * edp + dp;
    assert n / 0x200_0000 == 2 * p + edp;
    assert n / 0x400_0000 == p;
  }

  /** The fields of an identifier, read from the packed value. */
  lemma FieldsOfPacked(id: CanId, p: nat, edp: nat, dp: nat, pf: nat, ps: nat, sa: nat)
    requires p < 8 && edp < 2 && dp < 2 && pf < 0x100 && ps < 0x100 && sa < 0x100
    requires id.raw == EXTENDED_FLAG + 0x400_0000 * p + 0x200_0000 * edp + 0x100_0000 * dp + 0x1_0000 * pf
                       + 0x100 * ps + sa
    ensures var j := J1939Id(id);
            && id.Extended() && j.Priority() == p && j.ExtendedDataPage() == edp && j.DataPage() == dp
            && j.PduFormat() == pf && j.PduSpecific() == ps && j.SourceAddress() == sa
            && j.Pgn() == 0x2_0000 * edp + 0x1_0000 * dp + 0x100 * pf + if pf < PDU2_THRESHOLD then 0 else ps
  {
    hide J1939Id.Pgn;
    var n := id.raw - EXTENDED_FLAG;
    UnpackFields(n, p, edp, dp, pf, ps, sa);
    assert id.raw / 0x8000_0000 == 1;
    assert id.raw == 0x2000_0000 * 4 + n;
    assert id.Identifier() == n;
    PgnIsSum(J1939Id(id));
  }

  // ----- the documented promises of Make

  /** What an assembled identifier decodes to, field by field. */
  lemma MadeFields(priority: u8, pgn: u32, source: u8, destination: u8)
    ensures var j := Make(priority, pgn, source, destination);
            var pf := (pgn / 0x100) % 0x100;
            && j.id.Extended() && Decode(j.id) == Some(j)
            && j.Priority() == priority % 8 && j.SourceAddress() == source
            && j.DestinationAddress() == (if pf < 240 then destination else 0xFF)
            && j.Pgn() == 0x2_0000 * ((pgn / 0x2_0000) % 2) + 0x1_0000 * ((pgn / 0x1_0000) % 2) + 0x100 * pf
                          + if pf < 240 then 0 else pgn % 0x100
  {
    hide Make, J1939Id.Pgn;
    var j := Make(priority, pgn, source, destination);
    var pf := (pgn / 0x100) % 0x100;
    var ps := if pf < PDU2_THRESHOLD then destination else pgn % 0x100;
    MakeIsSum(priority, pgn, source, destination);
    FieldsOfPacked(j.id, priority % 8, (pgn / 0x2_0000) % 2, (pgn / 0x1_0000) % 2, pf, ps, source);
  }

  /**
   Make promises that pgn() reflects its argument. It does so exactly when the
   group is PDU2 or its low byte is zero: a PDU1 group has no room for that byte.
   */
  lemma MakeKeepsPgnExactlyWhen(priority: u8, pgn: u32, source: u8, destination: u8)
    requires priority <= 7 && pgn <= 0x3_FFFF
    ensures Make(priority, pgn, source, destination).Pgn() == pgn
            <==> (pgn / 0x100) % 0x100 >= 240 || pgn % 0x100 == 0
  {
    hide Make, J1939Id.Pgn;
    MadeFields(priority, pgn, source, destination);
    SplitPgn(pgn);
  }

  lemma SplitPgn(pgn: nat)
    requires pgn <= 0x3_FFFF
    ensures pgn == 0x2_0000 * ((pgn / 0x2_0000) % 2) + 0x1_0000 * ((pgn / 0x1_0000) % 2)
                   + 0x100 * ((pgn / 0x100) % 0x100) + pgn % 0x100
  {
    var a := pgn / 0x100;
    var b := a / 0x100;
    assert b == pgn / 0x1_0000 && b / 2 == pgn / 0x2_0000;
  }

  /** A request group with a nonzero low byte reads back as another group. */
  lemma MakeDropsPgnByte()
    ensures Make(6, 0xEA21, 1, 0x55).Pgn() == 0xEA00
  {
    hide Make, J1939Id.Pgn;
    MadeFields(6, 0xEA21, 1, 0x55);
  }

  /** Every extended identifier without other flag bits is rebuilt from its own fields. */
  lemma MakeOfFields(id: CanId)
    requires id.Extended() && id.raw < EXTENDED_FLAG + 0x2000_0000
    ensures var j := J1939Id(id);
            Make(j.Priority(), j.Pgn(), j.SourceAddress(), j.DestinationAddress()) == j
  {
    hide Make, J1939Id.Pgn, J1939Id.Priority, J1939Id.SourceAddress, J1939Id.DestinationAddress;
    hide J1939Id.PduFormat, J1939Id.PduSpecific, J1939Id.ExtendedDataPage, J1939Id.DataPage, J1939Id.Raw;
    var j := J1939Id(id);
    var n := id.raw - EXTENDED_FLAG;
    var p, edp, dp := (n / 0x400_0000) % 8, (n / 0x200_0000) % 2, (n / 0x100_0000) % 2;
    var pf, ps, sa := (n / 0x1_0000) % 0x100, (n / 0x100) % 0x100, n % 0x100;
    SplitRaw(n);
    FieldsOfPacked(id, p, edp, dp, pf, ps, sa);
    var low := if pf < PDU2_THRESHOLD then 0 else ps;
    PgnParts(j.Pgn(), edp, dp, pf, low);
    MadeFromParts(j, p, edp, dp, pf, ps, sa);
  }

  lemma PgnParts(pgn: nat, edp: nat, dp: nat, pf: nat, low: nat)
    requires edp < 2 && dp < 2 && pf < 0x100 && low < 0x100
    requires pgn == 0x2_0000 * edp + 0x1_0000 * dp + 0x100 * pf + low
    ensures pgn % 0x100 == low && (pgn / 0x100) % 0x100 == pf
    ensures (pgn / 0x1_0000) % 2 == dp && (pgn / 0x2_0000) % 2 == edp
  {
    assert pgn / 0x100 == 0x200 * edp + 0x100 * dp + pf;
    assert pgn / 0x1_0000 == 2 * edp + dp;
  }

  lemma MadeFromParts(j: J1939Id, p: nat, edp: nat, dp: nat, pf: nat, ps: nat, sa: nat)
    requires p < 8 && edp < 2 && dp < 2 && pf < 0x100 && ps < 0x100 && sa < 0x100
    requires j.Priority() == p && j.SourceAddress() == sa && j.PduFormat() == pf && j.PduSpecific() == ps
    requires var pgn := j.Pgn();
             && (pgn / 0x100) % 0x100 == pf && (pgn / 0x1_0000) % 2 == dp && (pgn / 0x2_0000) % 2 == edp
             && pgn % 0x100 == if pf < PDU2_THRESHOLD then 0 else ps
    requires j.id.raw == EXTENDED_FLAG + 0x400_0000 * p + 0x200_0000 * edp + 0x100_0000 * dp + 0x1_0000 * pf
                         + 0x100 * ps + sa
    ensures Make(j.Priority(), j.Pgn(), j.SourceAddress(), j.DestinationAddress()) == j
  {
    hide Make, J1939Id.Pgn, J1939Id.Priority, J1939Id.SourceAddress, J1939Id.PduFormat, J1939Id.PduSpecific;
    MakeIsSum(j.Priority(), j.Pgn(), j.SourceAddress(), j.DestinationAddress());
  }

  lemma SplitRaw(n: nat)
    requires n < 0x2000_0000
    ensures n == 0x400_0000 * ((n / 0x400_0000) % 8) + 0x200_0000 * ((n / 0x200_0000) % 2)
                 + 0x100_0000 * ((n / 0x100_0000) % 2) + 0x1_0000 * ((n / 0x1_0000) % 0x100)
                 + 0x100 * ((n / 0x100) % 0x100) + n % 0x100
  {
    var a := n / 0x100;
    var b := a / 0x100;
    var c := b / 0x100;
    var d := c / 2;
    assert b == n / 0x1_0000 && c == n / 0x100_0000 && d == n / 0x200_0000 && d / 2 == n / 0x400_0000;
  }
}
