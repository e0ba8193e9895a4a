/**
 * The block-position codec of rustic_io/src/datatypes/position.rs: a Position
 * (x, y, z) packed into one u64 with x in bits 63..38 (26 bits), z in bits
 * 37..12 (26 bits) and y in bits 11..0 (12 bits).
 *
 * Integers are unbounded here, so Rust's fixed widths are written out: an i32
 * is an int in [-2^31, 2^31), a u64 a nat below 2^64. On an i32, `v & mask`
 * with mask = 2^k - 1 is `v % 2^k` (Dafny's `%` never returns a negative
 * remainder, which is what masking the two's-complement pattern gives), an
 * i32 shift that overflows keeps the low 32 bits (WrapI32), `i32 as u64`
 * copies the sign into bits 63..32 (I32AsU64), and `|` is Bits.Or.
 */
module PositionCodec {
  import opened Bits

  type i32 = v: int | -0x8000_0000 <= v < 0x8000_0000
  type u64 = v: int | 0 <= v < 0x1_0000_0000_0000_0000

  /** `struct Position { x: i32, y: i32, z: i32 }` */
  datatype Position = Position(x: i32, y: i32, z: i32)

  /** Every coordinate fits its packed field: x and z in [-2^25, 2^25), y in [-2^11, 2^11). */
  predicate Fits(p: Position) {
    -0x200_0000 <= p.x < 0x200_0000 && -0x800 <= p.y < 0x800 && -0x200_0000 <= p.z < 0x200_0000
  }

  /** An i32 result of arithmetic that may overflow: the low 32 bits, read as two's complement. */
  function WrapI32(n: int): i32 {
    var m := n % 0x1_0000_0000;
    if m < 0x8000_0000 then m else m - 0x1_0000_0000
  }

  /** `t as u64` for an i32 t: negative values have bits 63..32 set. */
  function I32AsU64(t: i32): u64 {
    if t >= 0 then t else 0x1_0000_0000_0000_0000 + t
  }

  // ---------------------------------------------------------------------------
  // Decoding: Position::from_u64
  // ---------------------------------------------------------------------------

  /**
   * The sign correction of a 26-bit field in `from_u64`. The source writes
   * the threshold as `2 << 25-1`, which Rust parses as `2 << 24` = 2^25, and
   * the correction as `2 << 26-1` = 2^26: the midpoint and the range are
   * right. The result is the one value in [-2^25, 2^25) with those low bits.
   */
  function SignExtend26(f: nat): (r: i32)
    requires f < 0x400_0000
    ensures -0x200_0000 <= r < 0x200_0000 && r % 0x400_0000 == f
  {
    if f >= 0x200_0000 then f - 0x400_0000 else f
  }

  /** The sign correction of the 12-bit y field: threshold `2 << 11-1` = 2^11, range `2 << 12-1` = 2^12. */
  function SignExtend12(f: nat): (r: i32)
    requires f < 0x1000
    ensures -0x800 <= r < 0x800 && r % 0x1000 == f
  {
    if f >= 0x800 then f - 0x1000 else f
  }

  /**
   * `Position::from_u64`: x from bits 63..38 (`val >> 38`, below 2^26, so the
   * `as i32` keeps it), y from bits 11..0 and z from bits 37..12, each
   * sign-corrected. Total; every result fits, and each coordinate's low bits
   * are its field.
   */
  function FromU64(val: u64): (p: Position)
    ensures Fits(p)
    ensures p.x % 0x400_0000 == val / 0x40_0000_0000
    ensures p.y % 0x1000 == val % 0x1000
    ensures p.z % 0x400_0000 == (val / 0x1000) % 0x400_0000
  {
    Position(SignExtend26(val / 0x40_0000_0000),
             SignExtend12(val % 0x1000),
             SignExtend26((val / 0x1000) % 0x400_0000))
  }

  /** In its range a value is determined by its low bits: SignExtend26 inverts `% 2^26` there. */
  lemma SignExtendInverts(v: int)
    ensures -0x200_0000 <= v < 0x200_0000 ==> SignExtend26(v % 0x400_0000) == v
    ensures -0x800 <= v < 0x800 ==> SignExtend12(v % 0x1000) == v
  {
  }

  /** A u64 is its three fields put back together. */
  lemma FieldsOfU64(val: u64)
    ensures val == (val / 0x40_0000_0000) * 0x40_0000_0000 + ((val / 0x1000) % 0x400_0000) * 0x1000 + val % 0x1000
  {
    var hi := val / 0x1000;
    assert val == hi * 0x1000 + val % 0x1000;
    assert hi == (hi / 0x400_0000) * 0x400_0000 + hi % 0x400_0000;
    DivDiv(val, 0x1000, 0x400_0000);
  }

  /** Decoding the u64 whose x, z and y fields are a, b and c sign-corrects each field. */
  lemma FromU64Fields(a: nat, b: nat, c: nat)
    requires a < 0x400_0000 && b < 0x400_0000 && c < 0x1000
    ensures a * 0x40_0000_0000 + b * 0x1000 + c < 0x1_0000_0000_0000_0000
    ensures FromU64(a * 0x40_0000_0000 + b * 0x1000 + c) == Position(SignExtend26(a), SignExtend12(c), SignExtend26(b))
  {
    var val := a * 0x40_0000_0000 + b * 0x1000 + c;
    DivModUnique(val, a, 0x40_0000_0000, b * 0x1000 + c);
    DivModUnique(val, a * 0x400_0000 + b, 0x1000, c);
    DivModUnique(a * 0x400_0000 + b, a, 0x400_0000, b);
  }

  /** Two u64 built from fields are equal exactly when their fields are. */
  lemma FieldsDetermine(a: nat, b: nat, c: nat, a': nat, b': nat, c': nat)
    requires a < 0x400_0000 && b < 0x400_0000 && c < 0x1000
    requires a' < 0x400_0000 && b' < 0x400_0000 && c' < 0x1000
    ensures a * 0x40_0000_0000 + b * 0x1000 + c == a' * 0x40_0000_0000 + b' * 0x1000 + c'
        <==> a == a' && b == b' && c == c'
  {
    var val := a * 0x40_0000_0000 + b * 0x1000 + c;
    if val == a' * 0x40_0000_0000 + b' * 0x1000 + c' {
      DivModUnique(val, a, 0x40_0000_0000, b * 0x1000 + c);
      DivModUnique(val, a', 0x40_0000_0000, b' * 0x1000 + c');
      DivModUnique(b * 0x1000 + c, b, 0x1000, c);
      DivModUnique(b * 0x1000 + c, b', 0x1000, c');
    }
  }

  /** OR-ing fields placed in disjoint bit ranges adds them. */
  lemma OrOfFields(a: nat, b: nat, c: nat)
    requires a < 0x400_0000 && b < 0x400_0000 && c < 0x1000
    ensures Or(Or(a * 0x40_0000_0000, b * 0x1000), c) == a * 0x40_0000_0000 + b * 0x1000 + c
  {
    Pow2Of12();
    Pow2Of38();
    OrCommutes(a * 0x40_0000_0000, b * 0x1000);
    OrDisjoint(a, 38, b * 0x1000);
    OrDisjoint(a * 0x400_0000 + b, 12, c);
  }

  // ---------------------------------------------------------------------------
  // Encoding: Position::to_u64 as written
  // ---------------------------------------------------------------------------

  /** `(((x & 0x3FFFFFF) as u64) << 38) as u64`: widened before the shift, so nothing is lost. */
  function XTerm(x: i32): nat {
    (x % 0x400_0000) * 0x40_0000_0000
  }

  /**
   * `(((z & 0x3FFFFFF) << 12 as u64)) as u64`: `as` binds tighter than `<<`,
   * so only the shift amount is a u64 and the shift is done in i32. Bits
   * 20..25 of the masked z fall off the top, bit 19 lands in the sign bit,
   * and the `as u64` then copies that bit over bits 63..32.
   */
  function ZTerm(z: i32): (t: u64)
    ensures t == if ZSignLeaks(z) then 0xFFFF_FFFF_0000_0000 + ZLow(z) * 0x1000 else ZLow(z) * 0x1000
  {
    Pow2Of12();
    Pow2Of20();
    Pow2Of32();
    ShiftedMod(0, z % 0x400_0000, 12, 20);
    Pow2Small();
    Pow2Add(20, 6);
    Pow2Of26();
    ModOfMultipleModulus(z, 0x10_0000, 0x40);
    I32AsU64(WrapI32((z % 0x400_0000) * 0x1000))
  }

  /** `(y & 0xFFF) as u64` */
  function YTerm(y: i32): nat {
    y % 0x1000
  }

  /**
   * `Position::to_u64`: the three terms OR-ed together, left to right. The
   * result, field by field: x mod 2^26, z mod 2^20 and y mod 2^12 while bit
   * 19 of the masked z is clear; with it set, the x field is all ones and
   * bits 20..25 of the z field are ones.
   */
  function ToU64(p: Position): (val: u64)
    ensures val == XFieldAsWritten(p) * 0x40_0000_0000 + ZFieldAsWritten(p) * 0x1000 + p.y % 0x1000
  {
    Pow2Of64();
    OrBound(XTerm(p.x), ZTerm(p.z), 64);
    OrBound(Or(XTerm(p.x), ZTerm(p.z)), YTerm(p.y), 64);
    TermsAsFields(p);
    Or(Or(XTerm(p.x), ZTerm(p.z)), YTerm(p.y))
  }

  /** The bits of z that survive the i32 shift: z mod 2^20. */
  function ZLow(z: i32): nat {
    z % 0x10_0000
  }

  /** Bit 19 of the masked z is set: the bit the i32 shift moves into the sign bit. */
  predicate ZSignLeaks(z: i32) {
    ZLow(z) >= 0x8_0000
  }

  /** The x field `to_u64` produces: x mod 2^26, or all ones when z's bit 19 leaks. */
  function XFieldAsWritten(p: Position): nat {
    if ZSignLeaks(p.z) then 0x3FF_FFFF else p.x % 0x400_0000
  }

  /** The z field `to_u64` produces: z mod 2^20, with bits 20..25 set when bit 19 leaks. */
  function ZFieldAsWritten(p: Position): nat {
    if ZSignLeaks(p.z) then 0x3F0_0000 + ZLow(p.z) else ZLow(p.z)
  }

  /**
   * The three terms of `to_u64` OR-ed together: a z term with its sign bits
   * set absorbs the x term, otherwise the terms occupy disjoint bits.
   */
  lemma TermsAsFields(p: Position)
    ensures Or(Or(XTerm(p.x), ZTerm(p.z)), YTerm(p.y)) == XFieldAsWritten(p) * 0x40_0000_0000 + ZFieldAsWritten(p) * 0x1000 + p.y % 0x1000
  {
    var mx := p.x % 0x400_0000;
    var c := ZLow(p.z) * 0x1000;
    Pow2Of12();
    Pow2Of32();
    Pow2Of38();
    if ZSignLeaks(p.z) {
      assert XTerm(p.x) == (mx * 0x40) * Pow2(32);
      assert ZTerm(p.z) == (Pow2(32) - 1) * Pow2(32) + c;
      OrAbsorbed(mx * 0x40, 32, 32, c);
    } else {
      OrCommutes(XTerm(p.x), ZTerm(p.z));
      OrDisjoint(mx, 38, c);
    }
    var upper := XFieldAsWritten(p) * 0x400_0000 + ZFieldAsWritten(p);
    assert Or(XTerm(p.x), ZTerm(p.z)) == upper * Pow2(12);
    OrDisjoint(upper, 12, YTerm(p.y));
  }

  /**
   * `to_u64` followed by `from_u64`: y comes back whenever it fits; x comes
   * back as x's low 26 bits sign-corrected, or as -1 when z's bit 19 leaks;
   * z comes back as its low 20 bits, read as a 20-bit signed number.
   */
  lemma FromToU64(p: Position)
    ensures FromU64(ToU64(p)) == Position(
      if ZSignLeaks(p.z) then -1 else SignExtend26(p.x % 0x400_0000),
      SignExtend12(p.y % 0x1000),
      if ZSignLeaks(p.z) then ZLow(p.z) - 0x10_0000 else ZLow(p.z))
  {
    FromU64Fields(XFieldAsWritten(p), ZFieldAsWritten(p), p.y % 0x1000);
  }

  /**
   * Exactly which positions that fit come back from `to_u64` followed by
   * `from_u64`: those with 0 <= z < 2^19, and those with -2^19 <= z < 0
   * whose x is -1 (the x the leaked sign bits spell). Every other position,
   * in particular every one with z < -2^19 or z >= 2^19, comes back changed.
   */
  lemma RoundTripAsWritten(p: Position)
    requires Fits(p)
    ensures FromU64(ToU64(p)) == p <==>
      (0 <= p.z < 0x8_0000 || (-0x8_0000 <= p.z < 0 && p.x == -1))
  {
    FromToU64(p);
    ReadBackMatches(p, FromU64(ToU64(p)));
  }

  /** When the position `FromToU64` describes equals the one encoded. */
  lemma ReadBackMatches(p: Position, d: Position)
    requires Fits(p)
    requires d == Position(
      if ZSignLeaks(p.z) then -1 else SignExtend26(p.x % 0x400_0000),
      SignExtend12(p.y % 0x1000),
      if ZSignLeaks(p.z) then ZLow(p.z) - 0x10_0000 else ZLow(p.z))
    ensures d == p <==> (0 <= p.z < 0x8_0000 || (-0x8_0000 <= p.z < 0 && p.x == -1))
  {
    SignExtendInverts(p.x);
    SignExtendInverts(p.y);
    ZReadBack(p.z);
  }

  /** Which z come back from the z field `to_u64` writes, and whether their bit 19 leaks. */
  lemma ZReadBack(z: i32)
    ensures !ZSignLeaks(z) ==> (ZLow(z) == z <==> 0 <= z < 0x8_0000)
    ensures ZSignLeaks(z) ==> (ZLow(z) - 0x10_0000 == z <==> -0x8_0000 <= z < 0)
  {
  }

  /** The passing test of position.rs: (111560, 333, 47) comes back unchanged. */
  lemma PositiveTestRoundTrips()
    ensures FromU64(ToU64(Position(111560, 333, 47))) == Position(111560, 333, 47)
  {
    RoundTripAsWritten(Position(111560, 333, 47));
  }

  /**
   * The failing test of position.rs: (-1560, -333, -9696) comes back as
   * (-1, -333, -9696); y and z survive, x is overwritten by the sign of the
   * z term.
   */
  lemma NegativeTestLosesX()
    ensures FromU64(ToU64(Position(-1560, -333, -9696))) == Position(-1, -333, -9696)
  {
    var p := Position(-1560, -333, -9696);
    assert ZLow(p.z) == 0x10_0000 - 9696;
    FromToU64(p);
    SignExtendInverts(p.y);
  }

  /**
   * `to_u64` only sees x mod 2^26, y mod 2^12 and z mod 2^20: coordinates
   * outside their fields are truncated silently, and z loses six bits more
   * than its field has room for.
   */
  lemma ToU64Truncates(p: Position, q: Position)
    requires p.x % 0x400_0000 == q.x % 0x400_0000
    requires p.y % 0x1000 == q.y % 0x1000
    requires p.z % 0x10_0000 == q.z % 0x10_0000
    ensures ToU64(p) == ToU64(q)
  {
  }

  /**
   * Re-encoding what `from_u64` made of a `to_u64` result gives the same
   * u64: the packing as written loses information only once.
   */
  lemma ReencodeAsWrittenStable(p: Position)
    ensures ToU64(FromU64(ToU64(p))) == ToU64(p)
  {
    var q := FromU64(ToU64(p));
    FromToU64(p);
    assert ZLow(q.z) == ZLow(p.z);
    assert ZSignLeaks(q.z) == ZSignLeaks(p.z);
    assert XFieldAsWritten(q) == XFieldAsWritten(p);
  }

  /**
   * Which u64 come back from `from_u64` followed by `to_u64`: those whose z
   * field is below 2^19, and those whose x field is all ones and whose z
   * field has bits 19..25 all set.
   */
  lemma ToFromU64AsWritten(val: u64)
    ensures ToU64(FromU64(val)) == val <==>
      (val / 0x1000) % 0x400_0000 < 0x8_0000 ||
      (val / 0x40_0000_0000 == 0x3FF_FFFF && (val / 0x1000) % 0x400_0000 >= 0x3F8_0000)
  {
    var a, b, c := val / 0x40_0000_0000, (val / 0x1000) % 0x400_0000, val % 0x1000;
    var p := FromU64(val);
    FieldsOfU64(val);
    ModOfMultipleModulus(p.z, 0x10_0000, 0x40);
    assert ZLow(p.z) == b % 0x10_0000;
    KeptFields(a, b, c, XFieldAsWritten(p), ZFieldAsWritten(p));
  }

  /** The fields `to_u64` writes back after `from_u64` read fields a, b, c: equal to them exactly when z is below 2^19 or x and z are all ones from bit 19 up. */
  lemma KeptFields(a: nat, b: nat, c: nat, xf: nat, zf: nat)
    requires a < 0x400_0000 && b < 0x400_0000 && c < 0x1000
    requires xf == if b % 0x10_0000 >= 0x8_0000 then 0x3FF_FFFF else a
    requires zf == if b % 0x10_0000 >= 0x8_0000 then 0x3F0_0000 + b % 0x10_0000 else b % 0x10_0000
    ensures xf * 0x40_0000_0000 + zf * 0x1000 + c == a * 0x40_0000_0000 + b * 0x1000 + c <==>
      (b < 0x8_0000 || (a == 0x3FF_FFFF && b >= 0x3F8_0000))
  {
    FieldsDetermine(xf, zf, c, a, b, c);
    ZFieldKept(b);
  }

  /** Which z fields `to_u64` writes back unchanged after `from_u64` has read them. */
  lemma ZFieldKept(b: nat)
    requires b < 0x400_0000
    ensures b % 0x10_0000 < 0x8_0000 ==> (b % 0x10_0000 == b <==> b < 0x8_0000)
    ensures b % 0x10_0000 >= 0x8_0000 ==> (0x3F0_0000 + b % 0x10_0000 == b <==> b >= 0x3F8_0000)
  {
  }

  // ---------------------------------------------------------------------------
  // The packing evidently intended: the z term widened before the shift
  // ---------------------------------------------------------------------------

  /** `((z & 0x3FFFFFF) as u64) << 12`, the z term done in u64 like the x term. */
  function ZTermIntended(z: i32): nat {
    (z % 0x400_0000) * 0x1000
  }

  /** `to_u64` with the z term computed in u64: the three fields side by side. */
  function ToU64Intended(p: Position): (val: u64)
    ensures val == (p.x % 0x400_0000) * 0x40_0000_0000 + (p.z % 0x400_0000) * 0x1000 + p.y % 0x1000
  {
    OrOfFields(p.x % 0x400_0000, p.z % 0x400_0000, p.y % 0x1000);
    Or(Or(XTerm(p.x), ZTermIntended(p.z)), YTerm(p.y))
  }

  /** With the intended packing every position that fits comes back unchanged. */
  lemma RoundTripIntended(p: Position)
    requires Fits(p)
    ensures FromU64(ToU64Intended(p)) == p
  {
    FromU64Fields(p.x % 0x400_0000, p.z % 0x400_0000, p.y % 0x1000);
    SignExtendInverts(p.x);
    SignExtendInverts(p.y);
    SignExtendInverts(p.z);
  }

  /** With the intended packing nothing is lost the other way either: every u64 re-encodes to itself. */
  lemma DecodeEncodeIntended(val: u64)
    ensures ToU64Intended(FromU64(val)) == val
  {
    FieldsOfU64(val);
  }

  /**
   * Where the two packings agree, for positions that fit: exactly where the
   * as-written round trip succeeds, 0 <= z < 2^19, or -2^19 <= z < 0 with
   * x == -1.
   */
  lemma PackingsAgree(p: Position)
    requires Fits(p)
    ensures ToU64(p) == ToU64Intended(p) <==>
      (0 <= p.z < 0x8_0000 || (-0x8_0000 <= p.z < 0 && p.x == -1))
  {
    FieldsDetermine(XFieldAsWritten(p), ZFieldAsWritten(p), p.y % 0x1000,
                    p.x % 0x400_0000, p.z % 0x400_0000, p.y % 0x1000);
    FieldsAgree(p);
  }

  /** The fields `to_u64` writes are x's and z's own low 26 bits exactly in the round-trip cases. */
  lemma FieldsAgree(p: Position)
    requires Fits(p)
    ensures XFieldAsWritten(p) == p.x % 0x400_0000 && ZFieldAsWritten(p) == p.z % 0x400_0000
        <==> (0 <= p.z < 0x8_0000 || (-0x8_0000 <= p.z < 0 && p.x == -1))
  {
    var z := p.z;
    if z >= 0 {
      assert z % 0x400_0000 == z;
    } else {
      assert z % 0x400_0000 == z + 0x400_0000;
      if z >= -0x10_0000 {
        assert ZLow(z) == z + 0x10_0000;
      } else {
        assert ZLow(z) == (z + 0x400_0000) % 0x10_0000;
      }
    }
    if p.x < 0 {
      assert p.x % 0x400_0000 == p.x + 0x400_0000;
    }
  }

  /** The failing test of position.rs passes with the intended packing. */
  lemma NegativeTestRoundTripsIntended()
    ensures FromU64(ToU64Intended(Position(-1560, -333, -9696))) == Position(-1560, -333, -9696)
  {
    RoundTripIntended(Position(-1560, -333, -9696));
  }
}
