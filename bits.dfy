/**
 * Unsigned bit-level arithmetic on naturals, shared by the two codecs:
 * powers of two, the bitwise OR of Rust's `|` on unsigned integers, and the
 * two facts about OR the codecs rely on (OR of non-overlapping bit ranges is
 * addition; OR into a run of ones changes nothing).
 */
module Bits {

  function Pow2(k: nat): (r: nat)
    ensures r >= 1
  {
    if k == 0 then 1 else 2 * Pow2(k - 1)
  }

  lemma {:induction false} Pow2Add(a: nat, b: nat)
    ensures Pow2(a + b) == Pow2(a) * Pow2(b)
  {
    if a > 0 {
      Pow2Add(a - 1, b);
    }
  }

  lemma {:induction false} Pow2Monotone(a: nat, b: nat)
    requires a <= b
    ensures Pow2(a) <= Pow2(b)
  {
    if a < b {
      Pow2Monotone(a, b - 1);
    }
  }

  // The powers of two the codecs use, as literals, each from a smaller one.

  lemma Pow2Small()
    ensures Pow2(4) == 0x10 && Pow2(6) == 0x40 && Pow2(7) == 0x80 && Pow2(8) == 0x100
  {
  }

  lemma Pow2Of12() ensures Pow2(12) == 0x1000 { Pow2Small(); Pow2Add(8, 4); }
  lemma Pow2Of16() ensures Pow2(16) == 0x1_0000 { Pow2Small(); Pow2Add(8, 8); }
  lemma Pow2Of20() ensures Pow2(20) == 0x10_0000 { Pow2Of16(); Pow2Small(); Pow2Add(16, 4); }
  lemma Pow2Of24() ensures Pow2(24) == 0x100_0000 { Pow2Of16(); Pow2Small(); Pow2Add(16, 8); }
  lemma Pow2Of25() ensures Pow2(25) == 0x200_0000 { Pow2Of24(); assert Pow2(25) == 2 * Pow2(24); }
  lemma Pow2Of26() ensures Pow2(26) == 0x400_0000 { Pow2Of25(); assert Pow2(26) == 2 * Pow2(25); }
  lemma Pow2Of32() ensures Pow2(32) == 0x1_0000_0000 { Pow2Of16(); Pow2Add(16, 16); }
  lemma Pow2Of31() ensures Pow2(31) == 0x8000_0000 { Pow2Of32(); assert Pow2(32) == 2 * Pow2(31); }
  lemma Pow2Of38() ensures Pow2(38) == 0x40_0000_0000 { Pow2Of32(); Pow2Small(); Pow2Add(32, 6); }
  lemma Pow2Of64() ensures Pow2(64) == 0x1_0000_0000_0000_0000 { Pow2Of32(); Pow2Add(32, 32); }
  lemma Pow2Of63() ensures Pow2(63) == 0x8000_0000_0000_0000 { Pow2Of64(); assert Pow2(64) == 2 * Pow2(63); }

  /** Bitwise OR of two naturals, one bit at a time from the least significant end. */
  function Or(a: nat, b: nat): nat
    decreases a
  {
    if a == 0 then b
    else if b == 0 then a
    else 2 * Or(a / 2, b / 2) + (if a % 2 == 1 || b % 2 == 1 then 1 else 0)
  }

  /** OR does not depend on the order of its operands. */
  lemma {:induction false} OrCommutes(a: nat, b: nat)
    ensures Or(a, b) == Or(b, a)
    decreases a
  {
    if a != 0 && b != 0 {
      OrCommutes(a / 2, b / 2);
    }
  }

  /** OR of a multiple of 2^k and a value below 2^k: the bits do not overlap, so OR is addition. */
  lemma {:induction false} OrDisjoint(m: nat, k: nat, b: nat)
    requires b < Pow2(k)
    ensures Or(m * Pow2(k), b) == m * Pow2(k) + b
  {
    var a := m * Pow2(k);
    if a != 0 && b != 0 {
      assert k > 0;
      assert a == 2 * (m * Pow2(k - 1));
      OrDisjoint(m, k - 1, b / 2);
    }
  }

  /** OR does not set bits above the highest bit of its operands. */
  lemma {:induction false} OrBound(a: nat, b: nat, k: nat)
    requires a < Pow2(k) && b < Pow2(k)
    ensures Or(a, b) < Pow2(k)
    decreases a
  {
    if a != 0 && b != 0 {
      assert k > 0;
      OrBound(a / 2, b / 2, k - 1);
    }
  }

  /** OR of a value below 2^j into the j-bit run of ones 2^j - 1 leaves the ones. */
  lemma {:induction false} OrIntoOnes(m: nat, j: nat)
    requires m < Pow2(j)
    ensures Or(m, Pow2(j) - 1) == Pow2(j) - 1
  {
    if m != 0 {
      assert j > 0;
      OrIntoOnes(m / 2, j - 1);
    }
  }

  /**
   * OR of an h-bit field placed at bit k into a value whose bits k .. k+h-1
   * are all ones leaves that value unchanged.
   */
  lemma {:induction false} OrAbsorbed(m: nat, k: nat, h: nat, c: nat)
    requires m < Pow2(h) && c < Pow2(k)
    ensures Or(m * Pow2(k), (Pow2(h) - 1) * Pow2(k) + c) == (Pow2(h) - 1) * Pow2(k) + c
  {
    var ones := Pow2(h) - 1;
    if k == 0 {
      OrIntoOnes(m, h);
    } else if m != 0 {
      var half := Pow2(k - 1);
      var a := m * Pow2(k);
      var b := ones * Pow2(k) + c;
      ShiftedHalves(m, half, 0);
      ShiftedHalves(ones, half, c);
      OrAbsorbed(m, k - 1, h, c / 2);
    }
  }

  /** Halving a value x * 2^k + c with c < 2^k, k > 0, halves both parts. */
  lemma ShiftedHalves(x: nat, half: nat, c: nat)
    requires c < 2 * half
    ensures (x * (2 * half) + c) / 2 == x * half + c / 2
    ensures (x * (2 * half) + c) % 2 == c % 2
    ensures x > 0 && half > 0 ==> x * (2 * half) + c > 0
  {
  }

  // Euclidean division facts, stated once so that callers need not rely on
  // the solver's nonlinear arithmetic.

  lemma {:induction false} MulAtLeast(d: int, m: int)
    requires d >= 1 && m > 0
    ensures d * m >= m
    decreases d
  {
    if d > 1 {
      MulAtLeast(d - 1, m);
      assert d * m == (d - 1) * m + m;
    }
  }

  /** Quotient and remainder are unique: a == q * m + r with 0 <= r < m fixes both. */
  lemma DivModUnique(a: int, q: int, m: int, r: int)
    requires m > 0 && 0 <= r < m && a == q * m + r
    ensures a % m == r && a / m == q
  {
    var q', r' := a / m, a % m;
    assert (q - q') * m == r' - r;
    if q - q' >= 1 {
      MulAtLeast(q - q', m);
    } else if q' - q >= 1 {
      MulAtLeast(q' - q, m);
    }
  }

  /** Dividing by a and then by b is dividing by a * b. */
  lemma DivDiv(u: nat, a: nat, b: nat)
    requires a > 0 && b > 0
    ensures u / a / b == u / (a * b)
  {
    var q := u / a / b;
    var r := u / a % b;
    assert u / a == q * b + r;
    assert u == (q * b + r) * a + u % a;
    assert u == q * (a * b) + (r * a + u % a);
    assert r * a <= (b - 1) * a;
    DivModUnique(u, q, a * b, r * a + u % a);
  }

  /** Multiplying a sum whose second term is a product by k: k * (g + d * l) == k * g + d * (k * l). */
  lemma MulIntoSum(k: int, g: int, d: int, l: int)
    ensures k * (g + d * l) == k * g + d * (k * l)
  {
    assert k * (g + d * l) == k * g + k * (d * l);
    assert k * (d * l) == d * (k * l);
  }

  /** A quotient is below p exactly when the dividend is below d * p. */
  lemma DivBelow(u: nat, d: nat, p: nat)
    requires d > 0
    ensures u / d < p <==> u < d * p
  {
    var q, r := u / d, u % d;
    assert u == q * d + r;
    if q < p {
      MulMonotone(q + 1, p, d);
      assert (q + 1) * d == q * d + d;
    } else {
      MulMonotone(p, q, d);
    }
    assert d * p == p * d;
  }

  lemma MulMonotone(a: int, b: int, c: int)
    requires a <= b && c >= 0
    ensures a * c <= b * c
  {
    if a < b && c > 0 {
      MulAtLeast(b - a, c);
      assert (b - a) * c == b * c - a * c;
    }
  }

  /** Splitting x at Q splits x * P at P * Q. */
  lemma SplitProduct(x: nat, P: nat, Q: nat)
    requires Q > 0
    ensures x * P == (x / Q) * (P * Q) + (x % Q) * P
  {
    var hi, lo := x / Q, x % Q;
    assert x * P == (hi * Q + lo) * P;
    assert (hi * Q + lo) * P == (hi * Q) * P + lo * P;
    assert (hi * Q) * P == hi * (P * Q);
  }

  lemma BelowProduct(g: nat, lo: nat, P: nat, Q: nat)
    requires g < P && lo < Q
    ensures g + lo * P < P * Q
  {
    MulMonotone(lo, Q - 1, P);
    assert (Q - 1) * P == Q * P - P;
  }

  lemma ModAfterMultiple(k: int, m: nat, a: int)
    requires m > 0
    ensures (k * m + a) % m == a % m
  {
    assert k * m + a == (k + a / m) * m + a % m;
    DivModUnique(k * m + a, k + a / m, m, a % m);
  }

  /** Reducing modulo a multiple of Q first does not change the remainder modulo Q. */
  lemma ModOfMultipleModulus(b: int, Q: nat, R: nat)
    requires Q > 0 && R > 0
    ensures (b % (Q * R)) % Q == b % Q
  {
    var d := b / (Q * R);
    assert b == d * (Q * R) + b % (Q * R);
    assert d * (Q * R) == (d * R) * Q;
    ModAfterMultiple(d * R, Q, b % (Q * R));
  }

  /**
   * Placing x at bit p above g < 2^p and truncating to p + q bits keeps g and
   * the low q bits of x.
   */
  lemma ShiftedMod(g: nat, x: nat, p: nat, q: nat)
    requires g < Pow2(p)
    ensures (g + x * Pow2(p)) % Pow2(p + q) == g + (x % Pow2(q)) * Pow2(p)
    ensures (x * Pow2(p)) % Pow2(p + q) == (x % Pow2(q)) * Pow2(p)
  {
    Pow2Add(p, q);
    var P, Q := Pow2(p), Pow2(q);
    SplitProduct(x, P, Q);
    BelowProduct(g, x % Q, P, Q);
    DivModUnique(g + x * P, x / Q, P * Q, g + (x % Q) * P);
    DivModUnique(x * P, x / Q, P * Q, (x % Q) * P);
  }

  /**
   * OR-ing a value x placed at bit p into g < 2^p, both truncated to W >= p
   * bits, is adding them and truncating the sum.
   */
  lemma OrShiftedMod(g: nat, x: nat, p: nat, W: nat)
    requires g < Pow2(p) && p <= W
    ensures Or(g % Pow2(W), (x * Pow2(p)) % Pow2(W)) == (g + x * Pow2(p)) % Pow2(W)
  {
    var q := W - p;
    Pow2Monotone(p, W);
    DivModUnique(g, 0, Pow2(W), g);
    ShiftedMod(g, x, p, q);
    var hi := (x % Pow2(q)) * Pow2(p);
    OrCommutes(g, hi);
    OrDisjoint(x % Pow2(q), p, g);
  }
}
