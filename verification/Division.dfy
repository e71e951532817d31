/** The 64-bit division of stage1.5/math64.c, built from 32-bit word operations only
    (The Art of Computer Programming, vol. 2, section 4.3.1, Algorithm D, for two-word operands). */
module Division {
  import opened Words
  import opened Wrappers

  /** The two-word number with the given high and low word. */
  function Join(high: Word, low: Word): (v: DWord)
    ensures v % B32 == low && v / B32 == high
  {
    high * B32 + low
  }

  // ---- The word-level primitives -----------------------------------------------------------

  /** `udiv_qrnnd`: the processor's two-by-one division. It faults unless the high word of the
      dividend is below the divisor, so that is a precondition every call site must meet. */
  function UDivQrnnd(n1: Word, n0: Word, dv: Word): (qr: (Word, Word))
    requires n1 < dv
    ensures qr.0 * dv + qr.1 == n1 * B32 + n0 && qr.1 < dv
  {
    var n := n1 * B32 + n0;
    QuotientFits(n1, n0, dv);
    (n / dv, n % dv)
  }

  lemma QuotientFits(n1: Word, n0: Word, dv: Word)
    requires n1 < dv
    ensures (n1 * B32 + n0) / dv < B32
  {
    var q := (n1 * B32 + n0) / dv;
    assert q * dv <= n1 * B32 + n0 < (n1 + 1) * B32 <= dv * B32;
    MulStrict(dv, q, B32);
  }

  /** `umul_ppmm`: the full product of two words, as its high and low word. */
  function UMulPpmm(u: Word, v: Word): (p: (Word, Word))
    ensures p.0 * B32 + p.1 == u * v
  {
    assert u * v < B32 * B32 by { MulMonotone(u, v, B32); MulMonotone(B32, u, B32 - 1); }
    (u * v / B32, u * v % B32)
  }

  /** `sub_ddmmss`: subtract low words, then high words with borrow; a final borrow is dropped. */
  function SubDdmmss(ah: Word, al: Word, bh: Word, bl: Word): (s: (Word, Word))
    ensures Join(s.0, s.1) ==
            Join(ah, al) - Join(bh, bl) + if Join(ah, al) >= Join(bh, bl) then 0 else B64
  {
    var borrow := if al < bl then 1 else 0;
    WrapWord(al - bl);
    WrapWord(ah - bh - borrow);
    ((ah - bh - borrow) % B32, (al - bl) % B32)
  }

  lemma WrapWord(x: int)
    requires 0 <= x + B32 < 2 * B32
    ensures x % B32 == if x >= 0 then x else x + B32
  {
  }

  /** `count_leading_zeros` of a nonzero word. */
  function Clz(x: Word): (k: nat)
    requires x > 0
    ensures k < 32 && 0x8000_0000 <= x * Pow2(k) < B32
    decreases B32 - x
  {
    if x >= 0x8000_0000 then 0
    else
      var k := 1 + Clz(2 * x);
      assert x * Pow2(k) == (2 * x) * Pow2(k - 1);
      ShiftBelow32(x, k);
      k
  }

  lemma ShiftBelow32(x: nat, k: nat)
    requires x >= 1 && x * Pow2(k) < B32
    ensures k < 32
  {
    Pow2Of32();
    MulMonotone(Pow2(k), 1, x);
    if k >= 32 {
      Pow2Monotone(32, k);
    }
  }

  function Shl(x: Word, k: nat): (r: Word) { x * Pow2(k) % B32 }

  function Shr(x: Word, k: nat): (r: Word) { DivAtMost(x, Pow2(k)); x / Pow2(k) }

  // ---- Normalisation -----------------------------------------------------------------------

  /** Shifting a word left by k splits it into the k bits that leave and the word that stays. */
  lemma ShiftSplit(x: Word, k: nat)
    requires 0 < k < 32
    ensures Shr(x, 32 - k) * B32 + Shl(x, k) == x * Pow2(k)
    ensures Shl(x, k) % Pow2(k) == 0 && Shr(x, 32 - k) < Pow2(k)
    ensures x < Pow2(32 - k) ==> Shr(x, 32 - k) == 0
  {
    Pow2Add(k, 32 - k);
    Pow2Of32();
    ScaleSplit(x, Pow2(k), Pow2(32 - k));
  }

  lemma ScaleSplit(x: nat, s: nat, t: nat)
    requires x < B32 && s * t == B32 && s > 0 && t > 0
    ensures (x / t) * B32 + (x * s) % B32 == x * s
    ensures ((x * s) % B32) % s == 0 && x / t < s
    ensures x < t ==> x / t == 0
  {
    var h, l := x / t, x % t;
    ScaleParts(x, h, l, s, t, B32);
    QuotientIs(x * s, B32, h, l * s);
    QuotientIs(l * s, s, l, 0);
    if x < t {
      QuotientIs(x, t, 0, x);
    }
  }

  lemma ScaleParts(x: nat, h: nat, l: nat, s: nat, t: nat, m: nat)
    requires s * t == m && s > 0 && x == h * t + l && l < t
    ensures x * s == h * m + l * s && l * s < m
    ensures x < m ==> h < s
  {
    assert x * s == (h * t) * s + l * s;
    assert (h * t) * s == h * (t * s);
    MulMonotone(s, l + 1, t);
    if x < m {
      MulStrict(t, h, s);
    }
  }

  /** The word `(hi << k) | (lo >> (32 - k))`. */
  function Funnel(hi: Word, lo: Word, k: nat): (r: nat)
    requires k <= 32
  {
    BitOr(Shl(hi, k), Shr(lo, 32 - k))
  }

  /** Shifting a two-word number left by k yields three words worth the number times 2^k. */
  lemma Normalise(n1: Word, n0: Word, k: nat)
    requires 0 < k < 32
    ensures Funnel(n1, n0, k) < B32
    ensures (Shr(n1, 32 - k) * B32 + Funnel(n1, n0, k)) * B32 + Shl(n0, k) == Join(n1, n0) * Pow2(k)
    ensures Shr(n1, 32 - k) < Pow2(k)
    ensures n1 < Pow2(32 - k) ==> Shr(n1, 32 - k) == 0
    ensures Shl(n0, k) % Pow2(k) == 0
  {
    var s := Pow2(k);
    ShiftSplit(n1, k);
    ShiftSplit(n0, k);
    OrIsSum(Shl(n1, k), Shr(n0, 32 - k), k);
    assert Shl(n1, k) + s <= B32 by {
      Pow2Add(k, 32 - k);
      Pow2Of32();
      MultiplesApart(Shl(n1, k), B32, s, Pow2(32 - k));
    }
    ScaleJoin(n1, n0, s);
  }

  lemma ScaleJoin(n1: nat, n0: nat, s: nat)
    ensures (n1 * B32 + n0) * s == (n1 * s) * B32 + n0 * s
  {
  }

  /** A multiple of s below another multiple of s is at least s below it. */
  lemma MultiplesApart(a: nat, m: nat, s: nat, t: nat)
    requires s > 0 && a % s == 0 && m == s * t && a < m
    ensures a + s <= m
  {
    var q := a / s;
    assert a == q * s;
    MulStrict(s, q, t);
    MulMonotone(s, q + 1, t);
  }

  /** What normalising gains: dividing both operands scaled by s gives the same quotient and s
      times the remainder. */
  lemma Unscale(n: nat, d: nat, s: nat, q: nat, r: nat)
    requires d > 0 && s > 0
    requires q * (d * s) + r == n * s && r < d * s
    ensures q == n / d && r % s == 0 && r / s == n % d
  {
    var m := n - q * d;
    assert r == m * s by {
      assert q * (d * s) == (q * d) * s;
    }
    assert m >= 0 by {
      assert m < 0 ==> m * s < 0;
    }
    MulStrict(s, m, d);
    QuotientIs(n, d, q, m);
    QuotientIs(r, s, m, 0);
  }

  // ---- The trial quotient ------------------------------------------------------------------

  /** The trial quotient q0 = floor(top two words / d1) of the two-word divisor (d1, d0) is never too
      small and at most one too large; its error shows in the product q0 * d0. */
  lemma TrialQuotient(num: nat, n0: Word, d1: Word, d0: Word, q0: Word, r: Word, s: nat, t: nat)
    requires 0x8000_0000 <= d1 && s * t == B32 && s >= 1 && t >= 2
    requires num < s * B32 && q0 * d1 + r == num && r < d1
    requires d0 % s == 0
    ensures q0 * d0 < d1 * B32
    ensures q0 * d0 <= r * B32 + n0 ==> q0 == (num * B32 + n0) / Join(d1, d0)
    ensures q0 * d0 > r * B32 + n0 ==> q0 >= 1 && q0 - 1 == (num * B32 + n0) / Join(d1, d0)
  {
    TrialBound(num, d1, q0, s);
    ProductBound(d0, q0, s, t);
    var d, n := Join(d1, d0), num * B32 + n0;
    var x := r * B32 + n0 - q0 * d0;
    TrialError(num, n0, d1, d0, q0, r);
    if x >= 0 {
      QuotientIs(n, d, q0, x);
    } else {
      assert q0 * d == (q0 - 1) * d + d;
      QuotientIs(n, d, q0 - 1, x + d);
    }
  }

  lemma TrialError(num: nat, n0: Word, d1: Word, d0: Word, q0: Word, r: Word)
    requires q0 * d1 + r == num && r < d1
    ensures num * B32 + n0 == q0 * Join(d1, d0) + (r * B32 + n0 - q0 * d0)
    ensures r * B32 + n0 - q0 * d0 < Join(d1, d0)
  {
    assert num * B32 == (q0 * d1) * B32 + r * B32;
    ScaleJoin(d1, d0, q0);
  }

  lemma TrialBound(num: nat, d1: Word, q0: Word, s: nat)
    requires 0x8000_0000 <= d1 && num < s * B32 && q0 * d1 <= num
    ensures q0 < 2 * s
  {
    MulMonotone(2 * s, 0x8000_0000, d1);
    MulStrict(d1, q0, 2 * s);
  }

  lemma ProductBound(d0: Word, q0: Word, s: nat, t: nat)
    requires s * t == B32 && s >= 1 && t >= 2 && d0 % s == 0 && q0 < 2 * s
    ensures q0 * d0 < 0x8000_0000 * B32
  {
    MultiplesApart(d0, B32, s, t);
    MulMonotone(s, 2, t);
    assert q0 * d0 <= (2 * s - 1) * (B32 - s) by {
      MulMonotone(q0, d0, B32 - s);
      MulMonotone(B32 - s, q0, 2 * s - 1);
    }
    var h := 0x8000_0000 - s;
    assert h * h >= 0;
    assert 2 * (s * (B32 - s)) == 2 * (0x8000_0000 * 0x8000_0000) - 2 * (h * h);
  }

  /** Undoing the normalising shift on a two-word remainder. */
  lemma Denormalise(n1: Word, n0: Word, k: nat)
    requires 0 < k < 32
    ensures Funnel(n1, n0, 32 - k) < B32
    ensures Join(Shr(n1, k), Funnel(n1, n0, 32 - k)) == Join(n1, n0) / Pow2(k)
  {
    var b := 32 - k;
    var hi, lo := Shl(n1, b), Shr(n0, k);
    assert hi % Pow2(b) == 0 && Shr(n1, k) * B32 + hi == n1 * Pow2(b) by {
      ShiftSplit(n1, b);
    }
    assert Pow2(b) * Pow2(k) == B32 by {
      Pow2Add(b, k);
      Pow2Of32();
    }
    assert lo < Pow2(b) by {
      ScaleSplit(n0, Pow2(b), Pow2(k));
    }
    MultiplesApart(hi, B32, Pow2(b), Pow2(k));
    OrIsSum(hi, lo, b);
    assert Pow2(k) * Pow2(b) == B32;
    UnscaleJoin(n1, n0, Pow2(k), Pow2(b));
  }

  lemma UnscaleJoin(n1: nat, n0: nat, s: nat, t: nat)
    requires s > 0 && s * t == B32
    ensures n1 * t + n0 / s == (n1 * B32 + n0) / s
  {
    var h, l := n0 / s, n0 % s;
    assert n1 * (s * t) == (n1 * t) * s;
    QuotientIs(n1 * B32 + n0, s, n1 * t + h, l);
  }

  // ---- The division itself -----------------------------------------------------------------

  /** The variable `rp` points to. */
  class Remainder {
    var ll: DWord
    constructor (v: DWord)
      ensures ll == v
    {
      ll := v;
    }
  }

  /** `__udivmoddi4`: the quotient of n by d; the remainder is stored through `rp` unless it is null.
      A zero divisor is divided by on purpose, which faults (`None`) and stores nothing. */
  method UDivModDi4(n: DWord, d: DWord, rp: Remainder?) returns (w: Option<DWord>)
    modifies if rp == null then {} else {rp}
    ensures w == if d == 0 then None else Some(n / d)
    ensures rp != null ==> rp.ll == if d == 0 then old(rp.ll) else n % d
  {
    var d0, d1 := d % B32, d / B32;
    var n0, n1 := n % B32, n / B32;
    var q0, q1: Word;
    if d1 == 0 {
      if d0 <= n1 && d0 == 0 {
        return None;
      }
      if d0 > n1 {
        q0 := DivideShort(n1, n0, d0, rp);
        q1 := 0;
      } else {
        q1, q0 := DivideLong(n1, n0, d0, rp);
      }
    } else {
      q0 := DivideByTwoWords(n1, n0, d1, d0, rp);
      q1 := 0;
    }
    w := Some(Join(q1, q0));
    assert Join(q1, q0) == n / d;
  }

  /** `__udivdi3`: the quotient alone. */
  method UDivDi3(n: DWord, d: DWord) returns (w: Option<DWord>)
    ensures w == if d == 0 then None else Some(n / d)
  {
    w := UDivModDi4(n, d, null);
  }

  /** `__umoddi3`: the remainder alone, through a local `w`. */
  method UModDi3(u: DWord, v: DWord) returns (r: Option<DWord>)
    ensures r == if v == 0 then None else Some(u % v)
  {
    var w := new Remainder(0);
    var q := UDivModDi4(u, v, w);
    r := if q == None then None else Some(w.ll);
  }

  /** One-word divisor above the high word of the dividend: a one-word quotient. */
  method DivideShort(n1: Word, n0: Word, d0: Word, rp: Remainder?) returns (q0: Word)
    requires n1 < d0
    modifies if rp == null then {} else {rp}
    ensures q0 == Join(n1, n0) / d0
    ensures rp != null ==> rp.ll == Join(n1, n0) % d0
  {
    var d0, n1, n0 := d0, n1, n0;
    ghost var n, d := Join(n1, n0), d0;
    var bm := Clz(d0);
    if bm != 0 {
      Normalise(n1, n0, bm);
      ShiftedDivisor(d0, bm);
      ShortDividend(n1, d0, bm);
      d0 := Shl(d0, bm);
      n1 := Funnel(n1, n0, bm);
      n0 := Shl(n0, bm);
      HighWordBelow(n1, n0, d0, n, d, Pow2(bm));
    }
    var qr := UDivQrnnd(n1, n0, d0);
    q0, n0 := qr.0, qr.1;
    Unscale(n, d, Pow2(bm), q0, n0);
    if rp != null {
      rp.ll := Join(0, Shr(n0, bm));
    }
  }

  /** One-word divisor not above the high word of the dividend: a two-word quotient. */
  method DivideLong(n1: Word, n0: Word, d0: Word, rp: Remainder?) returns (q1: Word, q0: Word)
    requires 0 < d0 <= n1
    modifies if rp == null then {} else {rp}
    ensures Join(q1, q0) == Join(n1, n0) / d0
    ensures rp != null ==> rp.ll == Join(n1, n0) % d0
  {
    var d0, n1, n0 := d0, n1, n0;
    ghost var n, d := Join(n1, n0), d0;
    var bm := Clz(d0);
    if bm == 0 {
      n1 := n1 - d0;
      q1 := 1;
    } else {
      var b := 32 - bm;
      Normalise(n1, n0, bm);
      ShiftedDivisor(d0, bm);
      d0 := Shl(d0, bm);
      var n2 := Shr(n1, b);
      n1 := Funnel(n1, n0, bm);
      n0 := Shl(n0, bm);
      assert n2 < d0 by { Pow2Of32(); Pow2Monotone(bm, 31); }
      var qr := UDivQrnnd(n2, n1, d0);
      q1, n1 := qr.0, qr.1;
    }
    assert (q1 * d0 + n1) * B32 + n0 == n * Pow2(bm) && n1 < d0;
    var qr := UDivQrnnd(n1, n0, d0);
    TwoDigits(q1, n1, qr.0, qr.1, n0, d0, n * Pow2(bm));
    q0, n0 := qr.0, qr.1;
    assert d0 == d * Pow2(bm);
    Unscale(n, d, Pow2(bm), Join(q1, q0), n0);
    if rp != null {
      rp.ll := Join(0, Shr(n0, bm));
    }
  }

  /** Two steps of schoolbook division give the two digits of the quotient. */
  lemma TwoDigits(q1: Word, r1: Word, q0: Word, r0: Word, n0: Word, d: Word, n: nat)
    requires (q1 * d + r1) * B32 + n0 == n && q0 * d + r0 == r1 * B32 + n0
    ensures Join(q1, q0) * d + r0 == n
  {
    ScaleJoin(q1, q0, d);
    assert (q1 * d + r1) * B32 == q1 * d * B32 + r1 * B32;
  }

  /** A normalised divisor loses no bit to the shift. */
  lemma ShiftedDivisor(d0: Word, k: nat)
    requires d0 * Pow2(k) < B32
    ensures Shl(d0, k) == d0 * Pow2(k)
  {
  }

  /** The shift pushes nothing out of a high word that is below the divisor. */
  lemma ShortDividend(n1: Word, d0: Word, k: nat)
    requires n1 < d0 && d0 * Pow2(k) < B32 && k < 32
    ensures n1 < Pow2(32 - k)
  {
    ShortDivisor(d0, k);
  }

  /** Scaling keeps the high word of the dividend below the divisor, so the division cannot fault. */
  lemma HighWordBelow(n1: Word, n0: Word, d0: Word, n: nat, d: nat, s: nat)
    requires s >= 1 && d0 == d * s && Join(n1, n0) == n * s && n < d * B32
    ensures n1 < d0
  {
    assert n * s < (d * B32) * s;
    assert (d * B32) * s == d0 * B32;
    MulStrict(B32, n1, d0);
  }

  /** A two-word divisor: a one-word quotient and a two-word remainder. */
  method DivideByTwoWords(n1: Word, n0: Word, d1: Word, d0: Word, rp: Remainder?) returns (q0: Word)
    requires d1 != 0
    modifies if rp == null then {} else {rp}
    ensures q0 == Join(n1, n0) / Join(d1, d0)
    ensures rp != null ==> rp.ll == Join(n1, n0) % Join(d1, d0)
  {
    var n1, n0 := n1, n0;
    ghost var n, d := Join(n1, n0), Join(d1, d0);
    if d1 > n1 {
      QuotientIs(n, d, 0, n);
      q0 := 0;
      if rp != null {
        rp.ll := Join(n1, n0);
      }
      return;
    }
    var bm := Clz(d1);
    if bm == 0 {
      if n1 > d1 || n0 >= d0 {
        q0 := 1;
        var s := SubDdmmss(n1, n0, d1, d0);
        n1, n0 := s.0, s.1;
      } else {
        q0 := 0;
      }
      QuotientIs(n, d, q0, Join(n1, n0));
      if rp != null {
        rp.ll := Join(n1, n0);
      }
    } else {
      q0 := DivideNormalised(n1, n0, d1, d0, bm, rp);
    }
  }

  /** The two-word divisor with leading zeros: normalise, divide, multiply back, correct once. */
  method DivideNormalised(n1: Word, n0: Word, d1: Word, d0: Word, bm: nat, rp: Remainder?) returns (q0: Word)
    requires 0 < d1 <= n1 && bm == Clz(d1) && bm != 0
    modifies if rp == null then {} else {rp}
    ensures q0 == Join(n1, n0) / Join(d1, d0)
    ensures rp != null ==> rp.ll == Join(n1, n0) % Join(d1, d0)
  {
    var d1, d0, n1, n0 := d1, d0, n1, n0;
    ghost var n, d, s := Join(n1, n0), Join(d1, d0), Pow2(bm);
    var b := 32 - bm;
    NormaliseDivisor(d1, d0, bm);
    Normalise(n1, n0, bm);
    d1 := Funnel(d1, d0, bm);
    d0 := Shl(d0, bm);
    var n2 := Shr(n1, b);
    n1 := Funnel(n1, n0, bm);
    n0 := Shl(n0, bm);
    assert n2 < d1 by { Pow2Of32(); Pow2Monotone(bm, 31); }
    ghost var num := n2 * B32 + n1;
    var qr := UDivQrnnd(n2, n1, d1);
    q0, n1 := qr.0, qr.1;
    ghost var x := Corrected(n, d, num, n1, n0, d1, d0, q0, bm);
    var m := UMulPpmm(q0, d0);
    var m1, m0 := m.0, m.1;
    if m1 > n1 || (m1 == n1 && m0 > n0) {
      q0 := q0 - 1;
      var mm := SubDdmmss(m1, m0, d1, d0);
      m1, m0 := mm.0, mm.1;
      // the subtraction borrowed: (m1, m0) is below zero by at most the divisor
      assert Join(m1, m0) == Join(n1, n0) - x + B64;
    } else {
      assert Join(m1, m0) == Join(n1, n0) - x;
    }
    Unscale(n, d, s, q0, x);
    if rp != null {
      var nn := SubDdmmss(n1, n0, m1, m0);
      n1, n0 := nn.0, nn.1;
      assert Join(n1, n0) == x;
      Denormalise(n1, n0, bm);
      rp.ll := Join(Shr(n1, bm), Funnel(n1, n0, b));
    }
  }

  /** Normalising sets the top bit of the divisor and loses none. */
  lemma NormaliseDivisor(d1: Word, d0: Word, k: nat)
    requires d1 > 0 && k == Clz(d1) && k != 0
    ensures 0x8000_0000 <= Funnel(d1, d0, k) < B32
    ensures Join(Funnel(d1, d0, k), Shl(d0, k)) == Join(d1, d0) * Pow2(k)
    ensures Shl(d0, k) % Pow2(k) == 0
  {
    hide Funnel, Shl, Clz, Pow2;
    Normalise(d1, d0, k);
    ShortDivisor(d1, k);
    ScaleJoin(d1, d0, Pow2(k));
    TopBit(Funnel(d1, d0, k), Shl(d0, k), d1 * Pow2(k), d0 * Pow2(k));
  }

  lemma TopBit(h: Word, l: Word, top: nat, rest: nat)
    requires h * B32 + l == top * B32 + rest && top >= 0x8000_0000
    ensures h >= 0x8000_0000
  {
  }

  lemma ShortDivisor(d1: Word, k: nat)
    requires d1 * Pow2(k) < B32 && k < 32
    ensures d1 < Pow2(32 - k)
  {
    var s, t := Pow2(k), Pow2(32 - k);
    assert s * t == B32 by {
      Pow2Add(k, 32 - k);
      Pow2Of32();
    }
    assert s * d1 == d1 * s;
    MulStrict(s, d1, t);
  }

  /** The remainder of the scaled division, as the trial quotient and its one correction leave it.
      A correction is due exactly when the product exceeds what is left; it is then still below the
      divisor, so subtracting the divisor from it always borrows. */
  lemma Corrected(n: nat, d: nat, num: nat, r: Word, n0: Word, d1: Word, d0: Word, q0: Word, k: nat) returns (x: int)
    requires 0 < k < 32 && 0x8000_0000 <= d1 && Join(d1, d0) == d * Pow2(k) && d0 % Pow2(k) == 0
    requires num * B32 + n0 == n * Pow2(k) && num < Pow2(k) * B32 && q0 * d1 + r == num && r < d1
    ensures 0 <= x < d * Pow2(k)
    ensures q0 * d0 <= Join(r, n0) ==> x == Join(r, n0) - q0 * d0
    ensures q0 * d0 > Join(r, n0) ==> x == Join(r, n0) - q0 * d0 + Join(d1, d0)
    ensures q0 * d0 > Join(r, n0) ==> q0 >= 1 && q0 * d0 < Join(d1, d0)
    ensures q0 * d0 <= Join(r, n0) ==> q0 * (d * Pow2(k)) + x == n * Pow2(k)
    ensures q0 * d0 > Join(r, n0) ==> (q0 - 1) * (d * Pow2(k)) + x == n * Pow2(k)
  {
    Pow2Add(k, 32 - k);
    Pow2Of32();
    Pow2Monotone(1, 32 - k);
    TrialQuotient(num, n0, d1, d0, q0, r, Pow2(k), Pow2(32 - k));
    TrialError(num, n0, d1, d0, q0, r);
    x := CorrectedValue(n * Pow2(k), Join(d1, d0), q0, Join(r, n0) - q0 * d0);
  }

  lemma CorrectedValue(n: nat, d: nat, q: nat, e: int) returns (x: int)
    requires n == q * d + e && 0 < e + d && e < d
    ensures x == (if e >= 0 then e else e + d)
    ensures e >= 0 ==> q * d + x == n
    ensures e < 0 ==> (q - 1) * d + x == n
  {
    x := if e >= 0 then e else e + d;
    assert (q - 1) * d == q * d - d;
  }
}
