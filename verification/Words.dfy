/** Machine words as bounded naturals, with the C shift and bit operators spelled out on them. */
module Words {
  const B32: nat := 0x1_0000_0000
  const B64: nat := 0x1_0000_0000_0000_0000

  type Word = x: nat | x < 0x1_0000_0000
  type DWord = x: nat | x < 0x1_0000_0000_0000_0000
  type UShort = x: nat | x < 0x1_0000

  function Pow2(k: nat): (p: nat)
    ensures p >= 1
  {
    if k == 0 then 1 else 2 * Pow2(k - 1)
  }

  lemma {:induction false} Pow2Add(a: nat, b: nat)
    ensures Pow2(a + b) == Pow2(a) * Pow2(b)
  {
    if a != 0 {
      Pow2Add(a - 1, b);
      assert 2 * (Pow2(a - 1) * Pow2(b)) == (2 * Pow2(a - 1)) * Pow2(b);
    }
  }

  lemma {:induction false} Pow2Monotone(a: nat, b: nat)
    requires a <= b
    ensures Pow2(a) <= Pow2(b)
    decreases b
  {
    if a < b {
      Pow2Monotone(a, b - 1);
    }
  }

  lemma Pow2Of32()
    ensures Pow2(32) == B32 && Pow2(31) == 0x8000_0000
  {
    assert Pow2(8) == 0x100;
    Pow2Add(8, 8);
    Pow2Add(16, 8);
    Pow2Add(24, 7);
  }

  /** C's bitwise or. */
  function BitOr(a: nat, b: nat): (r: nat)
    decreases a + b
  {
    if a == 0 && b == 0 then 0
    else (if a % 2 == 1 || b % 2 == 1 then 1 else 0) + 2 * BitOr(a / 2, b / 2)
  }

  /** Bit i of a value. */
  predicate Bit(x: nat, i: nat) { x / Pow2(i) % 2 == 1 }

  lemma BitStep(x: nat, i: nat)
    ensures Bit(x, 0) <==> x % 2 == 1
    ensures i > 0 ==> (Bit(x, i) <==> Bit(x / 2, i - 1))
  {
    if i > 0 {
      DivModStep(x, Pow2(i - 1));
    }
  }

  /** An or has the bits of either value. */
  lemma OrBits(a: nat, b: nat)
    ensures forall i: nat :: Bit(BitOr(a, b), i) <==> Bit(a, i) || Bit(b, i)
  {
    forall i: nat
      ensures Bit(BitOr(a, b), i) <==> Bit(a, i) || Bit(b, i)
    {
      OrBit(a, b, i);
    }
  }

  lemma {:induction false} OrBit(a: nat, b: nat, i: nat)
    ensures Bit(BitOr(a, b), i) <==> Bit(a, i) || Bit(b, i)
  {
    hide Bit, BitOr;
    OrStep(a, b);
    BitStep(a, i);
    BitStep(b, i);
    BitStep(BitOr(a, b), i);
    if i > 0 {
      OrBit(a / 2, b / 2, i - 1);
    }
  }

  /** A value below 2^k has no bit from k upwards. */
  lemma NoBitAbove(x: nat, i: nat, k: nat)
    requires x < Pow2(k) && k <= i
    ensures !Bit(x, i)
  {
    Pow2Monotone(k, i);
    QuotientIs(x, Pow2(i), 0, x);
  }

  /** Values with the same bits are equal. */
  lemma {:induction false} BitsDecide(x: nat, y: nat)
    requires forall i: nat :: Bit(x, i) <==> Bit(y, i)
    ensures x == y
    decreases x + y
  {
    hide Bit;
    BitStep(x, 0);
    BitStep(y, 0);
    if x > 0 || y > 0 {
      forall i: nat
        ensures Bit(x / 2, i) <==> Bit(y / 2, i)
      {
        BitStep(x, i + 1);
        BitStep(y, i + 1);
      }
      BitsDecide(x / 2, y / 2);
    }
  }

  /** C's bitwise and. */
  function BitAnd(a: nat, b: nat): (r: nat)
    decreases a + b
  {
    if a == 0 && b == 0 then 0
    else (if a % 2 == 1 && b % 2 == 1 then 1 else 0) + 2 * BitAnd(a / 2, b / 2)
  }

  /** C's `a & ~b`, for a `b` no wider than `a`'s type. */
  function BitClear(a: nat, b: nat): (r: nat)
    decreases a + b
  {
    if a == 0 && b == 0 then 0
    else (if a % 2 == 1 && b % 2 == 0 then 1 else 0) + 2 * BitClear(a / 2, b / 2)
  }

  lemma DivModStep(a: nat, p: nat)
    requires p > 0
    ensures a % (2 * p) == a % 2 + 2 * ((a / 2) % p)
    ensures a / (2 * p) == (a / 2) / p
  {
    var h := a / 2;
    var q, m := h / p, h % p;
    assert h == q * p + m;
    assert a == 2 * h + a % 2;
    assert a == q * (2 * p) + (2 * m + a % 2);
    QuotientIs(a, 2 * p, q, 2 * m + a % 2);
  }

  lemma QuotientIs(n: nat, d: nat, q: int, r: nat)
    requires d > 0 && r < d && n == q * d + r
    ensures n / d == q && n % d == r
  {
    var k := q - n / d;
    assert k * d == n % d - r;
    assert k >= 1 ==> k * d >= d;
    assert k <= -1 ==> k * d + d <= 0;
  }

  /** An or of two values with no bit in common is their sum. */
  lemma {:induction false} OrIsSum(a: nat, b: nat, k: nat)
    requires a % Pow2(k) == 0 && b < Pow2(k)
    ensures BitOr(a, b) == a + b
    decreases k
  {
    if k == 0 {
      OrZero(a);
    } else {
      DivModStep(a, Pow2(k - 1));
      OrIsSum(a / 2, b / 2, k - 1);
    }
  }

  lemma {:induction false} OrZero(a: nat)
    ensures BitOr(a, 0) == a
    decreases a
  {
    if a != 0 {
      OrZero(a / 2);
    }
  }

  /** Masking with 2^k - 1 keeps the k low bits; clearing with it drops them. */
  lemma {:induction false} MaskIsMod(a: nat, k: nat)
    ensures BitAnd(a, Pow2(k) - 1) == a % Pow2(k)
    ensures BitClear(a, Pow2(k) - 1) == a - a % Pow2(k)
    decreases k
  {
    hide BitAnd, BitClear, Pow2;
    Pow2Step(k);
    if k == 0 {
      AndZero(a);
    } else {
      var p := Pow2(k - 1);
      DivModStep(a, p);
      MaskIsMod(a / 2, k - 1);
      AndStep(a, 2 * p - 1);
      assert (2 * p - 1) / 2 == p - 1 && (2 * p - 1) % 2 == 1;
    }
  }

  lemma {:induction false} AndZero(a: nat)
    ensures BitAnd(a, 0) == 0 && BitClear(a, 0) == a
    decreases a
  {
    if a != 0 {
      AndZero(a / 2);
    }
  }

  /** Or-ing in bits below position k leaves the bits from k upwards alone. */
  lemma {:induction false} OrKeepsHigh(a: nat, b: nat, k: nat)
    requires b < Pow2(k)
    ensures BitOr(a, b) / Pow2(k) == a / Pow2(k)
    decreases k
  {
    if k == 0 {
      OrZero(a);
    } else {
      OrKeepsHigh(a / 2, b / 2, k - 1);
      var p := Pow2(k - 1);
      DivModStep(a, p);
      DivModStep(BitOr(a, b), p);
    }
  }

  /** C's unsigned division. */
  function Quot(n: nat, d: nat): (q: nat)
    requires d > 0
  {
    DivAtMost(n, d);
    n / d
  }

  lemma NestedDiv(n: nat, a: nat, b: nat)
    requires a > 0 && b > 0
    ensures a * b > 0 && n / (a * b) == (n / a) / b
  {
    var h, l := n / a, n % a;
    var q, r := h / b, h % b;
    NestedParts(n, a, b, h, l, q, r);
    QuotientIs(n, a * b, q, r * a + l);
  }

  lemma NestedParts(n: nat, a: nat, b: nat, h: nat, l: nat, q: nat, r: nat)
    requires n == h * a + l && l < a && h == q * b + r && r < b
    ensures n == q * (a * b) + (r * a + l) && r * a + l < a * b
  {
    Distribute(q, b, r, a);
    Distribute(0, 0, r + 1, a);
    MulMonotone(a, r + 1, b);
  }

  lemma Distribute(q: nat, b: nat, r: nat, a: nat)
    ensures (q * b + r) * a == q * (a * b) + r * a
    ensures r >= 1 ==> r * a == (r - 1) * a + a
  {
    assert (q * b) * a == q * (a * b);
  }

  lemma ModThenDiv(n: nat, a: nat, b: nat)
    requires a > 0 && b > 0
    ensures a * b > 0 && (n % (a * b)) / a == (n / a) % b
  {
    NestedDiv(n, a, b);
    var h, l := n / a, n % a;
    var q := h / b;
    assert n - q * (a * b) == (h - q * b) * a + l by {
      assert (q * b) * a == q * (a * b);
    }
    QuotientIs(n % (a * b), a, h % b, l);
  }

  lemma MulMonotone(a: nat, x: nat, y: nat)
    requires x <= y
    ensures a * x <= a * y
  {
  }

  lemma MulStrict(a: nat, x: nat, y: nat)
    requires a * x < a * y
    ensures x < y
  {
    if x >= y {
      MulMonotone(a, y, x);
    }
  }

  lemma DivAtMost(x: nat, d: nat)
    requires d > 0
    ensures 0 <= x / d <= x
  {
    MulMonotone(x / d, 1, d);
  }

  /** Or-ing in bits from position k upwards leaves the bits below alone. */
  lemma {:induction false} OrKeepsLow(h: nat, l: nat, g: nat, k: nat)
    requires l < Pow2(k)
    ensures BitOr(h * Pow2(k) + l, g * Pow2(k)) == BitOr(h, g) * Pow2(k) + l
    decreases k
  {
    hide BitOr, Pow2;
    Pow2Step(k);
    if k > 0 {
      var p := Pow2(k - 1);
      Halve(h, l, p);
      Halve(g, 0, p);
      OrKeepsLow(h, l / 2, g, k - 1);
      OrStep(h * Pow2(k) + l, g * Pow2(k));
      Halve(BitOr(h, g), l, p);
    }
  }

  lemma AndStep(a: nat, b: nat)
    ensures BitAnd(a, b) == (if a % 2 == 1 && b % 2 == 1 then 1 else 0) + 2 * BitAnd(a / 2, b / 2)
    ensures BitClear(a, b) == (if a % 2 == 1 && b % 2 == 0 then 1 else 0) + 2 * BitClear(a / 2, b / 2)
  {
  }

  lemma Pow2Step(k: nat)
    ensures Pow2(k) == if k == 0 then 1 else 2 * Pow2(k - 1)
  {
  }

  lemma Halve(h: nat, l: nat, p: nat)
    ensures (h * (2 * p) + l) % 2 == l % 2 && (h * (2 * p) + l) / 2 == h * p + l / 2
    ensures h * (2 * p) + l == 2 * (h * p + l / 2) + l % 2
  {
    assert h * (2 * p) == 2 * (h * p);
  }

  lemma OrStep(a: nat, b: nat)
    ensures BitOr(a, b) == (if a % 2 == 1 || b % 2 == 1 then 1 else 0) + 2 * BitOr(a / 2, b / 2)
  {
  }
}
