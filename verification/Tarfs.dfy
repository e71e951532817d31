/** The tar file system of w2/sys/fs/tarfs.c over an archive in memory, with the number readers of
    w2/sys/kstring.c. */
module Tarfs {
  import opened Words
  import opened Printf

  // ---- Octal sizes -------------------------------------------------------------------------------

  /** `power`, in 64-bit arithmetic. */
  function Power(x: DWord, y: DWord): DWord {
    if y == 0 then 1
    else if y % 2 == 0 then (Power(x, y / 2) * Power(x, y / 2)) % B64
    else (x * Power(x, y / 2) % B64 * Power(x, y / 2)) % B64
  }

  function Pow(x: nat, y: nat): (p: nat) {
    if y == 0 then 1 else x * Pow(x, y - 1)
  }

  /** Repeated squaring computes the power, kept to 64 bits. */
  lemma {:induction false} PowerIsPow(x: DWord, y: DWord)
    ensures Power(x, y) == Pow(x, y) % B64
  {
    if y != 0 {
      var h := y / 2;
      PowerIsPow(x, h);
      PowAdd(x, h, h);
      SquareMod(x, Pow(x, h), Power(x, h));
    }
  }

  lemma SquareMod(x: nat, p: nat, r: nat)
    requires r == p % B64
    ensures (r * r) % B64 == (p * p) % B64
    ensures ((x * r) % B64 * r) % B64 == (x * (p * p)) % B64
  {
    ModMul(p, p);
    ModMul(x, p);
    ModMul(x * p, p);
    assert (x * p) * p == x * (p * p);
  }

  lemma {:induction false} PowAdd(x: nat, a: nat, b: nat)
    ensures Pow(x, a + b) == Pow(x, a) * Pow(x, b)
  {
    if a > 0 {
      PowAdd(x, a - 1, b);
      Associate(x, Pow(x, a - 1), Pow(x, b));
    }
  }

  lemma {:induction false} PowPositive(x: nat, y: nat)
    requires x >= 1
    ensures Pow(x, y) >= 1
  {
    if y > 0 {
      PowPositive(x, y - 1);
      MulMonotone(x, 1, Pow(x, y - 1));
    }
  }

  lemma Associate(x: nat, y: nat, z: nat)
    ensures x * (y * z) == (x * y) * z
  {
  }

  lemma ModMul(a: int, b: int)
    ensures (a * b) % B64 == ((a % B64) * (b % B64)) % B64
    ensures (a * b) % B64 == (a * (b % B64)) % B64
    ensures (a * b) % B64 == ((a % B64) * b) % B64
  {
    var p, q := a / B64, b / B64;
    ModShift(a % B64, b % B64, p, q);
  }

  lemma ModShift(r: nat, s: nat, p: int, q: int)
    ensures ((p * B64 + r) * (q * B64 + s)) % B64 == (r * s) % B64
    ensures ((p * B64 + r) * s) % B64 == (r * s) % B64
    ensures (r * (q * B64 + s)) % B64 == (r * s) % B64
  {
    assert (p * B64 + r) * s == r * s + (p * s) * B64;
    assert r * (q * B64 + s) == r * s + (r * q) * B64;
    assert (p * B64 + r) * (q * B64 + s) == r * s + (p * s + r * q + p * q * B64) * B64;
    AddMultiple(r * s, p * s);
    AddMultiple(r * s, r * q);
    AddMultiple(r * s, p * s + r * q + p * q * B64);
  }

  lemma AddMultiple(x: int, k: int)
    ensures (x + k * B64) % B64 == x % B64
  {
  }

  /** C's `/` and `%` by ten round towards zero. */
  function Tenth(x: int): int { if x >= 0 then x / 10 else Neg(Neg(x) / 10) }

  function LastDecimal(x: int): int { x - 10 * Tenth(x) }

  /** The digits of x in base ten read in base eight. */
  function Reread(x: int): int
    decreases if x < 0 then Neg(x) else x
  {
    if x == 0 then 0 else LastDecimal(x) + 8 * Reread(Tenth(x))
  }

  /** `octal_to_decimal`, in 64-bit arithmetic. */
  method OctalToDecimal(oct: Int) returns (res: DWord)
    ensures res == Reread(oct) % B64
  {
    hide Reread, LastDecimal, Tenth, Power;
    res := 0;
    var rest: int := oct;
    var i: DWord := 0;
    while rest != 0
      invariant (res + Pow(8, i) * Reread(rest)) % B64 == Reread(oct) % B64
      invariant i + Distance(rest) <= 0x8000_0000
      decreases Distance(rest)
    {
      var digit := LastDecimal(rest);
      RereadStep(rest);
      PowerIsPow(8, i);
      OctalStep(res, Pow(8, i), digit, Reread(Tenth(rest)));
      rest := Tenth(rest);
      res := (res + (digit % B64) * Power(8, i)) % B64;
      i := i + 1;
    }
    RereadDigit(0);
  }

  function Distance(x: int): nat { if x < 0 then Neg(x) else x }

  lemma RereadStep(x: int)
    requires x != 0
    ensures Reread(x) == LastDecimal(x) + 8 * Reread(Tenth(x)) && Distance(Tenth(x)) < Distance(x)
    ensures x > 0 ==> 0 <= Tenth(x) && 0 <= LastDecimal(x) <= 9 && x == 10 * Tenth(x) + LastDecimal(x)
  {
  }

  lemma OctalStep(res: nat, p: nat, digit: int, rest: int)
    ensures ((res + (digit % B64) * (p % B64)) % B64 + (8 * p) * rest) % B64 == (res + p * (digit + 8 * rest)) % B64
  {
    ModMul(digit, p);
    assert p * (digit + 8 * rest) == digit * p + (8 * p) * rest;
    ModSum(res, (digit % B64) * (p % B64), digit * p, (8 * p) * rest);
  }

  lemma ModSum(a: int, x: int, y: int, b: int)
    requires x % B64 == y % B64
    ensures ((a + x) % B64 + b) % B64 == (a + (y + b)) % B64
  {
  }

  predicate Octal(s: string) {
    forall i :: 0 <= i < |s| ==> '0' <= s[i] <= '7'
  }

  /** The value of an octal digit string. */
  function OctalValue(s: string): (v: nat)
    requires Octal(s)
  {
    if s == "" then 0 else 8 * OctalValue(s[..|s| - 1]) + (s[|s| - 1] as int - '0' as int)
  }

  /** The number whose decimal digits are the octal digits of v. */
  function AsDecimal(v: nat): nat {
    if v == 0 then 0 else 10 * AsDecimal(v / 8) + v % 8
  }

  /** Rereading undoes it. */
  lemma {:induction false} RereadAsDecimal(v: nat)
    ensures Reread(AsDecimal(v)) == v
  {
    hide Reread, AsDecimal;
    var q, d := v / 8, v % 8;
    AsDecimalStep(q, d);
    if v == 0 {
      RereadDigit(0);
    } else {
      RereadAsDecimal(q);
      RereadParts(AsDecimal(q), d);
    }
  }

  lemma AsDecimalStep(v: nat, d: nat)
    requires d < 8
    ensures AsDecimal(8 * v + d) == 10 * AsDecimal(v) + d
    ensures AsDecimal(0) == 0
  {
    assert (8 * v + d) / 8 == v;
  }

  lemma RereadParts(q: nat, d: nat)
    requires d < 10
    ensures Reread(10 * q + d) == d + 8 * Reread(q)
  {
    assert Tenth(10 * q + d) == q;
  }

  lemma {:induction false} OctalDigits(s: string)
    requires Octal(s)
    ensures DecimalValue(s) == AsDecimal(OctalValue(s))
  {
    if s != "" {
      OctalDigits(s[..|s| - 1]);
    }
  }

  lemma {:induction false} AsDecimalRises(v: nat, w: nat)
    requires v < w
    ensures AsDecimal(v) < AsDecimal(w)
  {
    if v / 8 < w / 8 {
      AsDecimalRises(v / 8, w / 8);
    }
  }

  /** Reread in base eight, a number below c * 10^j is below c * 8^j and a carry of at most 2 * 8^j / 7. */
  lemma {:induction false} RereadBound(x: nat, c: nat, j: nat)
    requires 1 <= c <= 10 && x < c * Pow(10, j)
    ensures 0 <= 7 * Reread(x) <= (7 * c + 2) * Pow(8, j) - 9
    ensures x > 0 ==> Reread(x) > 0
    decreases j
  {
    hide Reread, Tenth, LastDecimal, Pow;
    PowPositive(8, j);
    PowSteps(j);
    RereadDigit(x);
    if x == 0 {
      MulMonotone(7 * c + 2, 1, Pow(8, j));
    } else if j > 0 {
      RereadStep(x);
      var q, d := Tenth(x), LastDecimal(x);
      TenthBelow(q, d, c, Pow(10, j - 1));
      RereadBound(q, c, j - 1);
      BoundStep(7 * c + 2, Pow(8, j - 1), d, Reread(q));
    }
  }

  lemma RereadDigit(x: nat)
    ensures x < 10 ==> Reread(x) == x
  {
  }

  lemma PowSteps(j: nat)
    ensures if j == 0 then Pow(8, j) == Pow(10, j) == 1
            else Pow(8, j) == 8 * Pow(8, j - 1) && Pow(10, j) == 10 * Pow(10, j - 1)
  {
  }

  lemma BoundStep(c: nat, p: nat, d: nat, r: nat)
    requires d <= 9 && 7 * r <= c * p - 9
    ensures 7 * (d + 8 * r) <= c * (8 * p) - 9
  {
    Associate(c, 8, p);
    Associate(8, c, p);
  }

  lemma TenthBelow(q: nat, d: nat, c: nat, p: nat)
    requires 10 * q + d < c * (10 * p)
    ensures q < c * p
  {
    Associate(c, 10, p);
    Associate(10, c, p);
  }

  lemma {:induction false} RereadNegative(x: nat)
    ensures Reread(Neg(x)) == Neg(Reread(x))
  {
    if x != 0 {
      assert Tenth(Neg(x)) == Neg(x / 10);
      RereadNegative(x / 10);
    }
  }

  lemma {:induction false} OctalSmall(s: string)
    requires Octal(s)
    ensures OctalValue(s) < Pow(8, |s|)
  {
    if s != "" {
      OctalSmall(s[..|s| - 1]);
    }
  }

  lemma Powers(n: nat)
    requires n <= 11
    ensures Pow(8, 9) == 0x800_0000 && Pow(10, 9) == 1_000_000_000 && Pow(8, n) <= 0x2_0000_0000
  {
    assert Pow(8, 3) == 512 && Pow(10, 3) == 1000;
    PowAdd(8, 3, 3);
    PowAdd(8, 6, 3);
    PowAdd(10, 3, 3);
    PowAdd(10, 6, 3);
    PowAdd(8, 9, 2);
    PowAdd(8, n, 11 - n);
    PowPositive(8, 11 - n);
    PowPositive(8, n);
    MulMonotone(Pow(8, n), 1, Pow(8, 11 - n));
  }

  /** The size field as the code reads it: `octal_to_decimal(atoi(s))`. */
  function SizeRead(s: string): DWord { Reread(Wrap32(DecimalValue(s))) % B64 }

  /** The least file size the code misreads, octal 2147500000: its octal digits no longer fit an int. */
  const MISREAD: nat := 295_600_128

  lemma Thresholds()
    ensures AsDecimal(MISREAD - 1) == 2_147_477_777 && AsDecimal(MISREAD) == 2_147_500_000
    ensures AsDecimal(0x2000_0000) == 4_000_000_000
  {
    hide AsDecimal;
    Triple(0, 0, 0, 2);
    Triple(2, 1, 4, 7);
    Triple(1127, 4, 7, 7);
    Triple(1127 * 512 + 319, 7, 7, 7);
    Triple(1127, 5, 0, 0);
    Triple(1127 * 512 + 320, 0, 0, 0);
    Triple(0, 0, 0, 4);
    Triple(4, 0, 0, 0);
    Triple(4 * 512, 0, 0, 0);
    Triple(4 * 512 * 512, 0, 0, 0);
  }

  /** Three octal digits at a time. */
  lemma Triple(v: nat, d: nat, e: nat, f: nat)
    requires d < 8 && e < 8 && f < 8
    ensures AsDecimal(512 * v + (64 * d + 8 * e + f)) == 1000 * AsDecimal(v) + (100 * d + 10 * e + f)
    ensures AsDecimal(0) == 0
  {
    hide AsDecimal;
    AsDecimalStep(v, d);
    AsDecimalStep(8 * v + d, e);
    AsDecimalStep(8 * (8 * v + d) + e, f);
  }

  /** A size field is read as the octal number it spells exactly when that number is below MISREAD. */
  lemma SizeReadIsOctal(s: string)
    requires Octal(s) && |s| <= 11
    ensures SizeRead(s) == OctalValue(s) <==> OctalValue(s) < MISREAD
  {
    hide Reread, OctalValue, Wrap32, Pow, DecimalValue, AsDecimal;
    var v, x := OctalValue(s), DecimalValue(s);
    OctalDigits(s);
    RereadAsDecimal(v);
    OctalSmall(s);
    Powers(|s|);
    WrapCases(x);
    Thresholds();
    if v < MISREAD {
      if v < MISREAD - 1 {
        AsDecimalRises(v, MISREAD - 1);
      }
    } else {
      if v > MISREAD {
        AsDecimalRises(MISREAD, v);
      }
      MisreadIsOff(Wrap32(x), v);
      if v < 0x2000_0000 {
        AsDecimalRises(v, 0x2000_0000);
      }
    }
  }

  lemma WrapCases(x: nat)
    ensures x < 0x8000_0000 ==> Wrap32(x) == x
    ensures x >= 0x8000_0000 && Wrap32(x) >= 0 ==> x >= 4_000_000_000
  {
  }

  /** A decimal reading that wraps comes out negative, so far too large, or too small. */
  lemma MisreadIsOff(k: Int, v: nat)
    requires v <= 0x2_0000_0000
    ensures k < 0 ==> Reread(k) % B64 != v
    ensures k >= 0 ==> 0 <= Reread(k) < 4 * 0x800_0000
  {
    Powers(0);
    var m := Distance(k);
    hide Pow;
    RereadBound(m, 3, 9);
    RereadNegative(m);
    hide Reread;
    var r := Reread(m);
    assert 0 <= r < 0x2000_0000;
    if k < 0 {
      assert Reread(k) == Neg(r) && r > 0;
      assert Neg(r) % B64 == B64 - r;
    }
  }

  /** What may follow the digits of a size field that a space ends, up to the first NUL: spaces, and the
      digits of the fields behind it. */
  predicate SpaceEnded(rest: string) {
    rest != "" && rest[0] == ' ' && forall i :: 0 <= i < |rest| ==> rest[i] == ' ' || '0' <= rest[i] <= '7'
  }

  /** The pax "ustar Interchange Format" lets a space or a NUL end the size field, but the code reads up to
      the NUL, spaces as digits: of the fields it reads as a number that fits an int, exactly those with the
      NUL right behind the digits come out right. */
  lemma ReadRightWithNulOnly(s: string, rest: string)
    requires Octal(s) && |s| <= 11 && (rest == "" || SpaceEnded(rest))
    requires -0x8000_0000 <= DecimalValue(s + rest) < 0x8000_0000
    ensures SizeRead(s + rest) == OctalValue(s) <==> rest == ""
  {
    hide Reread, OctalValue, DecimalValue, AsDecimal, Wrap32, Pow, Octal;
    var v, x := OctalValue(s), DecimalValue(s + rest);
    OctalDigits(s);
    RereadAsDecimal(v);
    OctalSmall(s);
    Powers(|s|);
    WrapIsSame(x);
    if rest == "" {
      assert s + rest == s;
    } else {
      SpaceReads(s, rest);
      if x < 0 {
        RereadNegative(Neg(x));
        RereadSign(Neg(x));
        FarOff(Reread(x), v);
      } else {
        RereadSmallEnough(x);
      }
    }
  }

  lemma WrapIsSame(x: int)
    ensures -0x8000_0000 <= x < 0x8000_0000 ==> Wrap32(x) == x
  {
  }

  lemma FarOff(r: int, v: nat)
    requires -0x1_0000_0000 <= r < 0 && v <= 0x2_0000_0000
    ensures r % B64 != v
  {
    assert r % B64 == r + B64;
  }

  lemma RereadSign(x: nat)
    requires 0 < x <= 0x8000_0000
    ensures 0 < Reread(x) < 0x2000_0000
  {
    hide Reread, Pow;
    Powers(0);
    RereadBound(x, 3, 9);
  }

  lemma RereadSmallEnough(x: nat)
    requires x < 0x8000_0000
    ensures 0 <= Reread(x) < B64 && Reread(x) % B64 == Reread(x)
  {
    hide Reread, Pow;
    Powers(0);
    RereadBound(x, 3, 9);
  }

  /** One less in decimal is at most one less reread in base eight. */
  lemma {:induction false} RereadLess(x: nat)
    requires x > 0
    ensures Reread(x - 1) >= Reread(x) - 1
  {
    hide Reread;
    var q, d := x / 10, x % 10;
    RereadParts(q, d);
    if d > 0 {
      RereadParts(q, d - 1);
    } else {
      RereadParts(q - 1, 9);
      RereadLess(q);
    }
  }

  /** A space counts as -16: behind digits worth less than two the reading turns negative, and behind others
      it is worth more than the digits were, whatever follows. */
  lemma {:induction false} SpaceReads(s: string, rest: string)
    requires Octal(s) && SpaceEnded(rest)
    ensures DecimalValue(s + rest) >= -5 ==>
              DecimalValue(s + rest) >= 4 && Reread(DecimalValue(s + rest)) > OctalValue(s)
    decreases |rest|
  {
    hide Reread, OctalValue, AsDecimal;
    var last := |rest| - 1;
    var c, before := rest[last], rest[..last];
    assert s + rest == (s + before) + [c];
    DecimalSnoc(s + before, c);
    if last == 0 {
      assert s + before == s;
      OctalDigits(s);
      RereadAsDecimal(OctalValue(s));
      AsDecimalSmall(OctalValue(s));
    } else {
      SpaceReads(s, before);
    }
    var y := DecimalValue(s + before);
    if y >= 2 {
      CharReads(y, c as int - '0' as int);
    }
  }

  /** Reading one more digit or space behind a value of at least two raises its value. */
  lemma CharReads(y: nat, d: int)
    requires y >= 2 && (d == -16 || 0 <= d <= 7)
    ensures 10 * y + d >= 4 && Reread(10 * y + d) > Reread(y)
  {
    hide Reread;
    RereadAtLeastTwo(y);
    if d >= 0 {
      RereadParts(y, d);
    } else {
      RereadLess(y);
      RereadLess(y - 1);
      RereadParts(y - 2, 4);
    }
  }

  lemma {:induction false} RereadAtLeastTwo(y: nat)
    requires y >= 2
    ensures Reread(y) >= 2
  {
    hide Reread;
    RereadParts(y / 10, y % 10);
    if y >= 20 {
      RereadAtLeastTwo(y / 10);
    } else {
      RereadDigit(y / 10);
    }
  }

  lemma AsDecimalSmall(v: nat)
    ensures AsDecimal(v) < 2 <==> v < 2
  {
    if v >= 8 {
      AsDecimalRises(2, v);
    }
  }

  /** A 100-byte file whose size field a space ends is taken for 788 bytes. */
  lemma SpaceEndedIsMisread()
    ensures OctalValue("144") == 100 && SizeRead("144 ") == 788
  {
    hide DecimalValue;
    DecimalOf144();
    assert OctalValue("1") == 1;
    assert "14"[..1] == "1" && OctalValue("14") == 12;
    assert "144"[..2] == "14";
    RereadParts(142, 4);
    RereadParts(14, 2);
    RereadParts(1, 4);
    RereadDigit(1);
  }

  lemma DecimalOf144()
    ensures DecimalValue("144 ") == 1424
  {
    hide DecimalValue;
    DecimalSnoc("", '1');
    DecimalSnoc("1", '4');
    DecimalSnoc("14", '4');
    DecimalSnoc("144", ' ');
    assert "1" + ['4'] == "14" && "14" + ['4'] == "144" && "144" + [' '] == "144 ";
  }

  /** When the reading wraps, a space-ended field can come out right by accident: octal 260301050, which is
      46,236,200, with two spaces behind it does. */
  lemma SpaceEndedRightByAccident(s: string)
    requires Octal(s) && OctalValue(s) == 46_236_200
    ensures SizeRead(s + "  ") == OctalValue(s)
  {
    hide Reread, OctalValue, DecimalValue, AsDecimal;
    OctalDigits(s);
    AccidentalDigits();
    DecimalSnoc(s, ' ');
    DecimalSnoc(s + " ", ' ');
    assert s + " " + " " == s + "  ";
    assert DecimalValue(s + "  ") == 26_030_104_824;
    assert Wrap32(26_030_104_824) == 260_301_048;
    AccidentalReread();
  }

  lemma AccidentalReread()
    ensures Reread(260_301_048) == 46_236_200
  {
    hide Reread;
    RereadDigit(2);
    RereadParts(2, 6);
    RereadParts(26, 0);
    RereadParts(260, 3);
    RereadParts(2603, 0);
    RereadParts(26030, 1);
    RereadParts(260301, 0);
    RereadParts(2603010, 4);
    RereadParts(26030104, 8);
  }

  lemma AccidentalDigits()
    ensures AsDecimal(46_236_200) == 260_301_050
  {
    hide AsDecimal;
    Triple(0, 2, 6, 0);
    Triple(176, 3, 0, 1);
    Triple(176 * 512 + 193, 0, 5, 0);
  }

  // ---- C strings ---------------------------------------------------------------------------------

  /** The C string at position p of memory is s. */
  predicate StringAt(mem: string, p: nat, s: string) {
    p + |s| < |mem| && mem[p..p + |s|] == s && mem[p + |s|] == '\0' && '\0' !in s
  }

  lemma CharsAt(mem: string, p: nat, s: string)
    requires StringAt(mem, p, s)
    ensures Terminated(mem[p..]) && Chars(mem[p..]) == s
  {
    CharsUnique(mem[p..], s);
  }

  lemma {:induction false} CharsUnique(r: string, s: string)
    requires |s| < |r| && r[..|s|] == s && r[|s|] == '\0' && '\0' !in s
    ensures Terminated(r) && Chars(r) == s
  {
    if s != "" {
      assert r[0] == s[0] && r[1..][..|s| - 1] == s[1..];
      CharsUnique(r[1..], s[1..]);
    }
  }

  method Strlen(str: string) returns (n: nat)
    requires Terminated(str)
    ensures n == |Chars(str)|
  {
    n := 0;
    while str[n] != '\0'
      invariant n <= |Chars(str)|
      decreases |str| - n
    {
      n := n + 1;
    }
  }

  /** `kstrcmp` answers 0 exactly for equal strings. */
  method Kstrcmp(cs: string, ct: string) returns (r: int)
    requires Terminated(cs) && Terminated(ct)
    ensures r == 0 <==> Chars(cs) == Chars(ct)
  {
    var i := 0;
    ghost var s, t := Chars(cs), Chars(ct);
    while true
      invariant 0 <= i <= |s| && i <= |t| && s[..i] == t[..i]
      decreases |s| - i
    {
      var c1, c2 := cs[i], ct[i];
      assert i < |s| ==> s[i] == c1;
      assert i < |t| ==> t[i] == c2;
      if c1 != c2 {
        return if c1 < c2 then -1 else 1;
      }
      if c1 == '\0' {
        assert i == |s| && i == |t|;
        assert s[..i] == s && t[..i] == t;
        return 0;
      }
      i := i + 1;
    }
  }

  /** What follows the first slash. */
  function AfterSlash(s: string): string
    requires '/' in s
  {
    if s[0] == '/' then s[1..]
    else
      assert s == [s[0]] + s[1..];
      AfterSlash(s[1..])
  }

  const ROOT: string := "rootfs/"

  lemma RootStripped(x: string)
    ensures '/' in ROOT + x && AfterSlash(ROOT + x) == x
  {
    assert (ROOT + x)[6] == '/';
    StripTo(ROOT + x, 6);
    assert (ROOT + x)[7..] == x;
  }

  lemma {:induction false} StripTo(s: string, k: nat)
    requires k < |s| && s[k] == '/' && forall i :: 0 <= i < k ==> s[i] != '/'
    ensures AfterSlash(s) == s[k + 1..]
    decreases k
  {
    if k > 0 {
      assert s[1..][k - 1] == '/';
      StripTo(s[1..], k - 1);
      assert s[1..][k..] == s[k + 1..];
    }
  }

  // ---- Archives ----------------------------------------------------------------------------------

  /** A member of the archive: its name, its size field's digits and its data. */
  datatype Entry = Entry(name: string, size: string, data: string)

  /** Data is padded to whole blocks of 512 bytes. */
  function Padded(size: nat): nat { (size + 511) / 512 * 512 }

  /** Where the header of entry i lies. */
  function OffsetOf(es: seq<Entry>, i: nat): nat
    requires i <= |es|
  {
    if i == 0 then 0 else OffsetOf(es, i - 1) + 512 + Padded(|es[i - 1].data|)
  }

  ghost predicate EntryAt(mem: string, at: nat, e: Entry) {
    && at + 512 + |e.data| <= |mem|
    && 0 < |e.name| < 100 && StringAt(mem, at, e.name)
    && |e.size| <= 11 && StringAt(mem, at + 124, e.size) && Octal(e.size) && OctalValue(e.size) == |e.data|
    && mem[at + 512..at + 512 + |e.data|] == e.data
  }

  ghost predicate HasEntry(mem: string, es: seq<Entry>, i: nat)
    requires i < |es|
  {
    EntryAt(mem, OffsetOf(es, i), es[i])
  }

  /** A well-formed archive: the entries one after the other, then an empty header. */
  ghost predicate Archive(mem: string, es: seq<Entry>) {
    && (forall i :: 0 <= i < |es| ==> HasEntry(mem, es, i))
    && OffsetOf(es, |es|) < |mem| < B64 && mem[OffsetOf(es, |es|)] == '\0'
  }

  /** None of the first n files is so large that its size is misread. */
  ghost predicate SmallUpTo(es: seq<Entry>, n: nat)
    requires n <= |es|
  {
    forall i :: 0 <= i < n ==> |es[i].data| < MISREAD
  }

  ghost predicate Small(es: seq<Entry>) { SmallUpTo(es, |es|) }

  ghost predicate Distinct(es: seq<Entry>) {
    forall i, j :: 0 <= i < j < |es| ==> es[i].name != es[j].name
  }

  /** The first entry of that name, or the number of entries. */
  function Lookup(es: seq<Entry>, name: string): (i: nat)
    ensures i <= |es| && (i < |es| ==> es[i].name == name)
    ensures forall k :: 0 <= k < i ==> es[k].name != name
  {
    if es == [] || es[0].name == name then 0 else Lookup(es[1..], name) + 1
  }

  lemma {:induction false} LookupDistinct(es: seq<Entry>, i: nat)
    requires Distinct(es) && i < |es|
    ensures Lookup(es, es[i].name) == i
  {
    if i > 0 {
      LookupDistinct(es[1..], i - 1);
    }
  }

  lemma {:induction false} HeadersAscend(es: seq<Entry>, i: nat, j: nat)
    requires i < j <= |es|
    ensures OffsetOf(es, i) + 512 <= OffsetOf(es, j)
    decreases j
  {
    if i < j - 1 {
      HeadersAscend(es, i, j - 1);
    }
  }

  /** The fields of header i, as the walks read them. */
  lemma HeaderFields(mem: string, es: seq<Entry>, i: nat)
    requires Archive(mem, es) && i < |es|
    ensures OffsetOf(es, i) + 512 < |mem| && OffsetOf(es, i + 1) < |mem| < B64
    ensures OffsetOf(es, i + 1) == OffsetOf(es, i) + 512 + Padded(|es[i].data|)
    ensures Terminated(mem[OffsetOf(es, i)..]) && Chars(mem[OffsetOf(es, i)..]) == es[i].name != ""
    ensures Terminated(mem[OffsetOf(es, i) + 124..]) && Terminated(mem[OffsetOf(es, i) + 156..])
    ensures Reread(Wrap32(DecimalValue(Chars(mem[OffsetOf(es, i) + 124..])))) % B64 == |es[i].data| <==>
            |es[i].data| < MISREAD
  {
    hide *;
    ArchiveParts(mem, es, i);
    HeadersAscend(es, i, |es|);
    EntryFields(mem, OffsetOf(es, i), es[i]);
    NulAhead(mem, OffsetOf(es, i) + 156, OffsetOf(es, |es|));
    if i + 1 < |es| {
      HeadersAscend(es, i + 1, |es|);
    }
  }

  lemma ArchiveParts(mem: string, es: seq<Entry>, i: nat)
    requires Archive(mem, es) && i < |es|
    ensures EntryAt(mem, OffsetOf(es, i), es[i])
    ensures OffsetOf(es, i + 1) == OffsetOf(es, i) + 512 + Padded(|es[i].data|)
    ensures OffsetOf(es, |es|) < |mem| < B64 && mem[OffsetOf(es, |es|)] == '\0'
  {
    assert HasEntry(mem, es, i);
  }

  lemma LastHeader(mem: string, es: seq<Entry>)
    requires Archive(mem, es)
    ensures OffsetOf(es, |es|) < |mem| < B64
    ensures Terminated(mem[OffsetOf(es, |es|)..]) && Chars(mem[OffsetOf(es, |es|)..]) == ""
  {
    EmptyAt(mem, OffsetOf(es, |es|));
  }

  lemma EmptyAt(mem: string, at: nat)
    requires at < |mem| && mem[at] == '\0'
    ensures Terminated(mem[at..]) && Chars(mem[at..]) == ""
  {
    CharsAt(mem, at, "");
  }

  lemma NulAhead(mem: string, p: nat, end: nat)
    requires p <= end < |mem| && mem[end] == '\0'
    ensures Terminated(mem[p..])
  {
    assert mem[p..][end - p] == '\0';
  }

  lemma EntryFields(mem: string, at: nat, e: Entry)
    requires EntryAt(mem, at, e)
    ensures Terminated(mem[at..]) && Chars(mem[at..]) == e.name != ""
    ensures Terminated(mem[at + 124..])
    ensures Reread(Wrap32(DecimalValue(Chars(mem[at + 124..])))) % B64 == |e.data| <==> |e.data| < MISREAD
  {
    CharsAt(mem, at, e.name);
    CharsAt(mem, at + 124, e.size);
    SizeReadIsOctal(e.size);
  }

  /** What `atoi` makes of the type flag of the header at an offset. The flag is one character and nothing
      ends it, so digits of the link name behind it count. */
  function KindAt(mem: string, at: nat): Int {
    if at + 156 <= |mem| && Terminated(mem[at + 156..]) then Wrap32(DecimalValue(Chars(mem[at + 156..]))) else 0
  }

  /** Behind the last entry the walks find an empty name, and nowhere before. */
  lemma HeaderName(mem: string, es: seq<Entry>, i: nat)
    requires Archive(mem, es) && i <= |es|
    ensures OffsetOf(es, 0) == 0 && OffsetOf(es, i) < |mem| < B64
    ensures Terminated(mem[OffsetOf(es, i)..]) && (Chars(mem[OffsetOf(es, i)..]) == "" <==> i == |es|)
  {
    if i == |es| {
      LastHeader(mem, es);
    } else {
      HeaderFields(mem, es, i);
    }
  }

  /** The alignment the walks compute is the padding. */
  method Align(size: DWord) returns (align: nat)
    ensures align == Padded(size)
  {
    align := 0;
    if size != 0 {
      align := if size % 512 == 0 then size else size + (512 - size % 512);
    }
  }

  /** `memcpy`. */
  method MemCopy(dst: array<char>, src: string, from: nat, n: nat)
    requires from + n <= |src| && n <= dst.Length
    modifies dst
    ensures dst[..n] == src[from..from + n] && dst[n..] == old(dst[n..])
  {
    var i := 0;
    while i < n
      invariant i <= n && dst[..i] == src[from..from + i] && dst[n..] == old(dst[n..])
    {
      dst[i] := src[from + i];
      i := i + 1;
    }
  }

  /** Searching for an entry's list name finds that entry, and its data lies behind the header. */
  lemma EntryReads(mem: string, es: seq<Entry>, i: nat)
    requires Archive(mem, es) && Distinct(es) && i < |es|
    ensures '/' in ROOT + es[i].name && '\0' !in ROOT + es[i].name && |es[i].name| < 100
    ensures AfterSlash(ROOT + es[i].name) == es[i].name && Lookup(es, es[i].name) == i
    ensures OffsetOf(es, i) + 512 + |es[i].data| <= |mem|
    ensures mem[OffsetOf(es, i) + 512..OffsetOf(es, i) + 512 + |es[i].data|] == es[i].data
  {
    hide OffsetOf, Archive, Distinct, Lookup, AfterSlash, OctalValue, Octal;
    RootStripped(es[i].name);
    LookupDistinct(es, i);
    ArchiveParts(mem, es, i);
  }

  // ---- The file list -----------------------------------------------------------------------------

  /** A `struct file`; after it has been filled in only `offset` and `next` ever change. */
  class File {
    const name: string
    const fd: int
    const addr: DWord
    const kind: Int
    const size: DWord
    var offset: DWord
    var next: File?

    /** The element for an entry of the archive. */
    constructor (name: string, fd: int, addr: DWord, kind: Int, size: DWord)
      ensures this.name == name && this.fd == fd && this.addr == addr
      ensures this.kind == kind && this.size == size && offset == 0
    {
      this.name, this.fd, this.addr, this.kind, this.size := name, fd, addr, kind, size;
      offset, next := 0, null;
    }

    /** The element for the root: address, size and offset are whatever `kmalloc` left there. */
    constructor Root(fd: int)
      ensures name == ROOT && this.fd == fd && kind == 5
    {
      name, this.fd, kind := ROOT, fd, 5;
    }
  }

  const FIRST_FD: int := 2

  /** The descriptor of entry i. */
  function FdOf(i: nat): int { FIRST_FD + 1 + i }

  class TarFs {
    const mem: string
    const base: DWord
    const fname: array<char>
    var filelist: File?
    var fdCount: int
    ghost var files: seq<File>

    /** The list from `filelist` is `files`. */
    ghost predicate Linked()
      reads this`filelist, this`files, files`next
    {
      && filelist == (if files == [] then null else files[0])
      && (forall i, j :: 0 <= i < j < |files| ==> files[i] != files[j])
      && (forall i :: 0 <= i < |files| - 1 ==> files[i].next == files[i + 1])
      && (files != [] ==> files[|files| - 1].next == null)
    }

    lemma LastHasNoNext(i: nat)
      requires Linked() && i < |files|
      ensures files[i].next == null <==> i == |files| - 1
    {
      if i < |files| - 1 {
        assert files[i].next == files[i + 1];
      }
    }

    /** No two list elements have the same name. */
    lemma NamesDiffer(es: seq<Entry>, i: nat, j: nat)
      requires Archive(mem, es) && Distinct(es) && Indexes(es) && i < |files| && 0 < j < |files| && i != j
      ensures files[i].name != files[j].name
    {
      assert Describes(files, es, j - 1) && HasEntry(mem, es, j - 1);
      if i > 0 {
        assert Describes(files, es, i - 1);
        RootStripped(es[i - 1].name);
        RootStripped(es[j - 1].name);
      }
    }

    /** List element i + 1 describes entry i. */
    ghost predicate Describes(fs: seq<File>, es: seq<Entry>, i: nat)
      requires i < |es| && i + 1 < |fs|
    {
      var f := fs[i + 1];
      && f.name == ROOT + es[i].name && f.fd == FIRST_FD + 1 + i
      && f.addr == (base + OffsetOf(es, i)) % B64 && f.size == |es[i].data|
      && f.kind == KindAt(mem, OffsetOf(es, i))
    }

    lemma DescribesMore(fs: seq<File>, f: File, es: seq<Entry>, i: nat)
      requires i < |es| && |fs| == i + 1 && forall k :: 0 <= k < i ==> Describes(fs, es, k)
      requires f.name == ROOT + es[i].name && f.fd == FIRST_FD + 1 + i
      requires f.addr == (base + OffsetOf(es, i)) % B64 && f.size == |es[i].data|
      requires f.kind == KindAt(mem, OffsetOf(es, i))
      ensures forall k :: 0 <= k <= i ==> Describes(fs + [f], es, k)
    {
      forall k | 0 <= k < i
        ensures Describes(fs + [f], es, k)
      {
        assert Describes(fs, es, k);
      }
    }

    /** The list describes the archive's entries, in order, behind an element for the root. */
    ghost predicate Indexes(es: seq<Entry>)
      reads this`files, files`offset
    {
      && |files| == |es| + 1 && files[0].name == ROOT && files[0].fd == FIRST_FD && files[0].kind == 5
      && (forall i :: 0 <= i < |es| ==> Describes(files, es, i))
      && forall i :: 0 <= i < |es| ==> files[i + 1].offset <= |es[i].data|
    }

    constructor (mem: string, base: DWord)
      ensures this.mem == mem && this.base == base && Linked() && files == [] && fdCount == FIRST_FD
      ensures fname.Length == 1024 && fresh(fname)
    {
      this.mem, this.base := mem, base;
      fname := new char[1024];
      filelist, files, fdCount := null, [], FIRST_FD;
    }

    method AddToFilelist(f: File)
      requires Linked() && f !in files
      modifies this`filelist, this`files, files`next, f`next
      ensures Linked() && files == old(files) + [f]
    {
      if filelist == null {
        filelist := f;
        f.next := null;
      } else {
        var t := filelist;
        ghost var i := 0;
        while t.next != null
          invariant 0 <= i < |files| && t == files[i]
          decreases |files| - i
        {
          t := t.next;
          i := i + 1;
        }
        LastHasNoNext(i);
        t.next := f;
        f.next := null;
      }
      files := files + [f];
    }

    /** `change_name`: the part after the first slash, in the global buffer. */
    method ChangeName(name: string)
      requires '/' in name && '\0' !in name && fname.Length == 1024 && |AfterSlash(name)| < 1024
      modifies fname
      ensures Terminated(fname[..]) && Chars(fname[..]) == AfterSlash(name)
    {
      var k := 0;
      while k < 1024
        invariant 0 <= k <= 1024 && forall j :: 0 <= j < k ==> fname[j] == '\0'
      {
        fname[k] := '\0';
        k := k + 1;
      }
      var n := name;
      while n[0] != '/'
        invariant '/' in n && AfterSlash(n) == AfterSlash(name) && '\0' !in n
        decreases |n|
      {
        assert n == [n[0]] + n[1..];
        n := n[1..];
      }
      n := n[1..];
      var i := 0;
      while i < |n|
        invariant 0 <= i <= |n| && fname[..i] == n[..i]
        invariant forall j :: i <= j < 1024 ==> fname[j] == '\0'
      {
        fname[i] := n[i];
        i := i + 1;
      }
      CharsAt(fname[..], 0, n);
      assert fname[..][0..] == fname[..];
    }

    /** The step both walks take from one header to the next. */
    method NextHeader(offset: DWord, ghost es: seq<Entry>, ghost i: nat) returns (next: DWord)
      requires Archive(mem, es) && i < |es| && offset == OffsetOf(es, i) && |es[i].data| < MISREAD
      ensures next == OffsetOf(es, i + 1)
    {
      hide Archive, OffsetOf, Chars, Terminated, Reread, DecimalValue, Wrap32, Padded;
      HeaderFields(mem, es, i);
      var k := Atoi(mem[offset + 124..]);
      var size := OctalToDecimal(k);
      var align := Align(size);
      next := offset + 512 + align;
    }

    /** `find_offset_for_file`: the walk visits exactly the headers up to the first entry of that name. */
    method FindOffset(name: string, ghost es: seq<Entry>) returns (r: DWord)
      requires '/' in name && '\0' !in name && fname.Length == 1024 && |AfterSlash(name)| < 1024
      requires Archive(mem, es) && SmallUpTo(es, Lookup(es, AfterSlash(name)))
      modifies fname
      ensures var i := Lookup(es, AfterSlash(name));
              r == if i < |es| then OffsetOf(es, i) + 512 else 0
    {
      hide Archive, OffsetOf, Lookup, Chars, Terminated, Reread, DecimalValue, Wrap32, AfterSlash, Padded;
      ChangeName(name);
      ghost var key, i: nat := AfterSlash(name), 0;
      var offset: DWord := 0;
      HeaderName(mem, es, 0);
      var len := Strlen(mem[offset..]);
      while len != 0
        invariant i <= Lookup(es, key) && offset == OffsetOf(es, i) < |mem|
        invariant len == 0 <==> i == |es|
        invariant Terminated(fname[..]) && Chars(fname[..]) == key
        decreases |es| - i
      {
        HeaderFields(mem, es, i);
        var order := Kstrcmp(mem[offset..], fname[..]);
        if order == 0 {
          return offset + 512;
        }
        offset := NextHeader(offset, es, i);
        i := i + 1;
        HeaderName(mem, es, i);
        len := Strlen(mem[offset..]);
      }
      return 0;
    }

    /** The list as built from the first i entries. */
    ghost predicate Lists(es: seq<Entry>, i: nat)
      reads this`files, this`fdCount, files`offset
    {
      && i <= |es| && |files| == i + 1 && fdCount == FIRST_FD + 1 + i
      && files[0].name == ROOT && files[0].fd == FIRST_FD && files[0].kind == 5
      && (forall k :: 0 <= k < i ==> Describes(files, es, k))
      && forall k :: 0 < k <= i ==> files[k].offset == 0
    }

    /** The list element for the header at an offset. */
    method NewFile(offset: DWord) returns (f: File)
      requires offset + 156 <= |mem| && Terminated(mem[offset..])
      requires Terminated(mem[offset + 124..]) && Terminated(mem[offset + 156..])
      modifies this`fdCount
      ensures fresh(f) && fdCount == old(fdCount) + 1
      ensures f.name == ROOT + Chars(mem[offset..]) && f.fd == old(fdCount) && f.addr == (base + offset) % B64
      ensures f.size == SizeRead(Chars(mem[offset + 124..])) && f.offset == 0
      ensures f.kind == KindAt(mem, offset)
    {
      var kind := Atoi(mem[offset + 156..]);
      var k := Atoi(mem[offset + 124..]);
      var size := OctalToDecimal(k);
      f := new File(ROOT + Chars(mem[offset..]), fdCount, (base + offset) % B64, kind, size);
      fdCount := fdCount + 1;
    }

    /** The loop body of `initialize_tarfs`: lists the entry at an offset, and finds the next header. */
    method AddEntry(offset: DWord, ghost es: seq<Entry>, ghost i: nat) returns (next: DWord)
      requires Archive(mem, es) && Small(es) && i < |es| && offset == OffsetOf(es, i)
      requires Linked() && Lists(es, i)
      modifies this`filelist, this`files, this`fdCount, files`next
      ensures Linked() && Lists(es, i + 1) && next == OffsetOf(es, i + 1)
      ensures files[..i + 1] == old(files) && fresh(files[i + 1])
    {
      hide Archive, OffsetOf, Chars, Terminated, Reread, DecimalValue, Wrap32, Padded, Linked, Describes, KindAt;
      HeaderFields(mem, es, i);
      var f := NewFile(offset);
      next := NextHeader(offset, es, i);
      DescribesMore(files, f, es, i);
      AddToFilelist(f);
    }

    /** `initialize_tarfs`: one list element for the root and one for every entry. */
    method Initialize(ghost es: seq<Entry>)
      requires Archive(mem, es) && Small(es)
      requires Linked() && files == [] && fdCount == FIRST_FD
      modifies this`filelist, this`files, this`fdCount
      ensures Linked() && Indexes(es) && fresh(files) && fdCount == FIRST_FD + 1 + |es|
    {
      hide Archive, OffsetOf, Chars, Terminated, Linked, Describes;
      var offset: DWord := 0;
      var f := new File.Root(fdCount);
      fdCount := fdCount + 1;
      AddToFilelist(f);
      ghost var i: nat := 0;
      HeaderName(mem, es, 0);
      var len := Strlen(mem[offset..]);
      while len != 0
        invariant i <= |es| && offset == OffsetOf(es, i) < |mem| && (len == 0 <==> i == |es|)
        invariant Linked() && Lists(es, i) && fresh(files)
        decreases |es| - i
      {
        offset := AddEntry(offset, es, i);
        i := i + 1;
        HeaderName(mem, es, i);
        len := Strlen(mem[offset..]);
      }
    }

    /** `fopen`: the descriptor of the first list element of that name, -1 if there is none. The list loop
        stops short of the last element, so the last entry is never found. */
    method Fopen(name: string, ghost es: seq<Entry>) returns (fd: int)
      requires Linked() && Indexes(es)
      ensures fd == -1 <==> forall i :: 0 <= i < |files| - 1 ==> files[i].name != name
      ensures fd != -1 ==>
                var i := fd - FIRST_FD;
                && 0 <= i < |files| - 1 && files[i].name == name && files[i].fd == fd
                && forall k :: 0 <= k < i ==> files[k].name != name
      ensures Archive(mem, es) && Distinct(es) ==>
                forall i :: 0 <= i < |es| && name == ROOT + es[i].name ==>
                  fd == if i < |es| - 1 then FIRST_FD + 1 + i else -1
    {
      hide Archive, Distinct, OffsetOf;
      var t := filelist;
      ghost var i := 0;
      while t.next != null
        invariant 0 <= i < |files| && t == files[i]
        invariant forall k :: 0 <= k < i ==> files[k].name != name
        decreases |files| - i
      {
        if t.name == name {
          LastHasNoNext(i);
          assert i > 0 ==> Describes(files, es, i - 1);
          if Archive(mem, es) && Distinct(es) {
            EntryFound(es, name, i);
          }
          return t.fd;
        }
        t := t.next;
        i := i + 1;
      }
      LastHasNoNext(i);
      forall j | 0 <= j < |es| && name == ROOT + es[j].name
        ensures j == |es| - 1
      {
        assert Describes(files, es, j);
      }
      return -1;
    }

    /** The list element of an entry's name is that entry's. */
    lemma EntryFound(es: seq<Entry>, name: string, i: nat)
      requires Archive(mem, es) && Distinct(es) && Indexes(es) && i < |files| && files[i].name == name
      ensures forall j :: 0 <= j < |es| && name == ROOT + es[j].name ==> i == j + 1
    {
      forall j | 0 <= j < |es| && name == ROOT + es[j].name
        ensures i == j + 1
      {
        assert Describes(files, es, j);
        if i != j + 1 {
          NamesDiffer(es, i, j + 1);
        }
      }
    }

    /** The part of `fread` behind the list search, for the list element of entry i. */
    method ReadFrom(t: File, buf: array<char>, nbytes: DWord, ghost es: seq<Entry>, ghost i: nat) returns (n: nat)
      requires Archive(mem, es) && Distinct(es) && i < |es| && SmallUpTo(es, i + 1)
      requires t.name == ROOT + es[i].name && t.size == |es[i].data| && t.offset <= t.size
      requires fname.Length == 1024 && buf != fname && nbytes <= buf.Length
      modifies buf, fname, t`offset
      ensures var piece := Piece(es[i].data, old(t.offset), nbytes);
              && n == |piece| && t.offset == old(t.offset) + n <= |es[i].data|
              && buf[..n] == piece && buf[n..] == old(buf[n..])
    {
      hide Archive, Distinct, OffsetOf, Lookup, AfterSlash, Wrap32, Piece;
      EntryReads(mem, es, i);
      var start := FindOffset(t.name, es);
      var size := Wrap32(t.size);
      WrapCases(t.size);
      var count := nbytes;
      if (size - t.offset) % B64 < count {
        count := (size - t.offset) % B64;
      }
      PieceInMemory(mem, start, es[i].data, t.offset, nbytes);
      MemCopy(buf, mem, start + t.offset, count);
      n := count;
      t.offset := (t.offset + n) % B64;
    }

    /** `fread`: the next piece of the file's data, for every entry but the last; -1 for any other
        descriptor. The root's own descriptor is excluded: its size and offset are never set. */
    method Fread(fd: DWord, buf: array<char>, nbytes: DWord, ghost es: seq<Entry>) returns (n: int)
      requires Archive(mem, es) && Small(es) && Distinct(es) && Linked() && Indexes(es)
      requires fname.Length == 1024 && buf != fname && nbytes <= buf.Length && fd != FIRST_FD
      modifies buf, fname, files`offset
      ensures Linked() && Indexes(es)
      ensures n == -1 <==> fd < FIRST_FD || fd - FIRST_FD >= |es|
      ensures n == -1 ==> buf[..] == old(buf[..]) && unchanged(files`offset)
      ensures n != -1 ==>
                var i := fd - FIRST_FD - 1;
                var piece := Piece(es[i].data, old(files[i + 1].offset), nbytes);
                && n == |piece| <= nbytes && buf[..n] == piece && buf[n..] == old(buf[n..])
                && files[i + 1].offset == old(files[i + 1].offset) + n
                && forall k :: 0 <= k < |files| && k != i + 1 ==> files[k].offset == old(files[k].offset)
    {
      hide Archive, Distinct, OffsetOf, KindAt;
      var t := filelist;
      ghost var i := 0;
      while t.next != null
        invariant 0 <= i < |files| && t == files[i]
        invariant fd >= FIRST_FD ==> i <= fd - FIRST_FD
        decreases |files| - i
      {
        assert i > 0 ==> Describes(files, es, i - 1);
        if t.fd == fd {
          n := ReadFrom(t, buf, nbytes, es, i - 1);
          return;
        }
        t := t.next;
        i := i + 1;
      }
      LastHasNoNext(i);
      return -1;
    }

    /** Any run of `fread` calls, by descriptor and byte count: what the calls on a file returned, joined, is
        what reads of those sizes return of its data one after the other, whatever was read in between. */
    method ReadMany(calls: seq<(DWord, DWord)>, ghost es: seq<Entry>) returns (outs: seq<string>)
      requires Archive(mem, es) && Small(es) && Distinct(es) && Linked() && Indexes(es)
      requires fname.Length == 1024 && forall k :: 0 <= k < |calls| ==> calls[k].0 != FIRST_FD
      modifies fname, files`offset
      ensures Linked() && Indexes(es) && |outs| == |calls|
      ensures forall i :: 0 <= i < |es| - 1 ==>
                ReadSoFar(es[i].data, old(files[i + 1].offset), files[i + 1].offset, calls, outs, FdOf(i))
    {
      hide Archive, Small, Distinct, Linked, ReadSoFar, Piece;
      outs := [];
      forall i | 0 <= i < |es| - 1
        ensures ReadSoFar(es[i].data, files[i + 1].offset, files[i + 1].offset, calls[..0], outs, FdOf(i))
      {
        NothingRead(es[i].data, files[i + 1].offset, FdOf(i));
      }
      while |outs| < |calls|
        invariant |outs| <= |calls| && Linked() && Indexes(es)
        invariant forall i :: 0 <= i < |es| - 1 ==>
                    ReadSoFar(es[i].data, old(files[i + 1].offset), files[i + 1].offset,
                              calls[..|outs|], outs, FdOf(i))
      {
        ghost var n, done := |outs|, outs;
        var read := calls[|outs|];
        var buf := new char[read.1];
        label Before:
        var got := Fread(read.0, buf, read.1, es);
        var out := if got == -1 then "" else buf[..got];
        outs := outs + [out];
        assert calls[..n + 1] == calls[..n] + [read];
        forall i | 0 <= i < |es| - 1
          ensures ReadSoFar(es[i].data, old(files[i + 1].offset), files[i + 1].offset,
                            calls[..n + 1], outs, FdOf(i))
        {
          OneMoreRead(es[i].data, old(files[i + 1].offset), old@Before(files[i + 1].offset), files[i + 1].offset,
                      calls[..n], done, read, out, FdOf(i));
        }
      }
      assert calls[..|outs|] == calls;
    }
  }

  // ---- Reading a whole file ----------------------------------------------------------------------

  /** At most n characters of the data from a position on. */
  function Piece(data: string, at: nat, n: nat): string
    requires at <= |data|
  {
    if |data| - at < n then data[at..] else data[at..at + n]
  }

  lemma PieceInMemory(mem: string, p: nat, data: string, at: nat, n: nat)
    requires p + |data| <= |mem| && mem[p..p + |data|] == data && at <= |data|
    ensures var count := if |data| - at < n then |data| - at else n;
            |Piece(data, at, n)| == count && Piece(data, at, n) == mem[p + at..p + at + count]
  {
    var count := if |data| - at < n then |data| - at else n;
    var a, b := data[at..at + count], mem[p + at..p + at + count];
    forall k | 0 <= k < count
      ensures a[k] == b[k]
    {
      assert mem[p..p + |data|][at + k] == data[at + k];
    }
  }

  /** What a sequence of reads returns, joined. */
  function Pieces(data: string, at: nat, sizes: seq<nat>): string
    requires at <= |data|
    decreases |sizes|
  {
    if sizes == [] then ""
    else
      var p := Piece(data, at, sizes[0]);
      p + Pieces(data, at + |p|, sizes[1..])
  }

  function Sum(sizes: seq<nat>): nat {
    if sizes == [] then 0 else sizes[0] + Sum(sizes[1..])
  }

  /** The sizes of the reads on one descriptor, and what they returned, joined. */
  function SizesOf(calls: seq<(DWord, DWord)>, fd: int): seq<nat> {
    if calls == [] then []
    else
      var last := calls[|calls| - 1];
      SizesOf(calls[..|calls| - 1], fd) + if last.0 == fd then [last.1] else []
  }

  function Joined(calls: seq<(DWord, DWord)>, outs: seq<string>, fd: int): string
    requires |outs| == |calls|
    decreases |calls|
  {
    if calls == [] then ""
    else
      var n := |calls| - 1;
      Joined(calls[..n], outs[..n], fd) + if calls[n].0 == fd then outs[n] else ""
  }

  /** The reads on a descriptor have taken its file from one position to another, piece after piece: together
      they returned the data between, as much as they asked for or all that was left. */
  predicate ReadSoFar(data: string, from: nat, to: nat, calls: seq<(DWord, DWord)>, outs: seq<string>, fd: int)
    requires |outs| == |calls|
  {
    && from <= |data|
    && Joined(calls, outs, fd) == Pieces(data, from, SizesOf(calls, fd)) == Piece(data, from, Sum(SizesOf(calls, fd)))
    && to == from + |Joined(calls, outs, fd)| <= |data|
  }

  lemma NothingRead(data: string, at: nat, fd: int)
    requires at <= |data|
    ensures ReadSoFar(data, at, at, [], [], fd)
  {
  }

  lemma OneMoreRead(data: string, from: nat, at: nat, to: nat, calls: seq<(DWord, DWord)>, outs: seq<string>,
                    read: (DWord, DWord), out: string, fd: int)
    requires |outs| == |calls| && ReadSoFar(data, from, at, calls, outs, fd)
    requires if read.0 == fd then out == Piece(data, at, read.1) && to == at + |out| else to == at
    ensures ReadSoFar(data, from, to, calls + [read], outs + [out], fd)
  {
    hide Piece, Pieces;
    var sizes := SizesOf(calls, fd);
    assert (calls + [read])[..|calls|] == calls && (outs + [out])[..|outs|] == outs;
    if read.0 == fd {
      SumSnoc(sizes, read.1);
      PieceJoin(data, from, Sum(sizes), read.1);
      ReadsArePrefix(data, from, sizes + [read.1]);
    } else {
      assert sizes + [] == sizes;
    }
    PieceLength(data, from, Sum(SizesOf(calls + [read], fd)));
  }

  lemma PieceLength(data: string, at: nat, n: nat)
    requires at <= |data|
    ensures at + |Piece(data, at, n)| <= |data|
  {
  }

  lemma {:induction false} SumSnoc(sizes: seq<nat>, n: nat)
    ensures Sum(sizes + [n]) == Sum(sizes) + n
  {
    if sizes == [] {
      assert sizes + [n] == [n] && [n][1..] == [];
    } else {
      assert (sizes + [n])[1..] == sizes[1..] + [n];
      SumSnoc(sizes[1..], n);
    }
  }

  /** Reads of any sizes from the start return the data's prefix of their total size, or all of it; so
      nothing more once the end is reached. */
  lemma {:induction false} ReadsArePrefix(data: string, at: nat, sizes: seq<nat>)
    requires at <= |data|
    ensures Pieces(data, at, sizes) == Piece(data, at, Sum(sizes))
    decreases |sizes|
  {
    hide Piece;
    if sizes == [] {
      EmptyPiece(data, at);
    } else {
      PieceJoin(data, at, sizes[0], Sum(sizes[1..]));
      ReadsArePrefix(data, at + |Piece(data, at, sizes[0])|, sizes[1..]);
    }
  }

  lemma EmptyPiece(data: string, at: nat)
    requires at <= |data|
    ensures Piece(data, at, 0) == ""
  {
  }

  lemma PieceJoin(data: string, at: nat, n: nat, m: nat)
    requires at <= |data|
    ensures at + |Piece(data, at, n)| <= |data|
    ensures Piece(data, at, n) + Piece(data, at + |Piece(data, at, n)|, m) == Piece(data, at, n + m)
  {
    var p := Piece(data, at, n);
    if |data| - at >= n {
      var q := Piece(data, at + n, m);
      assert p + q == data[at..at + n + |q|];
    }
  }
}
