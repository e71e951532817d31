/** Number formatting and reading in w1: `number` of libc/printf.c, `atoi` and `htol` of libc/string.c. */
module Printf {
  import opened Words
  import opened Wrappers

  /** The `type` argument of `number`, one field per flag bit. */
  datatype Flags = Flags(zeropad: bool, sign: bool, plus: bool, space: bool, left: bool, small: bool, special: bool)

  const DIGITS: string := "0123456789ABCDEF"

  /** A character or-ed with `locase`, the bit 0x20 when SMALL is set. */
  function Locase(c: char, small: bool): (r: char)
    requires c as int < 0x80
  {
    OrBelow(c as int, if small then 0x20 else 0, 7);
    BitOr(c as int, if small then 0x20 else 0) as char
  }

  lemma {:induction false} OrBelow(a: nat, b: nat, k: nat)
    requires a < Pow2(k) && b < Pow2(k)
    ensures BitOr(a, b) < Pow2(k)
    decreases k
  {
    if k > 0 {
      OrBelow(a / 2, b / 2, k - 1);
    }
  }

  function DigitChar(d: nat, small: bool): (c: char)
    requires d < 16
  {
    Locase(DIGITS[d], small)
  }

  lemma DigitChars(d: nat, small: bool)
    requires d < 16
    ensures DigitChar(d, small) == if d < 10 then '0' + d as char else (if small then 'a' else 'A') + (d - 10) as char
  {
    DigitCode(d);
    var c := DIGITS[d] as int;
    OrZero(c);
    LowerCase(c);
  }

  lemma DigitCode(d: nat)
    requires d < 16
    ensures DIGITS[d] as int == if d < 10 then 0x30 + d else 0x37 + d
  {
    assert DIGITS == ['0', '1', '2', '3', '4', '5', '6', '7', '8', '9', 'A', 'B', 'C', 'D', 'E', 'F'];
  }

  /** The bit 0x20 leaves digits as they are and turns capital letters into small ones. */
  lemma LowerCase(c: nat)
    requires 0x30 <= c < 0x60
    ensures BitOr(c, 0x20) == if c < 0x40 then c else c + 0x20
  {
    hide BitOr;
    assert Pow2(4) == 16;
    var h := if c < 0x40 then 3 else if c < 0x50 then 4 else 5;
    OrKeepsLow(h, c - 16 * h, 2, 4);
    HighNibbles();
  }

  lemma HighNibbles()
    ensures BitOr(3, 2) == 3 && BitOr(4, 2) == 6 && BitOr(5, 2) == 7
  {
    assert BitOr(1, 1) == 1 && BitOr(2, 1) == 3;
  }

  // ---- What a formatted number looks like --------------------------------------------------------

  type Long = x: int | -0x8000_0000_0000_0000 <= x < 0x8000_0000_0000_0000

  /** A C `long` taken as `unsigned long`, and back. */
  function Unsigned(x: Long): DWord { if x < 0 then x + B64 else x }

  function Signed(u: DWord): Long { if u < 0x8000_0000_0000_0000 then u else u - B64 }

  function Neg(x: int): int { -x }

  function Negate(x: Long): (r: Long)
    ensures x < 0 ==> Unsigned(r) == Neg(x)
  {
    Signed((B64 - Unsigned(x)) % B64)
  }

  /** The digits of u, most significant first; a single 0 for zero. */
  function Digits(u: nat, base: nat): (ds: seq<nat>)
    requires 2 <= base
    ensures ds != [] && forall i :: 0 <= i < |ds| ==> ds[i] < base
  {
    if u < base then [u]
    else
      Shrinks(u, base);
      Digits(u / base, base) + [u % base]
  }

  lemma Shrinks(u: nat, base: nat)
    requires 2 <= base && u > 0
    ensures 0 <= u / base < u && 2 * (u / base) <= u
  {
    var q := u / base;
    assert u == q * base + u % base;
    MulMonotone(q, 2, base);
  }

  /** The characters of a digit string. */
  function Text(ds: seq<nat>, small: bool): (s: string)
    requires forall i :: 0 <= i < |ds| ==> ds[i] < 16
    ensures |s| == |ds|
  {
    seq(|ds|, i requires 0 <= i < |ds| => DigitChar(ds[i], small))
  }

  function Repeat(c: char, n: int): (s: string)
    ensures |s| == if n > 0 then n else 0
    ensures forall i :: 0 <= i < |s| ==> s[i] == c
  {
    if n > 0 then seq(n, _ => c) else []
  }

  function SignText(num: Long, t: Flags): string {
    if !t.sign then "" else if num < 0 then "-" else if t.plus then "+" else if t.space then " " else ""
  }

  function PrefixText(base: nat, t: Flags): string {
    if !t.special then "" else if base == 16 then (if t.small then "0x" else "0X") else if base == 8 then "0" else ""
  }

  /** The value whose digits are printed. */
  function Magnitude(num: Long, t: Flags): DWord {
    if t.sign && num < 0 then Neg(num) else Unsigned(num)
  }

  function DigitText(num: Long, base: nat, t: Flags): string
    requires 2 <= base <= 16
  {
    Text(Digits(Magnitude(num, t), base), t.small)
  }

  /** The digits with the zeros the precision asks for. */
  function Numeral(num: Long, base: nat, precision: int, t: Flags): string
    requires 2 <= base <= 16
  {
    Repeat('0', precision - |DigitText(num, base, t)|) + DigitText(num, base, t)
  }

  /** The whole field: sign, prefix and digits, padded to the width on the side and with the character the
      flags choose (LEFT overrides ZEROPAD). */
  function Layout(num: Long, base: nat, size: int, precision: int, t: Flags): string
    requires 2 <= base <= 16
  {
    var head := SignText(num, t) + PrefixText(base, t);
    var numeral := Numeral(num, base, precision, t);
    var pad := size - |head| - |numeral|;
    if t.left then head + numeral + Repeat(' ', pad)
    else if t.zeropad then head + Repeat('0', pad) + numeral
    else Repeat(' ', pad) + head + numeral
  }

  function Max(a: int, b: int): int { if a > b then a else b }

  /** The field is as wide as asked, or as wide as sign, prefix and max(digits, precision) need. */
  lemma LayoutLength(num: Long, base: nat, size: int, precision: int, t: Flags)
    requires 2 <= base <= 16
    ensures |Layout(num, base, size, precision, t)| ==
            Max(size, |SignText(num, t)| + |PrefixText(base, t)| + Max(|DigitText(num, base, t)|, precision))
  {
  }

  // ---- `number` ----------------------------------------------------------------------------------

  /** `now` is `before` with w written at `at`. */
  ghost predicate Wrote(before: seq<char>, now: seq<char>, at: nat, w: string) {
    && |now| == |before| && at + |w| <= |now|
    && now[at..at + |w|] == w
    && (forall i :: 0 <= i < at || at + |w| <= i < |now| ==> now[i] == before[i])
  }

  lemma WroteMore(before: seq<char>, mid: seq<char>, now: seq<char>, at: nat, w: string, v: string)
    requires Wrote(before, mid, at, w) && Wrote(mid, now, at + |w|, v)
    ensures Wrote(before, now, at, w + v)
  {
    assert now[at..at + |w|] == mid[at..at + |w|];
    assert now[at..at + |w + v|] == now[at..at + |w|] + now[at + |w|..at + |w| + |v|];
  }

  /** `while (n-- > 0) *str++ = c;` */
  method Fill(buf: array<char>, str: nat, n: int, c: char) returns (end: nat, left: int)
    requires str + Max(n, 0) <= buf.Length
    modifies buf
    ensures Wrote(old(buf[..]), buf[..], str, Repeat(c, n))
    ensures end == str + Max(n, 0) && left == (if n > 0 then -1 else n - 1)
  {
    end, left := str, n;
    while left > 0
      invariant left == n - (end - str) && str <= end <= str + Max(n, 0)
      invariant Wrote(old(buf[..]), buf[..], str, Repeat(c, end - str))
      decreases left
    {
      ghost var before := buf[..];
      buf[end] := c;
      assert Wrote(before, buf[..], end, [c]);
      WroteMore(old(buf[..]), before, buf[..], str, Repeat(c, end - str), [c]);
      assert Repeat(c, end - str) + [c] == Repeat(c, end - str + 1);
      left, end := left - 1, end + 1;
    }
    left := left - 1;
  }

  /** The characters of w, stored one after the other. */
  method Put(buf: array<char>, str: nat, w: string) returns (end: nat)
    requires str + |w| <= buf.Length
    modifies buf
    ensures Wrote(old(buf[..]), buf[..], str, w) && end == str + |w|
  {
    end := str;
    while end < str + |w|
      invariant str <= end <= str + |w|
      invariant Wrote(old(buf[..]), buf[..], str, w[..end - str])
    {
      ghost var before := buf[..];
      buf[end] := w[end - str];
      assert Wrote(before, buf[..], end, [w[end - str]]);
      WroteMore(old(buf[..]), before, buf[..], str, w[..end - str], [w[end - str]]);
      assert w[..end - str] + [w[end - str]] == w[..end - str + 1];
      end := end + 1;
    }
    assert w[..|w|] == w;
  }

  function Reversed(s: seq<char>): (r: seq<char>)
    ensures |r| == |s|
  {
    if s == [] then [] else [s[|s| - 1]] + Reversed(s[..|s| - 1])
  }

  /** The digit loop of `number`: the digits of n, least significant first, in tmp. 64-bit values fit. */
  method DigitLoop(tmp: array<char>, num: DWord, base: nat, small: bool) returns (i: nat)
    requires tmp.Length == 66 && 2 <= base <= 16
    modifies tmp
    ensures 0 < i <= 64 && Reversed(tmp[..i]) == Text(Digits(num, base), small)
  {
    hide Digits, Text, DigitChar, Pow2;
    i := 0;
    if num == 0 {
      tmp[0] := '0';
      ZeroText(base, small);
      assert tmp[..1] == ['0'];
      return 1;
    }
    var n: DWord := num;
    ghost var all := Text(Digits(num, base), small);
    Pow2Of64();
    DigitCount(num, base, 64);
    while n != 0
      invariant i <= |all| <= 64
      invariant all == (if n == 0 then [] else Text(Digits(n, base), small)) + Reversed(tmp[..i])
      decreases n
    {
      LastDigit(n, base, small);
      Shrinks(n, base);
      ghost var rest, high := Reversed(tmp[..i]), if n / base == 0 then [] else Text(Digits(n / base, base), small);
      var res := n % base;
      tmp[i] := DigitChar(res, small);
      assert tmp[..i + 1][..i] == tmp[..i];
      assert Reversed(tmp[..i + 1]) == [DigitChar(res, small)] + rest;
      Regroup(high, [DigitChar(res, small)], rest);
      n := Quot(n, base);
      i := i + 1;
    }
  }

  /** A value below 2^k has at most k digits in any base. */
  lemma {:induction false} DigitCount(u: nat, base: nat, k: nat)
    requires 2 <= base && 1 <= k && u < Pow2(k)
    ensures |Digits(u, base)| <= k
    decreases k
  {
    if u >= base {
      Shrinks(u, base);
      assert k > 1;
      DigitCount(u / base, base, k - 1);
    }
  }

  lemma ZeroText(base: nat, small: bool)
    requires 2 <= base <= 16
    ensures Text(Digits(0, base), small) == ['0']
  {
    DigitChars(0, small);
  }

  lemma LastDigit(n: nat, base: nat, small: bool)
    requires 2 <= base <= 16 && n > 0
    ensures n % base < 16
    ensures Text(Digits(n, base), small) ==
            (if n / base == 0 then [] else Text(Digits(n / base, base), small)) + [DigitChar(n % base, small)]
  {
    if n < base {
      QuotientIs(n, base, 0, n);
    } else {
      MulStrict(base, 0, n / base + 1);
      assert n / base >= 1 by {
        assert n == n / base * base + n % base;
      }
    }
  }

  lemma Pow2Of64()
    ensures Pow2(64) == B64
  {
    Pow2Of32();
    Pow2Add(32, 32);
  }

  /** `while (i-- > 0) *str++ = tmp[i];` */
  method PutReversed(buf: array<char>, str: nat, tmp: array<char>, i: nat) returns (end: nat)
    requires i <= tmp.Length && str + i <= buf.Length && buf != tmp
    modifies buf
    ensures Wrote(old(buf[..]), buf[..], str, Reversed(tmp[..i])) && end == str + i
  {
    end := str;
    var j: nat := i;
    ghost var w := "";
    while j > 0
      invariant 0 <= j <= i && end == str + |w| && |w| == i - j
      invariant Reversed(tmp[..i]) == w + Reversed(tmp[..j])
      invariant Wrote(old(buf[..]), buf[..], str, w)
    {
      j := j - 1;
      ghost var before := buf[..];
      buf[end] := tmp[j];
      assert Wrote(before, buf[..], end, [tmp[j]]);
      WroteMore(old(buf[..]), before, buf[..], str, w, [tmp[j]]);
      assert tmp[..j + 1][..j] == tmp[..j];
      assert Reversed(tmp[..j + 1]) == [tmp[j]] + Reversed(tmp[..j]);
      Regroup(w, [tmp[j]], Reversed(tmp[..j]));
      w := w + [tmp[j]];
      end := end + 1;
    }
    assert w + Reversed(tmp[..0]) == w;
  }

  /** The pad the width asks for, once sign, prefix and digits are accounted for. */
  function PadWidth(num: Long, base: nat, size: int, precision: int, t: Flags): int
    requires 2 <= base <= 16
  {
    size - |SignText(num, t)| - |PrefixText(base, t)| - Max(|DigitText(num, base, t)|, precision)
  }

  /** Spaces, sign, prefix and padding zeros; then the precision's zeros, the digits and spaces. */
  function HeadText(sign: string, prefix: string, pad: int, t: Flags): string {
    Repeat(' ', if t.left || t.zeropad then 0 else pad) + sign + prefix
    + Repeat('0', if t.zeropad && !t.left then pad else 0)
  }

  function TailText(digits: string, zeros: int, pad: int, t: Flags): string {
    Repeat('0', zeros) + digits + Repeat(' ', if t.left then pad else 0)
  }

  /** The layout in the two parts `number` emits. */
  lemma LayoutParts(num: Long, base: nat, size: int, precision: int, t: Flags)
    requires 2 <= base <= 16
    ensures var pad := PadWidth(num, base, size, precision, t);
            var digits := DigitText(num, base, t);
            Layout(num, base, size, precision, t) ==
              HeadText(SignText(num, t), PrefixText(base, t), pad, t) + TailText(digits, precision - |digits|, pad, t)
  {
    var pad := PadWidth(num, base, size, precision, t);
    LayoutOf(SignText(num, t), PrefixText(base, t), DigitText(num, base, t), precision, pad, t);
  }

  lemma LayoutOf(sign: string, prefix: string, digits: string, precision: int, pad: int, t: Flags)
    ensures var h, n := sign + prefix, Repeat('0', precision - |digits|) + digits;
            HeadText(sign, prefix, pad, t) + TailText(digits, precision - |digits|, pad, t) ==
              if t.left then h + n + Repeat(' ', pad)
              else if t.zeropad then h + Repeat('0', pad) + n
              else Repeat(' ', pad) + h + n
  {
    var h, n := sign + prefix, Repeat('0', precision - |digits|) + digits;
    var head, tail := HeadText(sign, prefix, pad, t), TailText(digits, precision - |digits|, pad, t);
    if t.left {
      assert head == h && tail == n + Repeat(' ', pad);
      Regroup(h, n, Repeat(' ', pad));
    } else if t.zeropad {
      assert head == h + Repeat('0', pad) && tail == n;
    } else {
      assert head == Repeat(' ', pad) + h && tail == n;
    }
  }

  /** The emitting half of `number` up to the padding zeros; `size` is the pad still to come. */
  method EmitHead(buf: array<char>, str: nat, sign: string, prefix: string, size: int, t: Flags)
    returns (end: nat, left: int)
    requires str + |HeadText(sign, prefix, size, t)| <= buf.Length
    modifies buf
    ensures Wrote(old(buf[..]), buf[..], str, HeadText(sign, prefix, size, t))
    ensures end == str + |HeadText(sign, prefix, size, t)|
    ensures Max(left, 0) == if t.left then Max(size, 0) else 0
  {
    hide Repeat, HeadText, Wrote;
    HeadTextIs(sign, prefix, size, t);
    ghost var b0 := buf[..];
    ghost var w := Repeat(' ', if t.left || t.zeropad then 0 else size);
    WroteNothing(b0, str);
    end, left := str, size;
    if !(t.left || t.zeropad) {
      end, left := Fill(buf, end, left, ' ');
    }
    ghost var b1 := buf[..];
    assert Wrote(b0, b1, str, w);
    end := PutTwo(buf, end, sign, prefix);
    ghost var b2 := buf[..];
    WroteMore(b0, b1, b2, str, w, sign + prefix);
    ghost var z := Repeat('0', if t.zeropad && !t.left then size else 0);
    WroteNothing(b2, end);
    if !t.left {
      var c := if t.zeropad then '0' else ' ';
      assert z == Repeat(c, left);
      end, left := Fill(buf, end, left, c);
    }
    assert Wrote(b2, buf[..], str + |w + (sign + prefix)|, z);
    WroteMore(b0, b2, buf[..], str, w + (sign + prefix), z);
    Regroup(w, sign, prefix);
  }

  lemma HeadTextIs(sign: string, prefix: string, pad: int, t: Flags)
    ensures HeadText(sign, prefix, pad, t) ==
            Repeat(' ', if t.left || t.zeropad then 0 else pad) + sign + prefix
            + Repeat('0', if t.zeropad && !t.left then pad else 0)
  {
  }

  lemma WroteNothing(s: seq<char>, at: nat)
    ensures at <= |s| ==> Wrote(s, s, at, "")
  {
  }

  lemma Regroup(a: string, b: string, c: string)
    ensures a + (b + c) == a + b + c
  {
  }

  method PutTwo(buf: array<char>, str: nat, v: string, w: string) returns (end: nat)
    requires str + |v| + |w| <= buf.Length
    modifies buf
    ensures Wrote(old(buf[..]), buf[..], str, v + w) && end == str + |v| + |w|
  {
    ghost var b0 := buf[..];
    end := Put(buf, str, v);
    ghost var b1 := buf[..];
    end := Put(buf, end, w);
    WroteMore(b0, b1, buf[..], str, v, w);
  }

  /** The rest: the precision's zeros, the digits from tmp, trailing spaces. */
  method EmitTail(buf: array<char>, str: nat, tmp: array<char>, i: nat, precision: int, size: int) returns (end: nat)
    requires buf != tmp && i <= tmp.Length
    requires str + Max(precision - i, 0) + i + Max(size, 0) <= buf.Length
    modifies buf
    ensures Wrote(old(buf[..]), buf[..], str,
                  Repeat('0', precision - i) + Reversed(tmp[..i]) + Repeat(' ', size))
    ensures end == str + Max(precision - i, 0) + i + Max(size, 0)
  {
    hide Repeat, Wrote, Reversed;
    ghost var b0, z := buf[..], Repeat('0', precision - i);
    var left;
    end, left := Fill(buf, str, precision - i, '0');
    ghost var b1 := buf[..];
    end := PutReversed(buf, end, tmp, i);
    ghost var b2 := buf[..];
    WroteMore(b0, b1, b2, str, z, Reversed(tmp[..i]));
    end, left := Fill(buf, end, size, ' ');
    WroteMore(b0, b2, buf[..], str, z + Reversed(tmp[..i]), Repeat(' ', size));
  }

  /** `number`: formats num into buf at str and returns the end, or NULL for a base outside 2..16. */
  method Number(buf: array<char>, str: nat, num: Long, base: int, size: int, precision: int, t: Flags)
    returns (end: Option<nat>)
    requires 2 <= base <= 16 ==> str + |Layout(num, base, size, precision, t)| <= buf.Length
    modifies buf
    ensures end == None <==> base < 2 || base > 16
    ensures end == None ==> buf[..] == old(buf[..])
    ensures end != None ==>
              && end == Some(str + |Layout(num, base, size, precision, t)|)
              && Wrote(old(buf[..]), buf[..], str, Layout(num, base, size, precision, t))
  {
    hide Layout, HeadText, TailText, DigitText, Repeat, Digits, Text, SignText, PrefixText, Wrote, Magnitude, Unsigned;
    if base < 2 || base > 16 {
      return None;
    }
    LayoutParts(num, base, size, precision, t);
    DigitTextIs(num, base, t);
    var sign, num', left := TakeSign(num, base, size, t);
    var tmp := new char[66];
    var i := DigitLoop(tmp, Unsigned(num'), base, t.small);
    var prec := if i > precision then i else precision;
    left := left - prec;
    var prefix := MakePrefix(base, t);
    var p := Emit(buf, str, sign, prefix, tmp, i, precision, prec, left, t, DigitText(num, base, t));
    end := Some(p);
  }

  lemma DigitTextIs(num: Long, base: nat, t: Flags)
    requires 2 <= base <= 16
    ensures DigitText(num, base, t) == Text(Digits(Magnitude(num, t), base), t.small)
  {
  }

  /** The emitting half of `number`: `size` is the pad the width asks for, `prec` the number of digits. */
  method Emit(buf: array<char>, str: nat, sign: string, prefix: string, tmp: array<char>, i: nat,
              ghost precision: int, prec: int, size: int, t: Flags, ghost digits: string) returns (end: nat)
    requires buf != tmp && i <= tmp.Length && Reversed(tmp[..i]) == digits && prec == Max(i, precision)
    requires str + |HeadText(sign, prefix, size, t) + TailText(digits, precision - i, size, t)| <= buf.Length
    modifies buf
    ensures Wrote(old(buf[..]), buf[..], str,
                  HeadText(sign, prefix, size, t) + TailText(digits, precision - i, size, t))
    ensures end == str + |HeadText(sign, prefix, size, t) + TailText(digits, precision - i, size, t)|
  {
    hide HeadText, TailText, Repeat, Wrote;
    ghost var b0 := buf[..];
    var left;
    TailLength(digits, precision - i, size, t);
    end, left := EmitHead(buf, str, sign, prefix, size, t);
    ghost var b1 := buf[..];
    end := EmitTail(buf, end, tmp, i, prec, left);
    SameTail(digits, precision, prec, size, left, t);
    WroteMore(b0, b1, buf[..], str, HeadText(sign, prefix, size, t), TailText(digits, precision - i, size, t));
  }

  lemma TailLength(digits: string, zeros: int, pad: int, t: Flags)
    ensures |TailText(digits, zeros, pad, t)| == Max(zeros, 0) + |digits| + if t.left then Max(pad, 0) else 0
  {
  }

  /** The opening of `number`: the sign character, the value whose digits to print, and the width left after
      sign and prefix. */
  method TakeSign(num: Long, base: nat, size: int, t: Flags) returns (sign: string, num': Long, left: int)
    requires 2 <= base <= 16
    ensures sign == SignText(num, t) && Unsigned(num') == Magnitude(num, t)
    ensures left == size - |SignText(num, t)| - |PrefixText(base, t)|
  {
    sign, num', left := "", num, size;
    if t.sign {
      if num < 0 {
        sign := "-";
        num' := Negate(num);
        left := left - 1;
      } else if t.plus {
        sign := "+";
        left := left - 1;
      } else if t.space {
        sign := " ";
        left := left - 1;
      }
    }
    if t.special {
      if base == 16 {
        left := left - 2;
      } else if base == 8 {
        left := left - 1;
      }
    }
  }

  /** The prefix of SPECIAL: '0' in base 8, '0' and 'X' or-ed with the case bit in base 16. */
  method MakePrefix(base: nat, t: Flags) returns (prefix: string)
    ensures prefix == PrefixText(base, t)
  {
    prefix := "";
    if t.special {
      if base == 8 {
        prefix := ['0'];
      } else if base == 16 {
        OrZero('X' as int);
        LowerCase('X' as int);
        prefix := ['0', Locase('X', t.small)];
      }
    }
  }

  lemma SameTail(digits: string, precision: int, prec: int, pad: int, left: int, t: Flags)
    requires prec == Max(|digits|, precision) && Max(left, 0) == if t.left then Max(pad, 0) else 0
    ensures Repeat('0', prec - |digits|) + digits + Repeat(' ', left)
         == TailText(digits, precision - |digits|, pad, t)
  {
    assert Repeat('0', prec - |digits|) == Repeat('0', precision - |digits|);
    assert Repeat(' ', left) == Repeat(' ', if t.left then pad else 0);
  }

  // ---- Reading a formatted number back -----------------------------------------------------------

  /** The value of a digit character, or 16. */
  function DigitValue(c: char): nat {
    if '0' <= c <= '9' then c as nat - '0' as nat
    else if 'A' <= c <= 'F' then c as nat - 'A' as nat + 10
    else if 'a' <= c <= 'f' then c as nat - 'a' as nat + 10
    else 16
  }

  /** The number the leading digits of s spell, continuing from acc. */
  function Scan(s: string, base: nat, acc: nat): nat {
    if s == "" || DigitValue(s[0]) >= base then acc else Scan(s[1..], base, acc * base + DigitValue(s[0]))
  }

  function Trim(s: string): string {
    if s != "" && s[0] == ' ' then Trim(s[1..]) else s
  }

  /** What a reader makes of a field: skip spaces, take a sign, skip the prefix, read the digits. */
  function ReadBack(s: string, base: nat, special: bool): int {
    var u := Trim(s);
    var negative := u != "" && u[0] == '-';
    var v := if u != "" && (u[0] == '-' || u[0] == '+') then u[1..] else u;
    var w := if special && base == 16 && |v| >= 2 then v[2..] else v;
    var n := Scan(w, base, 0);
    if negative then Neg(n) else n
  }

  predicate AllDigits(s: string, base: nat) {
    forall i :: 0 <= i < |s| ==> DigitValue(s[i]) < base
  }

  lemma {:induction false} ScanJoin(s: string, r: string, base: nat, acc: nat)
    requires AllDigits(s, base)
    ensures Scan(s + r, base, acc) == Scan(r, base, Scan(s, base, acc))
  {
    if s == "" {
      assert s + r == r;
    } else {
      assert (s + r)[1..] == s[1..] + r;
      ScanJoin(s[1..], r, base, acc * base + DigitValue(s[0]));
    }
  }

  lemma DigitReads(d: nat, small: bool)
    requires d < 16
    ensures DigitValue(DigitChar(d, small)) == d
  {
    DigitChars(d, small);
  }

  lemma TextIsDigits(ds: seq<nat>, base: nat, small: bool)
    requires base <= 16 && forall i :: 0 <= i < |ds| ==> ds[i] < base
    ensures AllDigits(Text(ds, small), base)
  {
    forall i | 0 <= i < |ds|
      ensures DigitValue(Text(ds, small)[i]) < base
    {
      DigitReads(ds[i], small);
    }
  }

  lemma {:induction false} DigitsScan(u: nat, base: nat, small: bool)
    requires 2 <= base <= 16
    ensures Scan(Text(Digits(u, base), small), base, 0) == u
  {
    var d := u % base;
    DigitReads(d, small);
    if u < base {
      assert d == u by { QuotientIs(u, base, 0, u); }
      assert Text(Digits(u, base), small) == [DigitChar(d, small)];
      ScanOne(DigitChar(d, small), base, 0);
    } else {
      Shrinks(u, base);
      var high := Text(Digits(u / base, base), small);
      assert Text(Digits(u, base), small) == high + [DigitChar(d, small)];
      TextIsDigits(Digits(u / base, base), base, small);
      DigitsScan(u / base, base, small);
      ScanJoin(high, [DigitChar(d, small)], base, 0);
      ScanOne(DigitChar(d, small), base, u / base);
    }
  }

  lemma ScanOne(c: char, base: nat, acc: nat)
    requires DigitValue(c) < base
    ensures Scan([c], base, acc) == acc * base + DigitValue(c)
  {
    assert [c][1..] == "";
  }

  lemma {:induction false} ZerosScan(n: int, base: nat)
    requires 0 < base
    ensures Scan(Repeat('0', n), base, 0) == 0 && AllDigits(Repeat('0', n), base)
    decreases n
  {
    if n > 0 {
      assert Repeat('0', n)[1..] == Repeat('0', n - 1);
      ZerosScan(n - 1, base);
    }
  }

  lemma {:induction false} TrimSpaces(n: int, s: string)
    ensures Trim(Repeat(' ', n) + s) == Trim(s)
    decreases n
  {
    if n > 0 {
      assert (Repeat(' ', n) + s)[1..] == Repeat(' ', n - 1) + s;
      TrimSpaces(n - 1, s);
    } else {
      assert Repeat(' ', n) + s == s;
    }
  }

  /** Zeros and digits, up to the spaces that follow, spell the magnitude. */
  lemma NumeralScans(zeros: int, u: nat, base: nat, small: bool, trail: int)
    requires 2 <= base <= 16
    ensures Scan(Repeat('0', zeros) + (Text(Digits(u, base), small) + Repeat(' ', trail)), base, 0) == u
  {
    var z, ds, e := Repeat('0', zeros), Text(Digits(u, base), small), Repeat(' ', trail);
    ZerosScan(zeros, base);
    ScanJoin(z, ds + e, base, 0);
    TextIsDigits(Digits(u, base), base, small);
    ScanJoin(ds, e, base, 0);
    DigitsScan(u, base, small);
  }

  /** Zeros, digits and trailing spaces: a field without leading spaces, sign and prefix. */
  function Core(zeros: int, ds: string, trail: int): (s: string)
    requires ds != "" && AllDigits(ds, 16)
    ensures s != "" && DigitValue(s[0]) < 16
  {
    Repeat('0', zeros) + (ds + Repeat(' ', trail))
  }

  /** A field, whatever its padding, as leading spaces, sign, prefix and core. */
  lemma LayoutShape(num: Long, base: nat, size: int, precision: int, t: Flags) returns (a: int, z: int, b: int)
    requires 2 <= base <= 16
    ensures DigitText(num, base, t) != "" && AllDigits(DigitText(num, base, t), 16)
    ensures Layout(num, base, size, precision, t) ==
            Repeat(' ', a) + (SignText(num, t) + (PrefixText(base, t) + Core(z, DigitText(num, base, t), b)))
    ensures a == if t.left || t.zeropad then 0 else PadWidth(num, base, size, precision, t)
  {
    LayoutParts(num, base, size, precision, t);
    var ds, pad := DigitText(num, base, t), PadWidth(num, base, size, precision, t);
    TextIsDigits(Digits(Magnitude(num, t), base), base, t.small);
    a := if t.left || t.zeropad then 0 else pad;
    b := if t.left then pad else 0;
    var zp, zs := if t.zeropad && !t.left then pad else 0, precision - |ds|;
    z := Max(zp, 0) + Max(zs, 0);
    assert Repeat('0', zp) + Repeat('0', zs) == Repeat('0', z);
    Shape(Repeat(' ', a), SignText(num, t), PrefixText(base, t), Repeat('0', zp), Repeat('0', zs), ds, Repeat(' ', b));
  }

  lemma Shape(a: string, s: string, p: string, y: string, z: string, d: string, b: string)
    ensures (a + s + p + y) + (z + d + b) == a + (s + (p + ((y + z) + (d + b))))
  {
    Regroup(a, s + p, y);
    Regroup(a, s, p);
  }

  /** Stripping the layout of a field recovers the value: the signed one when SIGN is set, else the unsigned. */
  lemma LayoutReadsBack(num: Long, base: nat, size: int, precision: int, t: Flags)
    requires 2 <= base <= 16
    ensures ReadBack(Layout(num, base, size, precision, t), base, t.special) ==
            if t.sign then num else Unsigned(num)
  {
    hide Layout, Scan, Trim, Digits, Text, Repeat, AllDigits;
    var a, z, b := LayoutShape(num, base, size, precision, t);
    var core := Core(z, DigitText(num, base, t), b);
    var sign, rest := SignText(num, t), PrefixText(base, t) + core;
    TrimSpaces(a, sign + rest);
    SignStripped(sign, rest);
    PrefixStripped(PrefixText(base, t), core, base);
    NumeralScans(z, Magnitude(num, t), base, t.small, b);
  }

  /** How many characters the sign takes: one for a negative number or with PLUS or SPACE, none without SIGN. */
  function SignLength(num: Long, t: Flags): nat { if t.sign && (num < 0 || t.plus || t.space) then 1 else 0 }

  /** The field, character by character up to its digits: spaces only without LEFT and ZEROPAD; '-' for
      negative numbers, else '+' for PLUS, else ' ' for SPACE; "0x", "0X" or "0" for SPECIAL; a digit. */
  lemma FieldBegins(num: Long, base: nat, size: int, precision: int, t: Flags)
    requires 2 <= base <= 16
    ensures var s := Layout(num, base, size, precision, t);
            var a := if t.left || t.zeropad then 0 else Max(PadWidth(num, base, size, precision, t), 0);
            var n := a + SignLength(num, t);
            var d := n + if !t.special then 0 else if base == 16 then 2 else if base == 8 then 1 else 0;
            && d < |s|
            && (forall i :: 0 <= i < a ==> s[i] == ' ')
            && (t.sign && num < 0 ==> s[a] == '-')
            && (t.sign && num >= 0 && t.plus ==> s[a] == '+')
            && (t.sign && num >= 0 && !t.plus && t.space ==> s[a] == ' ')
            && (t.special && base == 16 ==> s[n] == '0' && s[n + 1] == if t.small then 'x' else 'X')
            && (t.special && base == 8 ==> s[n] == '0')
            && DigitValue(s[d]) < 16
  {
    hide Layout, DigitText, PadWidth, AllDigits, DigitValue;
    var a, z, b := LayoutShape(num, base, size, precision, t);
    var core := Core(z, DigitText(num, base, t), b);
    FourParts(Repeat(' ', a), SignText(num, t), PrefixText(base, t), core);
  }

  lemma FourParts(a: string, s: string, p: string, c: string)
    ensures var f := a + (s + (p + c));
            && |f| == |a| + |s| + |p| + |c|
            && (forall i :: 0 <= i < |a| ==> f[i] == a[i])
            && (s != "" ==> f[|a|] == s[0])
            && (p != "" ==> f[|a| + |s|] == p[0])
            && (|p| > 1 ==> f[|a| + |s| + 1] == p[1])
            && (c != "" ==> f[|a| + |s| + |p|] == c[0])
  {
  }

  lemma SignStripped(sign: string, rest: string)
    requires sign in ["", "-", "+", " "] && rest != "" && DigitValue(rest[0]) < 16
    ensures var u := Trim(sign + rest);
            && (sign == "-" || sign == "+" ==> u == sign + rest && u[0] == sign[0] && u[1..] == rest)
            && (sign == "" || sign == " " ==> u == rest)
  {
    assert Trim(rest) == rest;
    if sign == "" {
      assert sign + rest == rest;
    } else {
      assert (sign + rest)[1..] == rest;
    }
  }

  lemma PrefixStripped(prefix: string, core: string, base: nat)
    requires core != "" && 2 <= base <= 16
    ensures prefix == "" ==> prefix + core == core
    ensures prefix == "0" ==> Scan(prefix + core, base, 0) == Scan(core, base, 0)
    ensures |prefix| == 2 ==> |prefix + core| >= 2 && (prefix + core)[2..] == core
  {
    if prefix == "0" {
      assert (prefix + core)[1..] == core;
    }
  }

  // ---- `atoi` and `htol` -------------------------------------------------------------------------

  type Int = x: int | -0x8000_0000 <= x < 0x8000_0000

  /** A value kept to 32 or 64 bits, two's complement. */
  function Wrap32(x: int): Int {
    var u := x % B32;
    if u < 0x8000_0000 then u else u - B32
  }

  function Wrap64(x: int): Long { Signed(x % B64) }

  /** Both keep the value up to a multiple of 2^32 and 2^64. */
  lemma WrapsAreCongruent(x: int)
    ensures (x - Wrap32(x)) % B32 == 0 && (x - Wrap64(x)) % B64 == 0
  {
    Congruent(x, x / B32, B32, Wrap32(x));
    Congruent(x, x / B64, B64, Wrap64(x));
  }

  lemma Congruent(x: int, q: int, n: nat, r: int)
    requires n > 0 && q == x / n && (r == x % n || r == x % n - n)
    ensures (x - r) % n == 0
  {
    var k := if r == x % n then q else q + 1;
    assert x == q * n + x % n;
    assert (q + 1) * n == q * n + n;
    MultipleOf(x - r, k, n);
  }

  lemma MultipleOf(y: int, k: int, n: nat)
    requires n > 0 && y == k * n
    ensures y % n == 0
  {
    var d := k - y / n;
    assert d * n == y % n;
    assert d >= 1 ==> d * n >= n;
    assert d <= -1 ==> d * n + n <= 0;
  }

  /** A C string in memory: some character is the terminator. */
  predicate Terminated(str: seq<char>) { '\0' in str }

  /** Its characters, up to the terminator. */
  function Chars(str: seq<char>): (s: string)
    requires Terminated(str)
    ensures |s| < |str| && str[|s|] == '\0' && s == str[..|s|] && '\0' !in s
  {
    if str[0] == '\0' then ""
    else
      assert str == [str[0]] + str[1..];
      [str[0]] + Chars(str[1..])
  }

  /** `atoi`: every character counts as a digit, kept to 32 bits at each step. */
  method Atoi(str: seq<char>) returns (k: Int)
    requires Terminated(str)
    ensures k == Wrap32(DecimalValue(Chars(str)))
  {
    k := 0;
    var i := 0;
    ghost var s := Chars(str);
    while str[i] != '\0'
      invariant 0 <= i <= |s| && k == Wrap32(DecimalValue(s[..i]))
      decreases |s| - i
    {
      assert s[..i + 1][..i] == s[..i];
      Wrap32Step(DecimalValue(s[..i]), str[i] as int - '0' as int);
      k := Wrap32(k * 8 + k * 2 + str[i] as int - '0' as int);
      i := i + 1;
    }
    assert s[..i] == s;
  }

  function DecimalValue(s: string): int {
    if s == "" then 0 else 10 * DecimalValue(s[..|s| - 1]) + (s[|s| - 1] as int - '0' as int)
  }

  lemma Wrap32Step(x: int, d: int)
    ensures Wrap32(Wrap32(x) * 8 + Wrap32(x) * 2 + d) == Wrap32(10 * x + d)
  {
  }

  /** `htol`: small hexadecimal letters; every other character counts as a digit. */
  method Htol(str: seq<char>) returns (res: Long)
    requires Terminated(str)
    ensures res == Wrap64(HexValue(Chars(str)))
  {
    res := 0;
    var i := 0;
    ghost var s := Chars(str);
    while str[i] != '\0'
      invariant 0 <= i <= |s| && res == Wrap64(HexValue(s[..i]))
      decreases |s| - i
    {
      assert s[..i + 1][..i] == s[..i];
      Wrap64Step(HexValue(s[..i]), HexDigit(str[i]));
      res := match str[i] {
        case 'a' => Wrap64(res * 16 + 10)
        case 'b' => Wrap64(res * 16 + 11)
        case 'c' => Wrap64(res * 16 + 12)
        case 'd' => Wrap64(res * 16 + 13)
        case 'e' => Wrap64(res * 16 + 14)
        case 'f' => Wrap64(res * 16 + 15)
        case _ => Wrap64(res * 16 + (str[i] as int - '0' as int))
      };
      i := i + 1;
    }
    assert s[..i] == s;
  }

  function HexDigit(c: char): int {
    if 'a' <= c <= 'f' then c as int - 'a' as int + 10 else c as int - '0' as int
  }

  function HexValue(s: string): int {
    if s == "" then 0 else 16 * HexValue(s[..|s| - 1]) + HexDigit(s[|s| - 1])
  }

  lemma Wrap64Step(x: int, d: int)
    ensures Wrap64(Wrap64(x) * 16 + d) == Wrap64(16 * x + d)
  {
  }

  /** The flags of a plain conversion: no sign, no prefix, no padding. */
  const PLAIN := Flags(false, false, false, false, false, false, false)

  /** A plain conversion prints the digits and nothing else. */
  lemma PlainLayout(num: Long, base: nat, size: int, precision: int, t: Flags)
    requires 2 <= base <= 16 && !t.sign && !t.special && size <= 0 && precision <= 0
    ensures Layout(num, base, size, precision, t) == Text(Digits(Unsigned(num), base), t.small)
  {
    var ds := DigitText(num, base, t);
    assert Numeral(num, base, precision, t) == ds;
    assert Repeat(' ', size - |ds|) == "" == Repeat('0', size - |ds|);
  }

  lemma {:induction false} DecimalDigits(u: nat)
    ensures DecimalValue(Text(Digits(u, 10), false)) == u
  {
    hide Digits, Text, DigitChar, DecimalValue;
    var q, d := u / 10, u % 10;
    DecimalSnoc("", DigitChar(d, false));
    DigitChars(d, false);
    if u == 0 {
      ZeroText(10, false);
    } else {
      LastDigit(u, 10, false);
      Shrinks(u, 10);
      if q != 0 {
        DecimalDigits(q);
        DecimalSnoc(Text(Digits(q, 10), false), DigitChar(d, false));
      }
    }
  }

  lemma DecimalSnoc(s: string, c: char)
    ensures DecimalValue(s + [c]) == 10 * DecimalValue(s) + (c as int - '0' as int)
    ensures DecimalValue("") == 0 && "" + [c] == [c]
  {
    assert (s + [c])[..|s|] == s;
  }

  lemma {:induction false} HexDigits(u: nat)
    ensures HexValue(Text(Digits(u, 16), true)) == u
  {
    hide Digits, Text, DigitChar, HexValue;
    var q, d := u / 16, u % 16;
    HexSnoc("", DigitChar(d, true));
    DigitChars(d, true);
    if u == 0 {
      ZeroText(16, true);
    } else {
      LastDigit(u, 16, true);
      Shrinks(u, 16);
      if q != 0 {
        HexDigits(q);
        HexSnoc(Text(Digits(q, 16), true), DigitChar(d, true));
      }
    }
  }

  lemma HexSnoc(s: string, c: char)
    ensures HexValue(s + [c]) == 16 * HexValue(s) + HexDigit(c)
    ensures HexValue("") == 0 && "" + [c] == [c]
  {
    assert (s + [c])[..|s|] == s;
  }

  /** Printing in base 16 with small letters and reading back with `htol` gives the number, for every
      64-bit value. */
  lemma HexRoundTrip(num: Long, size: int, precision: int)
    requires size <= 0 && precision <= 0
    ensures Wrap64(HexValue(Layout(num, 16, size, precision, PLAIN.(small := true)))) == num
  {
    PlainLayout(num, 16, size, precision, PLAIN.(small := true));
    HexDigits(Unsigned(num));
    UnsignedWraps(num);
  }

  lemma UnsignedWraps(num: Long)
    ensures Wrap64(Unsigned(num)) == num
    ensures Wrap32(Unsigned(num)) == num <==> -0x8000_0000 <= num < 0x8000_0000
  {
    var u: nat := Unsigned(num);
    assert u % B64 == u;
    LowHalf(num, u);
  }

  /** The low 32 bits of a value and of its 64-bit two's complement agree. */
  lemma LowHalf(x: Long, u: nat)
    requires u == x || u == x + B32 * B32
    ensures Wrap32(u) == Wrap32(x)
    ensures Wrap32(x) == x <==> -0x8000_0000 <= x < 0x8000_0000
  {
    var q, r := x / B32, x % B32;
    QuotientIs32(u, if u == x then q else q + B32, r);
  }

  lemma QuotientIs32(n: int, q: int, r: nat)
    requires n == q * B32 + r && r < B32
    ensures n % B32 == r
  {
  }

  /** Printing in base 10 without sign and reading back with `atoi` gives the number exactly for values
      that fit an int. */
  lemma DecimalRoundTrip(num: Long, size: int, precision: int)
    requires size <= 0 && precision <= 0
    ensures Wrap32(DecimalValue(Layout(num, 10, size, precision, PLAIN))) == num <==>
            -0x8000_0000 <= num < 0x8000_0000
  {
    PlainLayout(num, 10, size, precision, PLAIN);
    DecimalDigits(Unsigned(num));
    UnsignedWraps(num);
  }
}
