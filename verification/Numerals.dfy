/** Printing and parsing numbers: `itoa`, `ltoa`, `atou`. */
module Numerals {
  import opened Bits
  import opened Words

  type i32 = x: int | -0x8000_0000 <= x < 0x8000_0000

  const NUL: char := '\0'
  const UINT32_MAX: u32 := 0xFFFF_FFFF

  /** The digit tables: 0 to 9, then letters. */
  function DigitChar(d: nat, upper: bool): char
    requires d < 36
  {
    if d < 10 then (48 + d) as char else if upper then (55 + d) as char else (87 + d) as char
  }

  // Positional notation.

  /** The digits of `n`, most significant first, without leading zeros. */
  function Digits(n: nat, base: nat): (ds: seq<nat>)
    requires base >= 2
    ensures ds != [] && AllBelow(ds, base)
  {
    if n < base then [n]
    else
      DivideShrinks(n, base);
      Digits(n / base, base) + [n % base]
  }

  lemma {:induction false} DivideShrinks(n: nat, base: nat)
    requires 2 <= base <= n
    ensures 0 < n / base < n
  {
    var q := n / base;
    MulMonotone(q, 2, base);
  }

  function Value(ds: seq<nat>, base: nat): nat {
    if ds == [] then 0 else Value(ds[..|ds| - 1], base) * base + ds[|ds| - 1]
  }

  lemma {:induction false} ValueAppend(ds: seq<nat>, d: nat, base: nat)
    ensures Value(ds + [d], base) == Value(ds, base) * base + d
  {
    assert (ds + [d])[..|ds|] == ds;
  }

  lemma {:induction false} DivMod(n: nat, base: nat)
    requires base > 0
    ensures n / base * base + n % base == n
  {
  }

  /** The digits denote the number, and only zero begins with a zero. */
  lemma {:induction false} DigitsDenote(n: nat, base: nat)
    requires base >= 2
    ensures Value(Digits(n, base), base) == n
    ensures Digits(n, base)[0] == 0 ==> n == 0
    decreases n
  {
    hide Value;
    if n < base {
      ValueAppend([], n, base);
      EmptyValue(base);
      assert Digits(n, base) == [] + [n];
    } else {
      var front := Digits(n / base, base);
      DivideShrinks(n, base);
      DigitsDenote(n / base, base);
      ValueAppend(front, n % base, base);
      DivMod(n, base);
    }
  }

  lemma {:induction false} EmptyValue(base: nat)
    ensures Value([], base) == 0
  {
  }

  function Pow(b: nat, k: nat): nat {
    if k == 0 then 1 else b * Pow(b, k - 1)
  }

  lemma {:induction false} DivideBelow(n: nat, lower: nat, base: nat, p: nat)
    requires 0 < lower <= base && n < lower * p
    ensures n / base < p
  {
    var q := n / base;
    assert base * q <= n;
    if q >= p {
      MulMonotone(base, p, q);
    }
  }

  /** A number below `lower^k` has at most `k` digits in every base from `lower` on. */
  lemma {:induction false} DigitsFit(n: nat, lower: nat, base: nat, k: nat)
    requires 2 <= lower <= base && 0 < k && n < Pow(lower, k)
    ensures |Digits(n, base)| <= k
    decreases k
  {
    if n < base {
    } else {
      assert Pow(lower, k) == lower * Pow(lower, k - 1);
      assert Pow(lower, 1) == lower;
      DivideBelow(n, lower, base, Pow(lower, k - 1));
      DigitsFit(n / base, lower, base, k - 1);
    }
  }

  lemma {:induction false} DivideAbove(n: nat, base: nat, p: nat)
    requires base > 0 && n >= base * p
    ensures n / base >= p
  {
    var q := n / base;
    if q < p {
      MulMonotone(base, q + 1, p);
    }
  }

  lemma {:induction false} AtLeastBase(n: nat, base: nat, p: nat)
    requires p > 0 && n >= base * p
    ensures n >= base
  {
    MulMonotone(base, 1, p);
  }

  /** A number from `base^k` on has more than `k` digits. */
  lemma {:induction false} DigitsExceed(n: nat, base: nat, k: nat)
    requires base >= 2 && n >= Pow(base, k)
    ensures |Digits(n, base)| > k
    decreases k
  {
    if k == 0 {
    } else {
      PowPositive(base, k - 1);
      DivideAbove(n, base, Pow(base, k - 1));
      AtLeastBase(n, base, Pow(base, k - 1));
      DigitsExceed(n / base, base, k - 1);
    }
  }

  lemma {:induction false} PowPositive(b: nat, k: nat)
    requires b > 0
    ensures Pow(b, k) > 0
  {
    if k == 0 {
    } else {
      PowPositive(b, k - 1);
    }
  }

  predicate AllBelow(ds: seq<nat>, base: nat) {
    forall i | 0 <= i < |ds| :: ds[i] < base
  }

  function Spell(ds: seq<nat>, upper: bool): (s: string)
    requires AllBelow(ds, 36)
    ensures |s| == |ds|
  {
    seq(|ds|, i requires 0 <= i < |ds| => DigitChar(ds[i], upper))
  }

  function Magnitude(a: int): nat {
    if a < 0 then -a else a
  }

  /** The text of `a` in `base`: a sign for negative numbers, then upper-case digits. */
  function IntText(a: int, base: nat): string
    requires 2 <= base <= 36
  {
    (if a < 0 then "-" else "") + Spell(Digits(Magnitude(a), base), true)
  }

  // itoa

  /** Division and remainder of the machine, truncating toward zero, for a dividend that is not
      positive. */
  function TruncDiv(a: int, b: nat): int
    requires a <= 0 < b
  {
    -(-a / b)
  }

  function TruncRem(a: int, b: nat): int
    requires a <= 0 < b
  {
    -(-a % b)
  }

  lemma {:induction false} TextOfDigits(a: int, base: nat)
    requires 2 <= base <= 36
    ensures AllBelow(Digits(Magnitude(a), base), 36)
    ensures IntText(a, base) == (if a < 0 then "-" else "") + Spell(Digits(Magnitude(a), base), true)
  {
  }

  /** One turn of the loop takes the last digit off. */
  lemma {:induction false} DigitsStep(an: int, base: nat)
    requires an <= 0 && base >= 2
    ensures var ds, an1 := Digits(-an, base), TruncDiv(an, base);
            && -TruncRem(an, base) == ds[|ds| - 1] && an1 <= 0
            && (if an1 == 0 then |ds| == 1 else ds[..|ds| - 1] == Digits(-an1, base))
  {
    if -an >= base {
      DivideShrinks(-an, base);
    } else {
      RemainderUnique(-an, base, 0, -an);
    }
  }

  lemma {:induction false} IntDigitsFit(m: nat, base: nat)
    requires m <= 0x8000_0000 && base >= 2
    ensures |Digits(m, base)| <= 32
  {
    assert Pow(2, 8) == 256;
    assert Pow(2, 16) == 0x1_0000;
    assert Pow(2, 24) == 0x100_0000;
    assert Pow(2, 32) == 0x1_0000_0000;
    DigitsFit(m, 2, base, 32);
  }

  /** The digit loop, from the NUL at the end of the buffer down. */
  method FillDigits(buffer: array<char>, a: int, base: nat) returns (p: nat)
    requires buffer.Length == 34 && buffer[33] == NUL && -0x8000_0000 <= a <= 0 && 2 <= base <= 36
    modifies buffer
    ensures 1 <= p <= 33 && buffer[p..] == Spell(Digits(-a, base), true) + [NUL]
  {
    hide Digits, Spell, TruncDiv, TruncRem, DigitChar;
    IntDigitsFit(-a, base);
    ghost var whole := Digits(-a, base);
    ghost var left := |whole|;
    p := 33;
    var an := a;
    var again := true;
    while again
      invariant an <= 0 && p == 33 - (|whole| - left) && buffer[33] == NUL
      invariant 0 <= left <= |whole| && (left == 0 <==> !again)
      invariant again ==> Digits(-an, base) == whole[..left]
      invariant forall i | left <= i < |whole| :: buffer[33 - |whole| + i] == DigitChar(whole[i], true)
      decreases left
    {
      DigitsStep(an, base);
      var d := -TruncRem(an, base);
      left := left - 1;
      assert d == whole[left];
      p := p - 1;
      buffer[p] := DigitChar(d, true);
      an := TruncDiv(an, base);
      again := an != 0;
    }
    Spelled(buffer[..], p, whole);
  }

  lemma {:induction false} Spelled(buffer: string, p: nat, whole: seq<nat>)
    requires |buffer| == 34 && p + |whole| == 33 && AllBelow(whole, 36) && buffer[33] == NUL
    requires forall i | 0 <= i < |whole| :: buffer[p + i] == DigitChar(whole[i], true)
    ensures buffer[p..] == Spell(whole, true) + [NUL]
  {
  }

  /** For every `int`, the least included, in every base from 2 to 36, the text with its NUL; the
      34-byte buffer, filled from its end, is never left. */
  method Itoa(a: i32, base: int) returns (r: Option<string>)
    ensures r == if 2 <= base <= 36 then Some(IntText(a, base) + [NUL]) else None
  {
    hide Digits, Spell, IntText;
    if base < 2 || base > 36 {
      return None;
    }
    var buffer := new char[34](_ => NUL);
    TextOfDigits(a, base);
    var p := FillDigits(buffer, if a < 0 then a else -a, base);
    ghost var digits := buffer[p..];
    if a < 0 {
      p := p - 1;
      buffer[p] := '-';
      assert buffer[p..] == "-" + digits;
    }
    assert buffer[p..] == IntText(a, base) + [NUL];
    r := Some(buffer[p..]);
  }

  // ltoa

  /** The bytes `strncpy` writes for a source text without NUL. */
  function StrNCpy(src: string, max: nat): (r: string)
    ensures |r| == max
  {
    if |src| < max then src + seq(max - |src|, _ => NUL) else src[..max]
  }

  function LastDigits(ds: seq<nat>, n: nat): seq<nat> {
    if |ds| <= n then ds else ds[|ds| - n..]
  }

  function LongText(a: nat, base: nat): string
    requires 2 <= base <= 16
  {
    Spell(Digits(a, base), false)
  }

  /** The bytes `ltoa` writes: at most 60 digits are kept, and at most 32 of those are copied. */
  function LtoaBytes(a: u64, base: nat): string
    requires 2 <= base <= 16
  {
    if a == 0 then ['0', NUL] else StrNCpy(Spell(LastDigits(Digits(a, base), 60), false), 32)
  }

  method Ltoa(a: u64, base: nat) returns (dest: string)
    requires 2 <= base <= 16
    ensures dest == LtoaBytes(a, base)
  {
    if a == 0 {
      return ['0', NUL];
    }
    hide Digits, Spell;
    var buf := new char[62](_ => NUL);
    var i := FillLong(buf, a, base);
    dest := StrNCpy(buf[i + 1..61], 32);
  }

  /** The digit loop, from slot 60 down to slot 1 at most. */
  method FillLong(buf: array<char>, a: nat, base: nat) returns (i: nat)
    requires buf.Length == 62 && 2 <= base <= 16 && a > 0
    modifies buf
    ensures i <= 60 && buf[i + 1..61] == Spell(LastDigits(Digits(a, base), 60), false)
  {
    ghost var whole := Digits(a, base);
    ghost var left := |whole|;
    i := 60;
    var rest: nat := a;
    hide Digits, Spell, DigitChar;
    while rest != 0 && i != 0
      invariant i <= 60 && i == 60 - (|whole| - left)
      invariant 0 <= left <= |whole| && (left == 0 <==> rest == 0)
      invariant rest != 0 ==> Digits(rest, base) == whole[..left]
      invariant forall j | left <= j < |whole| :: buf[61 - |whole| + j] == DigitChar(whole[j], false)
      decreases left
    {
      LastDigit(rest, base);
      left := left - 1;
      assert rest % base == whole[left];
      buf[i] := DigitChar(rest % base, false);
      i := i - 1;
      rest := rest / base;
    }
    LtoaKept(buf[..], i, whole);
  }

  lemma {:induction false} LastDigit(m: nat, base: nat)
    requires m > 0 && base >= 2
    ensures var ds := Digits(m, base);
            && m % base == ds[|ds| - 1] && m / base >= 0
            && (if m / base == 0 then |ds| == 1 else ds[..|ds| - 1] == Digits(m / base, base))
  {
    if m >= base {
      DivideShrinks(m, base);
    } else {
      RemainderUnique(m, base, 0, m);
    }
  }

  lemma {:induction false} LtoaKept(buf: string, i: nat, whole: seq<nat>)
    requires |buf| == 62 && i <= 60 && AllBelow(whole, 36)
    requires var left := |whole| - (60 - i);
             && left >= 0 && (left == 0 || i == 0)
             && forall j | left <= j < |whole| :: buf[61 - |whole| + j] == DigitChar(whole[j], false)
    ensures buf[i + 1..61] == Spell(LastDigits(whole, 60), false)
  {
    var kept := LastDigits(whole, 60);
    assert |kept| == 60 - i;
    forall j | 0 <= j < |kept|
      ensures buf[i + 1 + j] == DigitChar(kept[j], false)
    {
      assert kept[j] == whole[|whole| - |kept| + j];
    }
  }

  /** A text followed by its NUL. */
  predicate IsCString(bytes: string, text: string) {
    |bytes| > |text| && bytes[..|text|] == text && bytes[|text|] == NUL
  }

  lemma {:induction false} PowSum(b: nat, i: nat, j: nat)
    ensures Pow(b, i + j) == Pow(b, i) * Pow(b, j)
    decreases i
  {
    if i == 0 {
    } else {
      PowSum(b, i - 1, j);
      MulAssoc(b, Pow(b, i - 1), Pow(b, j));
    }
  }

  lemma {:induction false} MulAssoc(x: nat, y: nat, z: nat)
    ensures x * (y * z) == (x * y) * z
  {
  }

  lemma {:induction false} LongPowers()
    ensures Pow(5, 28) > TWO_64 && Pow(2, 31) < TWO_64 && Pow(3, 31) < TWO_64 && Pow(4, 31) < TWO_64
  {
    assert Pow(5, 7) == 78125;
    PowSum(5, 7, 7);
    PowSum(5, 14, 14);
    assert Pow(4, 8) == 0x1_0000;
    PowSum(4, 8, 8);
    PowSum(4, 16, 8);
    PowSum(4, 24, 7);
    assert Pow(4, 7) == 0x4000;
    assert Pow(3, 8) == 6561;
    PowSum(3, 8, 8);
    PowSum(3, 16, 8);
    PowSum(3, 24, 7);
    assert Pow(3, 7) == 2187;
    assert Pow(2, 8) == 256;
    PowSum(2, 8, 8);
    PowSum(2, 16, 8);
    PowSum(2, 24, 7);
    assert Pow(2, 7) == 128;
  }

  /** `ltoa` writes the exact digits and a NUL for every 64-bit number, exactly in bases from 5 on:
      below, the greatest number has 32 digits or more and its NUL is not copied. */
  lemma {:induction false} LtoaIsExact(base: nat)
    requires 2 <= base <= 16
    ensures (forall a: u64 :: IsCString(LtoaBytes(a, base), LongText(a, base))) <==> base >= 5
  {
    LongPowers();
    hide Digits, Pow, Spell;
    if base >= 5 {
      forall a: u64
        ensures IsCString(LtoaBytes(a, base), LongText(a, base))
      {
        if a == 0 {
          ZeroText(base);
        } else {
          DigitsFit(a, 5, base, 28);
        }
      }
    } else {
      var a: u64 := TWO_64 - 1;
      DigitsExceed(a, base, 31);
      assert !IsCString(LtoaBytes(a, base), LongText(a, base));
    }
  }

  lemma {:induction false} ZeroText(base: nat)
    requires 2 <= base <= 16
    ensures LongText(0, base) == ['0']
  {
  }

  // atou

  predicate IsDigit(c: char) {
    '0' <= c <= '9'
  }

  function DigitOf(c: char): nat
    requires IsDigit(c)
  {
    c as int - 48
  }

  predicate AllDigits(t: string) {
    forall i | 0 <= i < |t| :: IsDigit(t[i])
  }

  function DigitsOf(t: string): (ds: seq<nat>)
    requires AllDigits(t)
    ensures |ds| == |t|
  {
    seq(|t|, i requires 0 <= i < |t| => DigitOf(t[i]))
  }

  const TWO_32: nat := 0x1_0000_0000

  /** The decimal value modulo 2^32 of a text of digits; the greatest `uint32_t` for any other. */
  function AtouOf(t: string): u32 {
    if AllDigits(t) then Value(DigitsOf(t), 10) % TWO_32 else UINT32_MAX
  }

  /** The text before the first NUL. */
  function CStr(s: string): string {
    if s == [] || s[0] == NUL then [] else [s[0]] + CStr(s[1..])
  }

  lemma {:induction false} CStrIs(s: string, n: nat)
    requires n < |s| && s[n] == NUL && forall i | 0 <= i < n :: s[i] != NUL
    ensures CStr(s) == s[..n]
  {
    if n == 0 {
    } else {
      CStrIs(s[1..], n - 1);
      assert s[..n] == [s[0]] + s[1..][..n - 1];
    }
  }

  lemma {:induction false} WrapStep(v: nat, d: nat)
    ensures (v % TWO_32 * 10 % TWO_32 + d) % TWO_32 == (v * 10 + d) % TWO_32
  {
    var q, r := v / TWO_32, v % TWO_32;
    assert v * 10 + d == TWO_32 * (10 * q) + (r * 10 + d);
    var q1, r1 := r * 10 / TWO_32, r * 10 % TWO_32;
    assert r * 10 + d == TWO_32 * q1 + (r1 + d);
    var q2, r2 := (r1 + d) / TWO_32, (r1 + d) % TWO_32;
    assert v * 10 + d == TWO_32 * (10 * q + q1 + q2) + r2;
    RemainderUnique(v * 10 + d, TWO_32, 10 * q + q1 + q2, r2);
  }

  method Atou(str: string) returns (r: u32)
    requires NUL in str
    ensures r == AtouOf(CStr(str))
  {
    hide Value, CStr, AtouOf;
    var result: u32 := 0;
    var i := 0;
    assert DigitsOf(str[..0]) == [];
    EmptyValue(10);
    while str[i] != NUL
      invariant i < |str| && NUL in str[i..]
      invariant forall j | 0 <= j < i :: str[j] != NUL && IsDigit(str[j])
      invariant result == Value(DigitsOf(str[..i]), 10) % TWO_32
      decreases |str| - i
    {
      if '0' <= str[i] <= '9' {
        ghost var v := Value(DigitsOf(str[..i]), 10);
        var d := str[i] as int - 48;
        WrapStep(v, d);
        ValueAppend(DigitsOf(str[..i]), d, 10);
        assert DigitsOf(str[..i + 1]) == DigitsOf(str[..i]) + [d];
        result := result * 10 % TWO_32;
        result := (result + d) % TWO_32;
      } else {
        NotAllDigits(str, i);
        AtouIs(CStr(str));
        return UINT32_MAX;
      }
      i := i + 1;
    }
    CStrIs(str, i);
    AtouIs(CStr(str));
    r := result;
  }

  lemma {:induction false} AtouIs(t: string)
    ensures AtouOf(t) == if AllDigits(t) then Value(DigitsOf(t), 10) % TWO_32 else UINT32_MAX
  {
  }

  lemma {:induction false} NotAllDigits(s: string, i: nat)
    requires i < |s| && s[i] != NUL && !IsDigit(s[i]) && forall j | 0 <= j < i :: s[j] != NUL
    ensures !AllDigits(CStr(s))
  {
    if i > 0 {
      NotAllDigits(s[1..], i - 1);
      var k :| 0 <= k < |CStr(s[1..])| && !IsDigit(CStr(s[1..])[k]);
      assert !IsDigit(CStr(s)[k + 1]);
    } else {
      assert CStr(s)[0] == s[0];
    }
  }

  /** Printing in decimal and parsing are inverse for every number below 2^32. */
  lemma {:induction false} AtouInvertsLtoa(a: u32)
    ensures AtouOf(LongText(a, 10)) == a
  {
    var ds := Digits(a, 10);
    var t := LongText(a, 10);
    hide Digits, Value;
    assert AllDigits(t) && DigitsOf(t) == ds;
    DigitsDenote(a, 10);
  }
}
