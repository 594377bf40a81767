/** Reading the texts of `itoa` and `ltoa` back, by the ranges of characters digits have. */
module NumeralReading {
  import opened Words
  import opened Bits
  import opened Numerals

  /** The value of a digit character in either case. */
  function DigitValue(c: char): nat {
    if '0' <= c <= '9' then c as int - '0' as int
    else if 'a' <= c <= 'z' then c as int - 'a' as int + 10
    else if 'A' <= c <= 'Z' then c as int - 'A' as int + 10
    else 0
  }

  /** The number a text of digits denotes. */
  function Read(t: string, base: nat): nat {
    if t == [] then 0 else Read(t[..|t| - 1], base) * base + DigitValue(t[|t| - 1])
  }

  predicate LowerHex(t: string) {
    forall c | c in t :: '0' <= c <= '9' || 'a' <= c <= 'f'
  }

  predicate UpperDigits(t: string) {
    forall c | c in t :: '0' <= c <= '9' || 'A' <= c <= 'Z'
  }

  lemma {:induction false} DigitReads(d: nat, upper: bool)
    requires d < 36
    ensures DigitValue(DigitChar(d, upper)) == d
  {
  }

  lemma {:induction false} SpellReads(ds: seq<nat>, upper: bool, base: nat)
    requires AllBelow(ds, 36)
    ensures Read(Spell(ds, upper), base) == Value(ds, base)
  {
    if ds == [] {
    } else {
      var front, d, t := ds[..|ds| - 1], ds[|ds| - 1], Spell(ds, upper);
      SpellReads(front, upper, base);
      DigitReads(d, upper);
      assert t[..|t| - 1] == Spell(front, upper) && t[|t| - 1] == DigitChar(d, upper);
    }
  }

  lemma {:induction false} NoLeadingZero(n: nat, base: nat)
    requires base >= 2 && n > 0
    ensures Digits(n, base)[0] != 0
  {
    hide Digits, Value;
    DigitsDenote(n, base);
  }

  /** What `ltoa` prints reads back as the number, in digits and small letters without leading zeros. */
  lemma {:induction false} LongTextReads(n: nat, base: nat)
    requires 2 <= base <= 16
    ensures Read(LongText(n, base), base) == n
    ensures |LongText(n, base)| > 0 && LowerHex(LongText(n, base))
    ensures LongText(n, base)[0] == '0' <==> n == 0
  {
    var ds := Digits(n, base);
    hide Digits, Value, Read;
    SpellReads(ds, false, base);
    DigitsDenote(n, base);
    if n == 0 {
      ZeroText(base);
    } else {
      NoLeadingZero(n, base);
      DigitReads(ds[0], false);
    }
  }

  /** Capital digits spelled without a sign. */
  lemma {:induction false} CapitalsRead(n: nat, base: nat)
    requires 2 <= base <= 36 && AllBelow(Digits(n, base), 36)
    ensures var t := Spell(Digits(n, base), true);
            t != [] && UpperDigits(t) && Read(t, base) == n && (t[0] == '0' <==> n == 0)
  {
    var ds := Digits(n, base);
    hide Digits, Value, Read;
    SpellReads(ds, true, base);
    DigitsDenote(n, base);
    DigitReads(ds[0], true);
    if n == 0 {
      ZeroDigits(base);
    } else {
      NoLeadingZero(n, base);
    }
  }

  /** What `itoa` prints reads back as the number, in digits and capital letters without leading zeros, behind
      a sign exactly when it is negative. */
  lemma {:induction false} IntTextReads(i: int, base: nat)
    requires 2 <= base <= 36
    ensures var t := IntText(i, base);
            if i < 0
            then |t| > 1 && t[0] == '-' && UpperDigits(t[1..]) && Read(t[1..], base) == -i && t[1] != '0'
            else |t| > 0 && UpperDigits(t) && Read(t, base) == i && (t[0] == '0' <==> i == 0)
  {
    hide Digits, Spell, Read, IntText, UpperDigits;
    TextOfDigits(i, base);
    var digits := Spell(Digits(Magnitude(i), base), true);
    CapitalsRead(Magnitude(i), base);
    if i < 0 {
      assert ("-" + digits)[1..] == digits;
    } else {
      assert "" + digits == digits;
    }
  }

  lemma {:induction false} ZeroDigits(base: nat)
    requires base >= 2
    ensures Digits(0, base) == [0]
  {
  }

  /** The bytes `ltoa` writes for a 64-bit number in a base from 5 on: a text with its NUL that reads back. */
  lemma {:induction false} LtoaReads(a: u64, base: nat, n: nat)
    requires 5 <= base <= 16 && n < |LtoaBytes(a, base)| && LtoaBytes(a, base)[n] == NUL
    requires forall i | 0 <= i < n :: LtoaBytes(a, base)[i] != NUL
    ensures LowerHex(LtoaBytes(a, base)[..n]) && Read(LtoaBytes(a, base)[..n], base) == a
  {
    hide LtoaBytes, LongText, Read;
    LtoaIsExact(base);
    assert IsCString(LtoaBytes(a, base), LongText(a, base));
    LongTextReads(a, base);
    FirstNul(LtoaBytes(a, base), LongText(a, base), n);
  }

  lemma {:induction false} FirstNul(bytes: string, t: string, n: nat)
    requires IsCString(bytes, t) && LowerHex(t) && n < |bytes| && bytes[n] == NUL
    requires forall i | 0 <= i < n :: bytes[i] != NUL
    ensures bytes[..n] == t
  {
    forall i | 0 <= i < |t|
      ensures bytes[i] != NUL
    {
      assert bytes[..|t|][i] == t[i] && t[i] in t;
    }
  }

  predicate AllDecimal(t: string) {
    forall c | c in t :: '0' <= c <= '9'
  }

  lemma {:induction false} DigitsOfRead(t: string)
    requires AllDigits(t)
    ensures Value(DigitsOf(t), 10) == Read(t, 10)
  {
    if t == [] {
    } else {
      var front := t[..|t| - 1];
      DigitsOfRead(front);
      assert DigitsOf(t)[..|t| - 1] == DigitsOf(front);
    }
  }

  /** What `atou` gives for any text: the decimal number modulo 2^32, or the greatest one when some character is
      not a digit. */
  lemma {:induction false} AtouReads(t: string)
    ensures AtouOf(t) == if AllDecimal(t) then Read(t, 10) % 0x1_0000_0000 else 0xFFFF_FFFF
  {
    if AllDecimal(t) {
      forall i | 0 <= i < |t|
        ensures IsDigit(t[i])
      {
        assert t[i] in t;
      }
    }
    if AllDigits(t) {
      DigitsOfRead(t);
    }
  }

  // Numbers too long for the 32 bytes.

  lemma {:induction false} ValueJoins(xs: seq<nat>, ys: seq<nat>, base: nat)
    ensures Value(xs + ys, base) == Value(xs, base) * Pow(base, |ys|) + Value(ys, base)
    decreases |ys|
  {
    hide Value;
    if ys == [] {
      assert xs + ys == xs;
      EmptyValue(base);
    } else {
      var front, y := ys[..|ys| - 1], ys[|ys| - 1];
      assert xs + ys == (xs + front) + [y] && ys == front + [y];
      ValueJoins(xs, front, base);
      ValueAppend(xs + front, y, base);
      ValueAppend(front, y, base);
      JoinStep(Value(xs, base), Pow(base, |front|), Value(front, base), y, base);
    }
  }

  lemma {:induction false} JoinStep(x: nat, p: nat, f: nat, y: nat, base: nat)
    ensures (x * p + f) * base + y == x * (base * p) + (f * base + y)
  {
  }

  lemma {:induction false} ValueBelow(ds: seq<nat>, base: nat)
    requires base > 0 && AllBelow(ds, base)
    ensures Value(ds, base) < Pow(base, |ds|)
  {
    hide Value;
    if ds == [] {
      EmptyValue(base);
    } else {
      var front, d := ds[..|ds| - 1], ds[|ds| - 1];
      ValueBelow(front, base);
      assert ds == front + [d];
      ValueAppend(front, d, base);
      BelowStep(Value(front, base), d, base, Pow(base, |front|));
    }
  }

  lemma {:induction false} BelowStep(v: nat, d: nat, base: nat, p: nat)
    requires v < p && d < base
    ensures v * base + d < base * p
  {
    MulMonotone(base, v + 1, p);
  }

  /** The digits in the middle of a number, by division and remainder. */
  lemma {:induction false} MiddleDigits(xs: seq<nat>, ys: seq<nat>, zs: seq<nat>, base: nat)
    requires base > 0 && AllBelow(ys, base) && AllBelow(zs, base)
    ensures Pow(base, |zs|) > 0 && Pow(base, |ys|) > 0
    ensures Value(xs + ys + zs, base) / Pow(base, |zs|) % Pow(base, |ys|) == Value(ys, base)
  {
    hide Value, Pow;
    PowPositive(base, |zs|);
    PowPositive(base, |ys|);
    ValueJoins(xs + ys, zs, base);
    ValueBelow(zs, base);
    RemainderUnique(Value(xs + ys + zs, base), Pow(base, |zs|), Value(xs + ys, base), Value(zs, base));
    ValueJoins(xs, ys, base);
    ValueBelow(ys, base);
    RemainderUnique(Value(xs + ys, base), Pow(base, |ys|), Value(xs, base), Value(ys, base));
  }

  /** How many digits a number has. */
  lemma {:induction false} DigitCount(n: nat, base: nat, d: nat)
    requires base >= 2 && d > 0 && Pow(base, d - 1) <= n < Pow(base, d)
    ensures |Digits(n, base)| == d
  {
    hide Digits, Pow;
    DigitsExceed(n, base, d - 1);
    DigitsFit(n, base, base, d);
  }

  /** A number of 32 digits or more loses all digits but its first 32, and before that all but its last 60; the
      bytes written hold no NUL. */
  lemma {:induction false} LtoaCut(a: u64, base: nat, d: nat)
    requires 2 <= base <= 16 && d >= 32 && Pow(base, d - 1) <= a < Pow(base, d)
    ensures |LtoaBytes(a, base)| == 32 && LowerHex(LtoaBytes(a, base))
    ensures var lost := (if d < 60 then d else 60) - 32;
            && Pow(base, lost) > 0 && Pow(base, 32) > 0
            && Read(LtoaBytes(a, base), base) == a / Pow(base, lost) % Pow(base, 32)
  {
    var ds := Digits(a, base);
    var lost := (if d < 60 then d else 60) - 32;
    hide Digits, Read, Value, Pow, LtoaBytes, Spell, LowerHex, AllBelow;
    PowPositive(base, d - 1);
    DigitCount(a, base, d);
    DigitsDenote(a, base);
    var k := d - lost - 32;
    var xs, ys, zs := ds[..k], ds[k..k + 32], ds[k + 32..];
    SliceBelow(ds, k, base);
    MiddleDigits(xs, ys, zs, base);
    CutIs(a, base, k);
    SpellReads(ys, false, base);
  }

  lemma {:induction false} SliceBelow(ds: seq<nat>, k: nat, base: nat)
    requires AllBelow(ds, base) && k + 32 <= |ds|
    ensures AllBelow(ds[k..k + 32], base) && AllBelow(ds[k + 32..], base)
    ensures ds == ds[..k] + ds[k..k + 32] + ds[k + 32..]
  {
  }

  lemma {:induction false} CutIs(a: u64, base: nat, k: nat)
    requires 2 <= base <= 16 && a > 0
    requires var ds := Digits(a, base); |ds| >= k + 32 && k == if |ds| > 60 then |ds| - 60 else 0
    ensures AllBelow(Digits(a, base)[k..k + 32], 36)
    ensures LtoaBytes(a, base) == Spell(Digits(a, base)[k..k + 32], false)
    ensures LowerHex(LtoaBytes(a, base))
  {
    hide Digits;
  }

  /** One number at a time: the text of `ltoa` is complete, with its NUL, exactly when it has at most 31 digits. */
  lemma {:induction false} LtoaFits(a: u64, base: nat)
    requires 2 <= base <= 16
    ensures IsCString(LtoaBytes(a, base), LongText(a, base)) <==> a < Pow(base, 31)
  {
    hide Digits, Pow, Spell;
    if a < Pow(base, 31) {
      DigitsFit(a, base, base, 31);
      if a == 0 {
        ZeroText(base);
      }
    } else {
      PowPositive(base, 31);
      DigitsExceed(a, base, 31);
    }
  }
}
