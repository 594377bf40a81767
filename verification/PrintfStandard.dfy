/** Where the format interpreter's text is the one section 7.21.6.1 of ISO C11 asks for. */
module PrintfStandard {
  import opened Words
  import opened Numerals
  import opened NumeralReading
  import opened Printf

  /** The standard's text of an argument under a bare specifier, when it has the type asked for. */
  function Standard(fmt: string, a: Arg): Option<string> {
    var c, c2 := At(fmt, 0), At(fmt, 1);
    match a
    case IntArg(i) =>
      if c == 'i' || c == 'd' then Some(IntText(i, 10))
      else if c == 'u' then Some(LongText(i % TWO_32, 10))
      else if c == 'x' then Some(LongText(i % TWO_32, 16))
      else None
    case CharArg(ch) => if c == 'c' then Some([ch]) else None
    case StrArg(s) => if c == 's' && Plain(s) then Some(s) else None
    case LongArg(l) =>
      if c != 'l' then None
      else if c2 == 'd' || c2 == 'i' then Some(IntText(if l < TWO_64 / 2 then l else l - TWO_64, 10))
      else if c2 == 'u' then Some(LongText(l, 10))
      else if c2 == 'x' then Some(LongText(l, 16))
      else if c2 == 'X' then Some(CapitalText(l, 16))
      else if c2 == 'o' then Some(LongText(l, 8))
      else None
  }

  function CapitalText(n: nat, base: nat): string
    requires 2 <= base <= 16
  {
    Spell(Digits(n, base), true)
  }

  /** How many characters behind the '%' the standard's specifier takes. */
  function StandardWidth(fmt: string): nat {
    if At(fmt, 0) == 'l' then 2 else 1
  }

  /** Negative numbers are printed with a sign under `u` and without one under `ld` and `li`; `x` always
      prints a prefix; `lX` prints lower-case letters; `lo` prints in decimal, and its `o` as text; a NUL
      character is not printed. */
  predicate Agrees(fmt: string, a: Arg) {
    var c, c2 := At(fmt, 0), At(fmt, 1);
    match a
    case IntArg(i) => c != 'x' && (c == 'u' ==> i >= 0)
    case CharArg(ch) => ch != NUL
    case StrArg(_) => true
    case LongArg(l) =>
      && (c2 == 'd' || c2 == 'i' ==> l < TWO_64 / 2)
      && (c2 == 'X' ==> AllBelow(Digits(l, 16), 10))
      && c2 != 'o'
  }

  lemma {:induction false} DecimalSpell(ds: seq<nat>)
    requires AllBelow(ds, 10)
    ensures Spell(ds, true) == Spell(ds, false)
  {
  }

  lemma {:induction false} DecimalText(n: nat)
    ensures IntText(n, 10) == LongText(n, 10)
  {
    TextOfDigits(n, 10);
    DecimalSpell(Digits(n, 10));
    hide Digits, Spell;
    assert "" + Spell(Digits(n, 10), true) == Spell(Digits(n, 10), true);
  }

  /** A negative number's text begins with a sign, a natural number's with a digit. */
  lemma {:induction false} SignDiffers(i: int, n: nat)
    requires i < 0
    ensures IntText(i, 10) != LongText(n, 10)
  {
    hide Digits;
    TextOfDigits(i, 10);
    assert IntText(i, 10)[0] == '-';
    assert LongText(n, 10)[0] == DigitChar(Digits(n, 10)[0], false);
  }

  lemma {:induction false} PrefixDiffers(i: int, n: nat)
    ensures "0x" + IntText(i, 16) != LongText(n, 16)
  {
    hide Digits, IntText;
    var t := LongText(n, 16);
    assert ("0x" + IntText(i, 16))[1] == 'x';
    if |t| > 1 {
      assert t[1] == DigitChar(Digits(n, 16)[1], false);
    }
  }

  /** Letters tell the cases apart. */
  lemma {:induction false} CapitalDiffers(n: nat)
    ensures CapitalText(n, 16) == LongText(n, 16) <==> AllBelow(Digits(n, 16), 10)
  {
    hide Digits;
    var ds := Digits(n, 16);
    if AllBelow(ds, 10) {
      DecimalSpell(ds);
    } else {
      var i :| 0 <= i < |ds| && ds[i] >= 10;
      assert CapitalText(n, 16)[i] == DigitChar(ds[i], true) && LongText(n, 16)[i] == DigitChar(ds[i], false);
    }
  }

  /** One that fails: `lX` spells ten with a small letter. */
  lemma {:induction false} TenInLowerCase()
    ensures DirectiveOf("lX") == Some(HexLong) && Show(HexLong, LongArg(10)) == Some("a")
    ensures Standard("lX", LongArg(10)) == Some("A") && !Agrees("lX", LongArg(10))
  {
    var ds := Digits(10, 16);
    assert ds == [10];
    assert ds[0] == 10;
    assert LongText(10, 16) == "a" && CapitalText(10, 16) == "A";
  }

  lemma {:induction false} SmallMod(i: int)
    requires 0 <= i < TWO_32
    ensures i % TWO_32 == i
  {
  }

  /** The interpreter's text is the standard's, and its directive as long, exactly for the arguments
      `Agrees` admits. */
  lemma {:induction false} ShowIsStandard(fmt: string, a: Arg)
    requires Standard(fmt, a).Some?
    ensures DirectiveOf(fmt).Some? && Show(DirectiveOf(fmt).value, a).Some?
    ensures Show(DirectiveOf(fmt).value, a) == Standard(fmt, a)
            && Width(DirectiveOf(fmt).value, fmt) == StandardWidth(fmt)
            <==> Agrees(fmt, a)
  {
    hide IntText, LongText, CapitalText, Digits, AllBelow;
    match a {
      case IntArg(i) =>
        if At(fmt, 0) == 'u' {
          if i >= 0 {
            SmallMod(i);
            DecimalText(i);
          } else {
            SignDiffers(i, i % TWO_32);
          }
        } else if At(fmt, 0) == 'x' {
          PrefixDiffers(i, i % TWO_32);
        }
      case CharArg(c) =>
      case StrArg(s) =>
      case LongArg(l) =>
        if At(fmt, 1) == 'd' || At(fmt, 1) == 'i' {
          if l < TWO_64 / 2 {
            DecimalText(l);
          } else {
            SignDiffers(l - TWO_64, l);
          }
        } else if At(fmt, 1) == 'X' {
          CapitalDiffers(l);
        }
    }
  }

  /** The specifiers the interpreter knows bare. Behind `l`, and behind `L` which the standard does not combine
      with integers, anything but `b`, `B` and `f` prints a number: in hexadecimal for `x` and `X`, else in
      decimal, and only `d`, `i` and `u` are taken as part of it. */
  lemma {:induction false} DirectivesAre(fmt: string)
    ensures DirectiveOf(fmt).Some?
            <==> fmt != "" && (fmt[0] in "iduxcs" || (fmt[0] in "lL" && !(|fmt| > 1 && fmt[1] in "bBf")))
    ensures fmt != "" && fmt[0] in "lL" && DirectiveOf(fmt).Some? ==>
              var c := if |fmt| > 1 then fmt[1] else NUL;
              && DirectiveOf(fmt) == Some(if c in "xX" then HexLong else DecLong)
              && Width(DirectiveOf(fmt).value, fmt) == if c in "xXdiu" then 2 else 1
  {
  }

  /** What the interpreter prints for each argument, read back: an `int` as a signed number, in hexadecimal with
      capitals behind `0x`; a 64-bit number as an unsigned one, in hexadecimal with small letters. */
  lemma {:induction false} ShowReads(i: i32, l: u64)
    ensures Show(DecInt, IntArg(i)).Some? && SignedText(Show(DecInt, IntArg(i)).value, i, 10)
    ensures var t := Show(HexInt, IntArg(i));
            t.Some? && |t.value| > 2 && t.value[..2] == "0x" && SignedText(t.value[2..], i, 16)
    ensures Show(DecLong, LongArg(l)).Some? && UnsignedText(Show(DecLong, LongArg(l)).value, l, 10)
    ensures Show(HexLong, LongArg(l)).Some? && UnsignedText(Show(HexLong, LongArg(l)).value, l, 16)
  {
    hide IntText, LongText, Read;
    IntTextReads(i, 10);
    IntTextReads(i, 16);
    LongTextReads(l, 10);
    LongTextReads(l, 16);
    assert ("0x" + IntText(i, 16))[2..] == IntText(i, 16);
  }

  ghost predicate SignedText(t: string, i: int, base: nat) {
    if i < 0 then |t| > 1 && t[0] == '-' && UpperDigits(t[1..]) && Read(t[1..], base) == -i && t[1] != '0'
    else |t| > 0 && UpperDigits(t) && Read(t, base) == i && (t[0] == '0' <==> i == 0)
  }

  ghost predicate UnsignedText(t: string, l: nat, base: nat) {
    |t| > 0 && LowerHex(t) && Read(t, base) == l && (t[0] == '0' <==> l == 0)
  }

  // Whole formats.

  /** A format in pieces: text without '%', and bare specifiers with their arguments. */
  datatype Piece = Text(s: string) | Spec(spec: string, arg: Arg)

  /** A specifier that both know, with an argument on which they agree. */
  predicate GoodPiece(p: Piece) {
    match p
    case Text(s) => forall i | 0 <= i < |s| :: s[i] != '%' && s[i] != NUL
    case Spec(spec, a) =>
      |spec| == StandardWidth(spec) && Standard(spec, a).Some? && Agrees(spec, a)
  }

  predicate GoodPieces(ps: seq<Piece>) {
    forall p | p in ps :: GoodPiece(p)
  }

  function FormatOf(ps: seq<Piece>): string {
    if ps == [] then ""
    else (match ps[0] case Text(s) => s case Spec(spec, _) => "%" + spec) + FormatOf(ps[1..])
  }

  function ArgsOf(ps: seq<Piece>): seq<Arg> {
    if ps == [] then [] else (match ps[0] case Text(_) => [] case Spec(_, a) => [a]) + ArgsOf(ps[1..])
  }

  /** The text the standard asks for. */
  function TextOf(ps: seq<Piece>): string
    requires GoodPieces(ps)
  {
    if ps == [] then ""
    else
      (match ps[0] case Text(s) => s case Spec(spec, a) => SpecText(spec, a)) + TextOf(ps[1..])
  }

  function SpecText(spec: string, a: Arg): string {
    match Standard(spec, a) case Some(t) => t case None => ""
  }

  lemma {:induction false} LiteralRenders(s: string, rest: string, args: seq<Arg>)
    requires forall i | 0 <= i < |s| :: s[i] != '%' && s[i] != NUL
    requires Render(rest, args).Some?
    ensures Render(s + rest, args) == Some(s + Render(rest, args).value)
  {
    if s == [] {
      assert s + rest == rest && s + Render(rest, args).value == Render(rest, args).value;
    } else {
      assert (s + rest)[0] == s[0] && (s + rest)[1..] == s[1..] + rest;
      LiteralRenders(s[1..], rest, args);
      assert [s[0]] + (s[1..] + Render(rest, args).value) == s + Render(rest, args).value;
    }
  }

  lemma {:induction false} SpecRenders(spec: string, a: Arg, rest: string, args: seq<Arg>)
    requires GoodPiece(Spec(spec, a)) && Render(rest, args).Some?
    ensures Render("%" + spec + rest, [a] + args) == Some(SpecText(spec, a) + Render(rest, args).value)
  {
    hide Standard, Show, Agrees;
    ShowIsStandard(spec, a);
    var fmt := "%" + spec + rest;
    assert fmt[1..] == spec + rest && fmt[1 + |spec|..] == rest;
    SpecRead(spec, rest, a);
    assert ([a] + args)[1..] == args;
  }

  lemma {:induction false} SpecRead(spec: string, rest: string, a: Arg)
    requires GoodPiece(Spec(spec, a))
    ensures DirectiveOf(spec + rest) == DirectiveOf(spec)
    ensures Width(DirectiveOf(spec).value, spec + rest) == |spec|
  {
    hide IntText, LongText, CapitalText, Digits, AllBelow;
    ShowIsStandard(spec, a);
    assert At(spec + rest, 0) == At(spec, 0);
    assert |spec| == 2 ==> At(spec + rest, 1) == At(spec, 1);
  }

  /** A format of literal text and bare specifiers, with arguments on which they agree, is rendered as the
      standard asks. */
  lemma {:induction false} RenderIsStandard(ps: seq<Piece>)
    requires GoodPieces(ps)
    ensures Render(FormatOf(ps), ArgsOf(ps)) == Some(TextOf(ps))
  {
    hide GoodPiece, SpecText;
    if ps == [] {
    } else {
      RenderIsStandard(ps[1..]);
      var rest, args := FormatOf(ps[1..]), ArgsOf(ps[1..]);
      assert ps[0] in ps;
      match ps[0] {
        case Text(s) =>
          TextIsPlain(ps[0]);
          LiteralRenders(s, rest, args);
          assert [] + args == args;
        case Spec(spec, a) =>
          SpecRenders(spec, a, rest, args);
      }
    }
  }

  lemma {:induction false} TextIsPlain(p: Piece)
    requires p.Text? && GoodPiece(p)
    ensures forall i | 0 <= i < |p.s| :: p.s[i] != '%' && p.s[i] != NUL
  {
  }
}
