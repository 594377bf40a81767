/** The format interpreter behind `snprintf`, over a bounded buffer. */
module Printf {
  import opened Words
  import opened Numerals

  datatype Arg = IntArg(i: i32) | LongArg(l: u64) | CharArg(c: char) | StrArg(s: string)

  datatype Directive = DecInt | HexInt | Char | Str | DecLong | HexLong

  /** The character at `i`; the terminating NUL behind the last one. */
  function At(fmt: string, i: nat): char {
    if i < |fmt| then fmt[i] else NUL
  }

  /** The directive the text behind a '%' begins with, among those the interpreter supports bare. */
  function DirectiveOf(fmt: string): Option<Directive> {
    var c := At(fmt, 0);
    if c == 'i' || c == 'd' || c == 'u' then Some(DecInt)
    else if c == 'x' then Some(HexInt)
    else if c == 'c' then Some(Char)
    else if c == 's' then Some(Str)
    else if c == 'l' || c == 'L' then
      var c2 := At(fmt, 1);
      if c2 == 'x' || c2 == 'X' then Some(HexLong)
      else if c2 == 'b' || c2 == 'B' || c2 == 'f' then None
      else Some(DecLong)
    else None
  }

  /** How many characters behind the '%' the directive takes. */
  function Width(d: Directive, fmt: string): nat {
    match d
    case HexLong => 2
    case DecLong => if At(fmt, 1) == 'u' || At(fmt, 1) == 'd' || At(fmt, 1) == 'i' then 2 else 1
    case _ => 1
  }

  predicate Plain(s: string) {
    forall i | 0 <= i < |s| :: s[i] != NUL
  }

  /** The text of an argument under a directive, when it has the type the directive asks for. */
  function Show(d: Directive, a: Arg): Option<string> {
    match (d, a)
    case (DecInt, IntArg(i)) => Some(IntText(i, 10))
    case (HexInt, IntArg(i)) => Some("0x" + IntText(i, 16))
    case (Char, CharArg(c)) => Some(if c == NUL then "" else [c])
    case (Str, StrArg(s)) => if Plain(s) then Some(s) else None
    case (DecLong, LongArg(l)) => Some(LongText(l, 10))
    case (HexLong, LongArg(l)) => Some(LongText(l, 16))
    case _ => None
  }

  /** The text of a format and its arguments, consumed in order. */
  function Render(fmt: string, args: seq<Arg>): Option<string>
    decreases |fmt|
  {
    if fmt == "" then Some("")
    else if fmt[0] != '%' then
      match Render(fmt[1..], args)
      case None => None
      case Some(rest) => if fmt[0] == NUL then None else Some([fmt[0]] + rest)
    else
      match DirectiveOf(fmt[1..])
      case None => None
      case Some(d) =>
        var w := Width(d, fmt[1..]);
        if args == [] || Show(d, args[0]) == None || 1 + w > |fmt| then None
        else
          match Render(fmt[1 + w..], args[1..])
          case None => None
          case Some(rest) => Some(Show(d, args[0]).value + rest)
  }

  function Take(s: string, n: nat): string {
    if |s| <= n then s else s[..n]
  }

  lemma {:induction false} TakeAppend(a: string, b: string, n: nat)
    ensures |Take(a, n)| <= n
    ensures Take(a + b, n) == Take(a, n) + Take(b, n - |Take(a, n)|)
  {
  }

  // The output buffer.

  /** The buffer holds `text` and its NUL. */
  ghost predicate Holds(dst: seq<char>, text: string) {
    |text| < |dst| && Plain(text) && dst[..|text|] == text && dst[|text|] == NUL
  }

  /** The buffer shows what fits of `text`; one of length 0 is left alone. */
  ghost predicate Shows(dst: seq<char>, text: string, len: nat) {
    len > 0 ==> Holds(dst, Take(text, len))
  }

  predicate Fits(dst: array<char>, len: nat) {
    len == 0 || len < dst.Length
  }

  method StrLen(dst: array<char>, ghost text: string) returns (n: nat)
    requires Holds(dst[..], text)
    ensures n == |text|
  {
    n := 0;
    while dst[n] != NUL
      invariant n <= |text|
      decreases |text| - n
    {
      assert dst[..][n] == dst[n];
      assert dst[..][..|text|][n] == text[n] || n == |text|;
      n := n + 1;
    }
  }

  /** `__sprint`: appends `str`, cut to what `maxLen` leaves. The NUL may land at index `maxLen`. */
  method Sprint(str: string, dst: array<char>, maxLen: nat, ghost text: string) returns (n: nat)
    requires Plain(str) && Fits(dst, maxLen) && |text| <= maxLen && (maxLen > 0 ==> Holds(dst[..], text))
    modifies dst
    ensures maxLen > 0 ==> Holds(dst[..], text + Take(str, maxLen - |text|))
    ensures n == |Take(str, maxLen - |text|)|
    ensures forall i | 0 <= i < dst.Length && (maxLen == 0 || |text| + n < i) :: dst[i] == old(dst[i])
  {
    if maxLen == 0 {
      return 0;
    }
    var curLen := StrLen(dst, text);
    var maxAdd := if maxLen > curLen then maxLen - curLen else 0;
    maxAdd := if maxAdd > |str| then |str| else maxAdd;
    for i := 0 to maxAdd
      invariant dst[..curLen + i] == text + str[..i]
      invariant forall j | curLen + i <= j < dst.Length :: dst[j] == old(dst[j])
    {
      dst[curLen + i] := str[i];
    }
    dst[curLen + maxAdd] := NUL;
    assert Take(str, maxLen - |text|) == str[..maxAdd];
    n := maxAdd;
  }

  /** Appends the text of `str` to an output that already holds `done` cut to `maxLen`. */
  method Emit(str: string, dst: array<char>, maxLen: nat, ghost done: string) returns (n: nat)
    requires Plain(str) && Fits(dst, maxLen) && Shows(dst[..], done, maxLen)
    modifies dst
    ensures Shows(dst[..], done + str, maxLen) && n == |Take(done + str, maxLen)| - |Take(done, maxLen)|
    ensures |done + str| < maxLen ==> dst[maxLen] == old(dst[maxLen])
  {
    TakeAppend(done, str, maxLen);
    n := Sprint(str, dst, maxLen, Take(done, maxLen));
  }

  // Conversions.

  lemma {:induction false} SpellPlain(ds: seq<nat>, upper: bool)
    requires AllBelow(ds, 36)
    ensures Plain(Spell(ds, upper))
  {
    forall i | 0 <= i < |ds|
      ensures DigitChar(ds[i], upper) != NUL
    {
    }
  }

  lemma {:induction false} IntPlain(a: int, base: nat)
    requires 2 <= base <= 36
    ensures Plain(IntText(a, base))
  {
    TextOfDigits(a, base);
    SpellPlain(Digits(Magnitude(a), base), true);
    hide Digits, Spell, IntText;
  }

  lemma {:induction false} TextBeforeNul(bytes: string, text: string)
    requires IsCString(bytes, text) && Plain(text)
    ensures CStr(bytes) == text
  {
    assert forall i | 0 <= i < |text| :: bytes[i] == bytes[..|text|][i];
    CStrIs(bytes, |text|);
  }

  /** `__PRINT_ITOA`, as the text `_print` then sees. */
  method IntDigits(a: i32, base: nat) returns (t: string)
    requires base == 10 || base == 16
    ensures t == IntText(a, base) && Plain(t)
  {
    hide IntText;
    var r := Itoa(a, base);
    IntPlain(a, base);
    TextBeforeNul(r.value, IntText(a, base));
    t := CStr(r.value);
  }

  /** `__PRINT_LLTOA`, as the text `_print` then sees. */
  method LongDigits(a: u64, base: nat) returns (t: string)
    requires base == 10 || base == 16
    ensures t == LongText(a, base) && Plain(t)
  {
    var r := Ltoa(a, base);
    LtoaIsExact(base);
    SpellPlain(Digits(a, base), false);
    hide LtoaBytes, Digits, Spell;
    TextBeforeNul(r, LongText(a, base));
    t := CStr(r);
  }

  /** The switch on the directive's letter: emits the argument, and says how far the format advances. */
  method EmitDirective(fmt: string, j: nat, arg: Arg, dst: array<char>, len: nat, ghost done: string)
    returns (n: nat, lastFmtLen: nat)
    requires j <= |fmt| && DirectiveOf(fmt[j..]).Some? && Show(DirectiveOf(fmt[j..]).value, arg).Some?
    requires Fits(dst, len) && Shows(dst[..], done, len)
    modifies dst
    ensures var d := DirectiveOf(fmt[j..]).value;
            var t := Show(d, arg).value;
            && lastFmtLen == Width(d, fmt[j..])
            && Shows(dst[..], done + t, len) && n == |Take(done + t, len)| - |Take(done, len)|
            && (|done + t| < len ==> dst[len] == old(dst[len]))
  {
    ghost var d := DirectiveOf(fmt[j..]).value;
    ghost var t := Show(d, arg).value;
    hide IntText, LongText, Shows, Take;
    var ch1, ch2 := At(fmt, j), At(fmt, j + 1);
    assert ch1 == At(fmt[j..], 0) && ch2 == At(fmt[j..], 1);
    if ch1 == 'i' || ch1 == 'd' || ch1 == 'u' {
      var text := IntDigits(arg.i, 10);
      n := Emit(text, dst, len, done);
      lastFmtLen := 1;
    } else if ch1 == 'x' {
      n := EmitHex(arg.i, dst, len, done);
      lastFmtLen := 1;
    } else if ch1 == 'c' {
      n := Emit(if arg.c == NUL then "" else [arg.c], dst, len, done);
      lastFmtLen := 1;
    } else if ch1 == 'l' || ch1 == 'L' {
      if ch2 == 'x' || ch2 == 'X' {
        var text := LongDigits(arg.l, 16);
        n := Emit(text, dst, len, done);
        lastFmtLen := 2;
      } else {
        lastFmtLen := 0;
        if ch2 == 'u' || ch2 == 'd' || ch2 == 'i' {
          lastFmtLen := 1;
        }
        var text := LongDigits(arg.l, 10);
        n := Emit(text, dst, len, done);
        lastFmtLen := lastFmtLen + 1;
      }
    } else {
      n := Emit(arg.s, dst, len, done);
      lastFmtLen := 1;
    }
  }

  /** The prefix and the digits are emitted one after the other. */
  method EmitHex(i: i32, dst: array<char>, len: nat, ghost done: string) returns (n: nat)
    requires Fits(dst, len) && Shows(dst[..], done, len)
    modifies dst
    ensures var t := "0x" + IntText(i, 16);
            && Shows(dst[..], done + t, len) && n == |Take(done + t, len)| - |Take(done, len)|
            && (|done + t| < len ==> dst[len] == old(dst[len]))
  {
    hide IntText, Shows, Take;
    n := Emit("0x", dst, len, done);
    var text := IntDigits(i, 16);
    assert done + ("0x" + text) == done + "0x" + text;
    var more := Emit(text, dst, len, done + "0x");
    n := n + more;
  }

  // The interpreter.

  /** What is still to be rendered, given what has been. */
  ghost predicate Rendered(whole: string, done: string, pending: string, fmt: string, args: seq<Arg>) {
    Render(fmt, args).Some? && whole == done + pending + Render(fmt, args).value
  }

  lemma {:induction false} RenderLiteral(whole: string, done: string, pending: string, fmt: string, args: seq<Arg>)
    requires fmt != [] && fmt[0] != '%' && Rendered(whole, done, pending, fmt, args)
    ensures fmt[0] != NUL && Rendered(whole, done, pending + [fmt[0]], fmt[1..], args)
  {
  }

  lemma {:induction false} RenderDirective(whole: string, done: string, fmt: string, args: seq<Arg>)
    requires fmt != [] && fmt[0] == '%' && Rendered(whole, done, [], fmt, args)
    ensures DirectiveOf(fmt[1..]).Some? && args != [] && Show(DirectiveOf(fmt[1..]).value, args[0]).Some?
    ensures var d := DirectiveOf(fmt[1..]).value;
            var w := Width(d, fmt[1..]);
            && 1 + w <= |fmt|
            && Rendered(whole, done + Show(d, args[0]).value, [], fmt[1 + w..], args[1..])
  {
    hide DirectiveOf, Show, Width;
  }

  lemma {:induction false} DirectiveIsLetter(fmt: string)
    requires DirectiveOf(fmt).Some?
    ensures fmt != [] && fmt[0] >= ':'
  {
  }

  lemma {:induction false} Flushed(whole: string, done: string, pending: string, fmt: string, args: seq<Arg>)
    requires Rendered(whole, done, pending, fmt, args)
    ensures Rendered(whole, done + pending, [], fmt, args)
  {
  }

  lemma {:induction false} Starts(fmt: string, args: seq<Arg>)
    requires Render(fmt, args).Some?
    ensures Rendered(Render(fmt, args).value, [], [], fmt, args)
  {
  }

  lemma {:induction false} RenderedLength(whole: string, done: string, pending: string, fmt: string, args: seq<Arg>)
    requires Rendered(whole, done, pending, fmt, args)
    ensures |done| + |pending| <= |whole|
    ensures fmt != [] ==> fmt[0] != NUL
  {
  }

  lemma {:induction false} RenderEnd(whole: string, done: string, args: seq<Arg>)
    requires Rendered(whole, done, [], [], args)
    ensures whole == done
  {
  }

  /** The branch taken at a '%': the literal text before it is flushed, the scan stops at the
      directive's letter, and the argument is emitted. */
  method DirectiveBranch(fmt: string, c: nat, args: seq<Arg>, a: nat, buf: string, dst: array<char>, len: nat,
                         ghost whole: string, ghost done: string)
    returns (added: nat, c1: nat, ghost done1: string)
    requires c < |fmt| && fmt[c] == '%' && a <= |args| && Plain(buf)
    requires Rendered(whole, done, buf, fmt[c..], args[a..])
    requires Fits(dst, len) && Shows(dst[..], done, len)
    modifies dst
    ensures c < c1 <= |fmt| && a < |args| && Rendered(whole, done1, [], fmt[c1..], args[a + 1..])
    ensures Shows(dst[..], done1, len) && added == |Take(done1, len)| - |Take(done, len)|
    ensures |whole| < len ==> dst[len] == old(dst[len])
  {
    hide Shows, Take, Render, DirectiveOf, Show, Width, Rendered;
    RenderedLength(whole, done, buf, fmt[c..], args[a..]);
    var n := Emit(buf, dst, len, done);
    Flushed(whole, done, buf, fmt[c..], args[a..]);
    ghost var mid := done + buf;
    RenderDirective(whole, mid, fmt[c..], args[a..]);
    DirectiveIsLetter(fmt[c..][1..]);
    var j := c;
    while At(fmt, j) < ':'
      invariant c <= j <= c + 1
      decreases c + 1 - j
    {
      j := j + 1;
    }
    assert fmt[j..] == fmt[c..][1..] && args[a..][0] == args[a];
    done1 := mid + Show(DirectiveOf(fmt[j..]).value, args[a]).value;
    var more, lastFmtLen := EmitDirective(fmt, j, args[a], dst, len, mid);
    assert fmt[c..][1 + lastFmtLen..] == fmt[c + 1 + lastFmtLen..] && args[a..][1..] == args[a + 1..];
    added := n + more;
    c1 := c + lastFmtLen + 1;
    RenderedLength(whole, done1, [], fmt[c1..], args[a + 1..]);
  }

  /** For every format of literals and supported directives with matching arguments, the buffer ends
      up with the rendered text cut to `len` characters, and the result is the number of characters
      added. Text shorter than `len` leaves the byte behind the buffer alone. */
  method Vprintf(fmt: string, args: seq<Arg>, dst: array<char>, len: nat) returns (total: nat)
    requires Render(fmt, args).Some? && |fmt| < 2048
    requires Fits(dst, len) && (len > 0 ==> dst[0] == NUL)
    modifies dst
    ensures var text := Render(fmt, args).value;
            && Shows(dst[..], text, len) && total == |Take(text, len)|
            && (|text| < len ==> dst[len] == old(dst[len]))
  {
    hide Render, DirectiveOf, Show, Width, Rendered, Shows, Take;
    ghost var whole := Render(fmt, args).value;
    ghost var done := "";
    var buf: string := "";
    var c, a := 0, 0;
    total := 0;
    Starts(fmt, args);
    assert fmt[0..] == fmt && args[0..] == args;
    EmptyShows(dst[..], len);
    while At(fmt, c) != NUL
      invariant c <= |fmt| && a <= |args| && |buf| <= c && Plain(buf)
      invariant Rendered(whole, done, if c < |fmt| then buf else "", fmt[c..], args[a..])
      invariant Shows(dst[..], done, len) && total == |Take(done, len)|
      invariant |whole| < len ==> dst[len] == old(dst[len])
      decreases |fmt| - c
    {
      if fmt[c] != '%' {
        RenderLiteral(whole, done, buf, fmt[c..], args[a..]);
        buf := buf + [fmt[c]];
        assert fmt[c..][1..] == fmt[c + 1..];
        c := c + 1;
      } else {
        var n;
        n, c, done := DirectiveBranch(fmt, c, args, a, buf, dst, len, whole, done);
        total := total + n;
        buf := "";
        a := a + 1;
      }
      RenderedLength(whole, done, buf, fmt[c..], args[a..]);
      if At(fmt, c) == NUL {
        var n := Emit(buf, dst, len, done);
        total := total + n;
        Flushed(whole, done, buf, fmt[c..], args[a..]);
        done := done + buf;
      }
    }
    RenderedLength(whole, done, if c < |fmt| then buf else "", fmt[c..], args[a..]);
    assert fmt[c..] == [];
    RenderEnd(whole, done, args[a..]);
  }

  lemma {:induction false} EmptyShows(dst: seq<char>, len: nat)
    requires len > 0 ==> dst != [] && dst[0] == NUL
    ensures Shows(dst, "", len) && |Take("", len)| == 0
  {
  }

  /** `snprintf`: the buffer is cleared first. */
  method Snprintf(s: array<char>, n: nat, fmt: string, args: seq<Arg>) returns (ret: nat)
    requires Render(fmt, args).Some? && |fmt| < 2048
    requires Fits(s, n)
    modifies s
    ensures var text := Render(fmt, args).value;
            && Shows(s[..], text, n) && ret == |Take(text, n)|
            && (|text| < n ==> s[n] == old(s[n])) && (0 < n <= |text| ==> s[n] == NUL)
  {
    for i := 0 to n
      invariant forall j | 0 <= j < i :: s[j] == NUL
      invariant forall j | i <= j < s.Length :: s[j] == old(s[j])
    {
      s[i] := NUL;
    }
    hide Render;
    ret := Vprintf(fmt, args, s, n);
  }
}
