/** The kernel command line: `key=value` pairs, parsed into a table and looked up by name. */
module CmdLine {
  import opened Words
  import opened Numerals

  const MAX_ARG: nat := 16
  const MAX_ARG_LEN: nat := 16
  const KEY_BUF: nat := 64
  const VALUE_BUF: nat := 32
  const ARGIDX_NONE: nat := 0xFF
  const NO_ARG: u32 := UINT32_MAX

  /** One row of the table: the bytes of the name's field, and the value. */
  datatype Row = Row(name: string, val: u32)

  predicate EndsValue(c: char) {
    c == ' ' || c == NUL
  }

  /** The length of the value that `s` begins with: up to a space, a NUL or the end. */
  function ValueLen(s: string): (n: nat)
    ensures n <= |s| && (n < |s| ==> EndsValue(s[n]))
    ensures forall i | 0 <= i < n :: !EndsValue(s[i])
  {
    if s == [] || EndsValue(s[0]) then 0 else 1 + ValueLen(s[1..])
  }

  /** The parsing loop on the bytes still to be read, with the key collected so far and the rows made.
      `Halt` stands for an access outside the text, a buffer or the table. */
  function Parse(rest: string, buf: string, table: seq<Row>): Outcome<seq<Row>>
    decreases |rest|
  {
    if rest == [] then Ok(table)
    else if rest[0] == '=' then
      var n := ValueLen(rest[1..]);
      if |buf| >= KEY_BUF || |table| >= MAX_ARG || n >= VALUE_BUF || 1 + n >= |rest| then Halt
      else
        var row := Row(StrNCpy(CStr(buf), MAX_ARG_LEN), AtouOf(rest[1..1 + n]));
        var next := if rest[1 + n] == ' ' then 2 + n else 1 + n;
        if next >= |rest| then Halt
        else Parse(rest[next + 1..], [rest[next]], table + [row])
    else if |buf| >= KEY_BUF then Halt
    else Parse(rest[1..], buf + [rest[0]], table)
  }

  // Parsing undoes printing.

  datatype Pair = Pair(key: string, val: u32)

  predicate GoodKey(key: string) {
    0 < |key| < MAX_ARG_LEN && forall i | 0 <= i < |key| :: key[i] != '=' && key[i] != NUL
  }

  predicate GoodPairs(pairs: seq<Pair>) {
    forall i | 0 <= i < |pairs| :: GoodKey(pairs[i].key)
  }

  /** What follows the first key: its value, then a space and the further pairs, or the final NUL. */
  function AfterKey(pairs: seq<Pair>): string
    requires pairs != []
    decreases |pairs|, 0
  {
    "=" + LongText(pairs[0].val, 10) + if |pairs| == 1 then [NUL] else " " + Print(pairs[1..])
  }

  /** The pairs in order, separated by spaces and ended by a NUL. */
  function Print(pairs: seq<Pair>): string
    decreases |pairs|, 1
  {
    if pairs == [] then [NUL] else pairs[0].key + AfterKey(pairs)
  }

  function Rows(pairs: seq<Pair>): seq<Row> {
    seq(|pairs|, i requires 0 <= i < |pairs| => Row(StrNCpy(pairs[i].key, MAX_ARG_LEN), pairs[i].val))
  }

  lemma {:induction false} KeyRead(key: string, rest: string, buf: string, table: seq<Row>)
    requires forall i | 0 <= i < |key| :: key[i] != '='
    requires |buf| + |key| <= KEY_BUF
    ensures Parse(key + rest, buf, table) == Parse(rest, buf + key, table)
    decreases |key|
  {
    if key == [] {
      assert key + rest == rest && buf + key == buf;
    } else {
      assert (key + rest)[1..] == key[1..] + rest;
      KeyRead(key[1..], rest, buf + [key[0]], table);
      assert buf + [key[0]] + key[1..] == buf + key;
    }
  }

  lemma {:induction false} DecimalText(val: u32)
    ensures |LongText(val, 10)| <= 10
    ensures forall i | 0 <= i < |LongText(val, 10)| :: !EndsValue(LongText(val, 10)[i]) && LongText(val, 10)[i] != '='
    ensures AtouOf(LongText(val, 10)) == val
  {
    AtouInvertsLtoa(val);
    assert Pow(10, 5) == 100000;
    PowSum(10, 5, 5);
    DigitsFit(val, 10, 10, 10);
  }

  lemma {:induction false} ValueLenIs(value: string, c: char, rest: string)
    requires EndsValue(c) && forall i | 0 <= i < |value| :: !EndsValue(value[i])
    ensures ValueLen(value + [c] + rest) == |value|
  {
    assert (value + [c] + rest)[|value|] == c;
    assert forall i | 0 <= i < |value| :: (value + [c] + rest)[i] == value[i];
  }

  lemma {:induction false} NoNul(s: string)
    requires forall i | 0 <= i < |s| :: s[i] != NUL
    ensures CStr(s) == s
  {
    if s == [] {
    } else {
      NoNul(s[1..]);
    }
  }

  /** One value and what follows it, with the whole key collected. */
  lemma {:induction false} ParseAtEquals(text: string, tail: string, key: string, table: seq<Row>)
    requires |key| < KEY_BUF && |table| < MAX_ARG && |text| < VALUE_BUF
    requires forall i | 0 <= i < |text| :: !EndsValue(text[i])
    requires tail != [] && EndsValue(tail[0]) && (tail[0] == ' ' ==> |tail| > 1)
    ensures var row := Row(StrNCpy(CStr(key), MAX_ARG_LEN), AtouOf(text));
            var next := if tail[0] == ' ' then 1 else 0;
            Parse("=" + text + tail, key, table) == Parse(tail[next + 1..], [tail[next]], table + [row])
  {
    var rest := "=" + text + tail;
    var n := |text|;
    AtEqualsSlices(text, tail);
    ValueLenIs(text, tail[0], tail[1..]);
    hide AtouOf, StrNCpy, CStr, ValueLen;
    ParseStep(rest, key, table, n);
  }

  lemma {:induction false} AtEqualsSlices(text: string, tail: string)
    requires tail != []
    ensures var rest, n := "=" + text + tail, |text|;
            && rest[1..] == text + [tail[0]] + tail[1..]
            && rest[1..1 + n] == text && rest[1 + n..] == tail && rest[1 + n] == tail[0]
            && rest[n + 2..] == tail[1..]
            && (|tail| > 1 ==> rest[n + 3..] == tail[2..] && rest[2 + n] == tail[1])
  {
  }

  lemma {:induction false} ParseStep(rest: string, key: string, table: seq<Row>, n: nat)
    requires n + 1 < |rest| && rest[0] == '=' && ValueLen(rest[1..]) == n
    requires |key| < KEY_BUF && |table| < MAX_ARG && n < VALUE_BUF && (rest[1 + n] == ' ' ==> n + 2 < |rest|)
    ensures var row := Row(StrNCpy(CStr(key), MAX_ARG_LEN), AtouOf(rest[1..1 + n]));
            Parse(rest, key, table)
            == if rest[1 + n] == ' ' then Parse(rest[n + 3..], [rest[2 + n]], table + [row])
               else Parse(rest[n + 2..], [rest[1 + n]], table + [row])
  {
    hide AtouOf, StrNCpy, CStr, ValueLen;
  }

  lemma {:induction false} ValueRead(key: string, val: u32, tail: string, table: seq<Row>)
    requires GoodKey(key) && |table| < MAX_ARG && tail != [] && EndsValue(tail[0])
    requires tail[0] == ' ' ==> |tail| > 1
    ensures var row := Row(StrNCpy(key, MAX_ARG_LEN), val);
            var next := if tail[0] == ' ' then 1 else 0;
            Parse("=" + LongText(val, 10) + tail, key, table) == Parse(tail[next + 1..], [tail[next]], table + [row])
  {
    DecimalText(val);
    NoNul(key);
    hide Parse, LongText, AtouOf, StrNCpy, CStr;
    ParseAtEquals(LongText(val, 10), tail, key, table);
  }

  /** Reading on with the first key collected. */
  lemma {:induction false} PairsRead(pairs: seq<Pair>, table: seq<Row>)
    requires pairs != [] && GoodPairs(pairs) && |table| + |pairs| <= MAX_ARG
    ensures Parse(AfterKey(pairs), pairs[0].key, table) == Ok(table + Rows(pairs))
    decreases |pairs|
  {
    hide Parse, Rows, Print, AfterKey, StrNCpy, GoodPairs;
    if |pairs| == 1 {
      OnlyPairRead(pairs, table);
    } else {
      MoreGoodPairs(pairs);
      PairsRead(pairs[1..], table + [Row(StrNCpy(pairs[0].key, MAX_ARG_LEN), pairs[0].val)]);
      FirstPairRead(pairs, table);
    }
  }

  lemma {:induction false} MoreGoodPairs(pairs: seq<Pair>)
    requires |pairs| > 1 && GoodPairs(pairs)
    ensures GoodPairs(pairs[1..])
  {
  }

  lemma {:induction false} OnlyPairRead(pairs: seq<Pair>, table: seq<Row>)
    requires |pairs| == 1 && GoodPairs(pairs) && |table| < MAX_ARG
    ensures Parse(AfterKey(pairs), pairs[0].key, table) == Ok(table + Rows(pairs))
  {
    OnlyPair(pairs);
    hide Parse, Rows, AfterKey, StrNCpy;
    LastValue(pairs[0].key, pairs[0].val, table);
  }

  lemma {:induction false} FirstPairRead(pairs: seq<Pair>, table: seq<Row>)
    requires |pairs| > 1 && GoodPairs(pairs) && |table| < MAX_ARG
    requires var row := Row(StrNCpy(pairs[0].key, MAX_ARG_LEN), pairs[0].val);
             Parse(AfterKey(pairs[1..]), pairs[1].key, table + [row]) == Ok(table + [row] + Rows(pairs[1..]))
    ensures Parse(AfterKey(pairs), pairs[0].key, table) == Ok(table + Rows(pairs))
  {
    RowsCons(pairs);
    hide Parse, Rows, Print, AfterKey, StrNCpy;
    FurtherValue(pairs, table);
    var row := Row(StrNCpy(pairs[0].key, MAX_ARG_LEN), pairs[0].val);
    RowsAssociate(table, [row], Rows(pairs[1..]));
  }

  lemma {:induction false} RowsAssociate(a: seq<Row>, b: seq<Row>, c: seq<Row>)
    ensures a + b + c == a + (b + c)
  {
  }

  lemma {:induction false} OnlyPair(pairs: seq<Pair>)
    requires |pairs| == 1
    ensures AfterKey(pairs) == "=" + LongText(pairs[0].val, 10) + [NUL]
    ensures Rows(pairs) == [Row(StrNCpy(pairs[0].key, MAX_ARG_LEN), pairs[0].val)]
  {
  }

  lemma {:induction false} RowsCons(pairs: seq<Pair>)
    requires pairs != []
    ensures Rows(pairs) == [Row(StrNCpy(pairs[0].key, MAX_ARG_LEN), pairs[0].val)] + Rows(pairs[1..])
  {
  }

  lemma {:induction false} LastValue(key: string, val: u32, table: seq<Row>)
    requires GoodKey(key) && |table| < MAX_ARG
    ensures Parse("=" + LongText(val, 10) + [NUL], key, table)
            == Ok(table + [Row(StrNCpy(key, MAX_ARG_LEN), val)])
  {
    ValueRead(key, val, [NUL], table);
    assert [NUL][1..] == [];
  }

  /** Behind a value that is not the last comes the next key. */
  lemma {:induction false} FurtherValue(pairs: seq<Pair>, table: seq<Row>)
    requires |pairs| > 1 && GoodPairs(pairs) && |table| < MAX_ARG
    ensures var row := Row(StrNCpy(pairs[0].key, MAX_ARG_LEN), pairs[0].val);
            Parse(AfterKey(pairs), pairs[0].key, table) == Parse(AfterKey(pairs[1..]), pairs[1].key, table + [row])
  {
    var first := pairs[1].key;
    assert GoodKey(first) && GoodKey(pairs[0].key);
    assert Print(pairs[1..]) == first + AfterKey(pairs[1..]);
    var tail := " " + Print(pairs[1..]);
    assert AfterKey(pairs) == "=" + LongText(pairs[0].val, 10) + tail;
    hide Parse, StrNCpy, Print, AfterKey, LongText;
    assert tail[1] == first[0] && tail[2..] == first[1..] + AfterKey(pairs[1..]);
    ValueRead(pairs[0].key, pairs[0].val, tail, table);
    KeyRead(first[1..], AfterKey(pairs[1..]), [first[0]],
      table + [Row(StrNCpy(pairs[0].key, MAX_ARG_LEN), pairs[0].val)]);
    assert [first[0]] + first[1..] == first;
  }

  /** For every list of at most 16 pairs with good keys, parsing their text gives back the table. */
  lemma {:induction false} ParseUndoesPrint(pairs: seq<Pair>)
    requires GoodPairs(pairs) && |pairs| <= MAX_ARG
    ensures Parse(Print(pairs), [], []) == Ok(Rows(pairs))
  {
    if pairs == [] {
      assert Print(pairs) == [NUL];
      assert Rows(pairs) == [];
      assert [NUL][1..] == [];
    } else {
      assert GoodKey(pairs[0].key);
      KeyRead(pairs[0].key, AfterKey(pairs), [], []);
      PairsRead(pairs, []);
      assert [] + pairs[0].key == pairs[0].key;
      assert [] + Rows(pairs) == Rows(pairs);
    }
  }

  // Lookup.

  /** The value of a `char`, which is signed: bytes from 128 on count as negative. */
  function Signed(c: char): int {
    if c as int < 128 then c as int else c as int - 256
  }

  /** Text order of two C strings by the values of their bytes, the NUL included: -1, 0 or 1. */
  function Compare(a: string, b: string): int {
    if a == [] then (if b == [] then 0 else if 0 < Signed(b[0]) then -1 else 1)
    else if b == [] then (if Signed(a[0]) < 0 then -1 else 1)
    else if a[0] == b[0] then Compare(a[1..], b[1..])
    else if Signed(a[0]) < Signed(b[0]) then -1 else 1
  }

  lemma {:induction false} CompareIsEquality(a: string, b: string)
    ensures Compare(a, b) == 0 <==> a == b
  {
    if a == [] || b == [] {
    } else {
      CompareIsEquality(a[1..], b[1..]);
      assert a == [a[0]] + a[1..] && b == [b[0]] + b[1..];
    }
  }

  /** The first difference decides, by the values of its two bytes as signed ones; the NUL behind the shorter
      text counts as a byte. */
  lemma {:induction false} CompareIsOrder(p: string, a: string, b: string)
    requires a == [] || b == [] || a[0] != b[0]
    ensures var x, y := if a == [] then 0 else a[0] as int, if b == [] then 0 else b[0] as int;
            Compare(p + a, p + b)
            == if a == b == [] then 0
               else if (if x < 128 then x else x - 256) < (if y < 128 then y else y - 256) then -1 else 1
  {
    if p == [] {
      assert p + a == a && p + b == b;
    } else {
      CompareIsOrder(p[1..], a, b);
      assert (p + a)[1..] == p[1..] + a && (p + b)[1..] == p[1..] + b;
    }
  }

  lemma {:induction false} CompareStep(s1: string, s2: string)
    requires s1 != [] && s2 != []
    ensures s1[0] != NUL && s1[0] == s2[0] ==> Compare(CStr(s1), CStr(s2)) == Compare(CStr(s1[1..]), CStr(s2[1..]))
    ensures s1[0] == s2[0] == NUL ==> Compare(CStr(s1), CStr(s2)) == 0
    ensures s1[0] != s2[0] ==> Compare(CStr(s1), CStr(s2)) == if Signed(s1[0]) < Signed(s2[0]) then -1 else 1
  {
  }

  method StrCmp(str1: string, str2: string) returns (r: int)
    requires NUL in str1 && NUL in str2
    ensures r == Compare(CStr(str1), CStr(str2))
  {
    var i := 0;
    hide Compare, CStr;
    while str1[i] != NUL && str2[i] != NUL && str1[i] == str2[i]
      invariant i < |str1| && i < |str2| && NUL in str1[i..] && NUL in str2[i..]
      invariant Compare(CStr(str1[i..]), CStr(str2[i..])) == Compare(CStr(str1), CStr(str2))
      decreases |str1| - i
    {
      CompareStep(str1[i..], str2[i..]);
      i := i + 1;
    }
    CompareStep(str1[i..], str2[i..]);
    if str1[i] == str2[i] {
      return 0;
    }
    r := if Signed(str1[i]) < Signed(str2[i]) then -1 else 1;
  }

  /** The first row whose name is `key`. */
  function FindRow(table: seq<Row>, key: string): Option<nat> {
    if table == [] then None
    else if CStr(table[0].name) == key then Some(0)
    else
      match FindRow(table[1..], key)
      case None => None
      case Some(i) => Some(i + 1)
  }

  /** It names the key, no earlier row does, and without one none does. */
  lemma {:induction false} FindRowIsFirst(table: seq<Row>, key: string)
    ensures match FindRow(table, key)
            case None => forall i | 0 <= i < |table| :: CStr(table[i].name) != key
            case Some(r) =>
              r < |table| && CStr(table[r].name) == key && forall i | 0 <= i < r :: CStr(table[i].name) != key
  {
    if table == [] || CStr(table[0].name) == key {
    } else {
      FindRowIsFirst(table[1..], key);
      forall i | 0 < i < |table|
        ensures table[i] == table[1..][i - 1]
      {
      }
    }
  }

  /** The first pair with the key. */
  function FindPair(pairs: seq<Pair>, key: string): Option<Pair> {
    if pairs == [] then None
    else if pairs[0].key == key then Some(pairs[0])
    else FindPair(pairs[1..], key)
  }

  lemma {:induction false} NameIsKey(key: string)
    requires GoodKey(key)
    ensures CStr(StrNCpy(key, MAX_ARG_LEN)) == key
    ensures NUL in StrNCpy(key, MAX_ARG_LEN)
  {
    var name := StrNCpy(key, MAX_ARG_LEN);
    assert name[|key|] == NUL;
    CStrIs(name, |key|);
    assert name[..|key|] == key;
  }

  /** Looking a name up in the parsed table finds the first pair printed with that key. */
  lemma {:induction false} LookupFindsPair(pairs: seq<Pair>, key: string)
    requires GoodPairs(pairs)
    ensures match FindRow(Rows(pairs), key)
            case None => FindPair(pairs, key) == None
            case Some(i) => i < |pairs| && FindPair(pairs, key) == Some(pairs[i])
    decreases |pairs|
  {
    if pairs == [] {
    } else {
      assert GoodKey(pairs[0].key);
      NameIsKey(pairs[0].key);
      assert Rows(pairs)[1..] == Rows(pairs[1..]);
      LookupFindsPair(pairs[1..], key);
    }
  }

  function Zip(args: seq<string>, vals: seq<u32>): (t: seq<Row>)
    requires |args| == |vals|
    ensures |t| == |args|
  {
    seq(|args|, i requires 0 <= i < |args| => Row(args[i], vals[i]))
  }

  lemma {:induction false} TailOfTail(text: string, start: nat, k: nat)
    requires start + k <= |text|
    ensures text[start..][k..] == text[start + k..]
  {
  }

  lemma {:induction false} ZipNext(args: seq<string>, vals: seq<u32>, n: nat, a: string, v: u32)
    requires n < |args| && n < |vals|
    ensures Zip(args[n := a][..n + 1], vals[n := v][..n + 1]) == Zip(args[..n], vals[..n]) + [Row(a, v)]
  {
  }

  /** What `ParseStep` says, read backwards: a parse that does not stop stays inside its text. */
  lemma {:induction false} ParseGoesOn(rest: string, key: string, table: seq<Row>)
    requires rest != [] && rest[0] == '=' && Parse(rest, key, table).Ok?
    ensures var n := ValueLen(rest[1..]);
            && |key| < KEY_BUF && |table| < MAX_ARG && n < VALUE_BUF && n + 1 < |rest|
            && (rest[1 + n] == ' ' ==> n + 2 < |rest|)
  {
    hide AtouOf, StrNCpy, CStr, ValueLen;
  }

  lemma {:induction false} ValueEnd(s: string, n: nat)
    requires n == ValueLen(s) && n < |s|
    ensures EndsValue(s[n]) && forall i | 0 <= i < n :: !EndsValue(s[i])
  {
  }

  lemma {:induction false} NulEnds(s: string)
    requires forall i | 0 <= i < |s| :: s[i] != NUL
    ensures CStr(s + [NUL]) == s
  {
    CStrIs(s + [NUL], |s|);
  }

  lemma {:induction false} ParsePlain(rest: string, buf: string, table: seq<Row>)
    requires rest != [] && rest[0] != '=' && Parse(rest, buf, table).Ok?
    ensures |buf| < KEY_BUF && Parse(rest, buf, table) == Parse(rest[1..], buf + [rest[0]], table)
  {
  }

  class CommandLine {
    const args: array<string>
    const vals: array<u32>
    var numArgs: nat

    ghost predicate Valid()
      reads this
    {
      args.Length == MAX_ARG && vals.Length == MAX_ARG && numArgs <= MAX_ARG
    }

    ghost function Table(): (t: seq<Row>)
      requires Valid()
      reads this, args, vals
      ensures |t| == numArgs
    {
      Zip(args[..numArgs], vals[..numArgs])
    }

    constructor ()
      ensures Valid() && Table() == [] && fresh(args) && fresh(vals)
    {
      args := new string[MAX_ARG](_ => seq(MAX_ARG_LEN, _ => NUL));
      vals := new u32[MAX_ARG](_ => 0);
      numArgs := 0;
    }

    /** `cmdline_parse`: reads all of `text`; the result is the number of rows. */
    method ParseText(text: string) returns (n: nat)
      requires Valid() && Parse(text, [], []).Ok?
      modifies this, args, vals
      ensures Valid() && n == numArgs
      ensures Parse(text, [], []) == Ok(Table())
    {
      ghost var goal := Parse(text, [], []);
      numArgs := 0;
      var idx := 0;
      var buf: string := [];
      while idx < |text|
        invariant idx <= |text| && Valid()
        invariant Parse(text[idx..], buf, Table()) == goal
        decreases |text| - idx
      {
        if text[idx] == '=' {
          idx, buf := ReadValue(text, idx, buf);
        } else {
          ParsePlain(text[idx..], buf, Table());
          buf := buf + [text[idx]];
          idx := idx + 1;
        }
      }
      assert text[idx..] == [];
      n := numArgs;
    }

    /** The inner loop: the value's characters up to a space or a NUL. */
    method CopyValue(text: string, start: nat) returns (sval: string, idx: nat)
      requires start <= |text| && start + ValueLen(text[start..]) < |text|
      ensures idx == start + ValueLen(text[start..])
      ensures sval == text[start..][..ValueLen(text[start..])] && forall i | 0 <= i < |sval| :: sval[i] != NUL
    {
      ghost var len := ValueLen(text[start..]);
      ValueEnd(text[start..], len);
      hide ValueLen;
      idx, sval := start, [];
      while text[idx] != ' ' && text[idx] != NUL && idx < |text|
        invariant start <= idx <= start + len
        invariant sval == text[start..idx]
        decreases |text| - idx
      {
        assert text[start..][idx - start] == text[idx];
        sval := sval + [text[idx]];
        idx := idx + 1;
      }
      assert text[start..][idx - start] == text[idx];
    }

    /** The next row is written and counted. */
    method AddRow(name: string, val: u32)
      requires Valid() && numArgs < MAX_ARG
      modifies this, args, vals
      ensures Valid() && Table() == old(Table()) + [Row(name, val)]
    {
      ghost var names, numbers := args[..], vals[..];
      args[numArgs], vals[numArgs] := name, val;
      ZipNext(names, numbers, numArgs, name, val);
      assert args[..numArgs + 1] == names[numArgs := name][..numArgs + 1];
      assert vals[..numArgs + 1] == numbers[numArgs := val][..numArgs + 1];
      assert args[..numArgs] == names[..numArgs] && vals[..numArgs] == numbers[..numArgs];
      numArgs := numArgs + 1;
    }

    /** The branch taken at a separator: one row is filled, and the character behind the value begins
        the next key. */
    method ReadValue(text: string, start: nat, buf: string) returns (idx: nat, next: string)
      requires Valid() && start < |text| && text[start] == '=' && Parse(text[start..], buf, Table()).Ok?
      modifies this, args, vals
      ensures Valid() && start < idx <= |text|
      ensures Parse(text[idx..], next, Table()) == Parse(text[start..], buf, old(Table()))
    {
      hide Parse, StrNCpy, AtouOf, ValueLen, Zip, CStr, Table;
      ghost var rest, table := text[start..], Table();
      ghost var len := ValueLen(rest[1..]);
      ParseGoesOn(rest, buf, table);
      ParseStep(rest, buf, table, len);
      TailOfTail(text, start, 1);
      var sval;
      sval, idx := CopyValue(text, start + 1);
      assert sval == rest[1..1 + len];
      NulEnds(sval);
      var val := Atou(sval + [NUL]);
      AddRow(StrNCpy(CStr(buf), MAX_ARG_LEN), val);
      if text[idx] == ' ' {
        idx := idx + 1;
      }
      next := [text[idx]];
      idx := idx + 1;
      TailOfTail(text, start, idx - start);
    }

    /** `get_arg_idx`: rows whose first character differs are passed over without a comparison. */
    method GetArgIdx(arg: string) returns (r: nat)
      requires Valid() && NUL in arg
      requires forall i | 0 <= i < numArgs :: NUL in args[i]
      ensures match FindRow(Table(), CStr(arg))
              case None => r == ARGIDX_NONE
              case Some(i) => r == i && i < numArgs
    {
      ghost var table := Table();
      for i := 0 to numArgs
        invariant RowFrom(table, CStr(arg), i) == FindRow(table, CStr(arg))
      {
        RowStep(table, CStr(arg), i);
        if arg[0] != args[i][0] {
          FirstDiffers(arg, args[i]);
          continue;
        }
        var c := StrCmp(arg, args[i]);
        CompareIsEquality(CStr(arg), CStr(args[i]));
        if c == 0 {
          return i;
        }
      }
      return ARGIDX_NONE;
    }

    method HasArg(arg: string) returns (b: bool)
      requires Valid() && NUL in arg
      requires forall i | 0 <= i < numArgs :: NUL in args[i]
      ensures b == FindRow(Table(), CStr(arg)).Some?
    {
      var idx := GetArgIdx(arg);
      b := idx != ARGIDX_NONE;
    }

    /** The greatest `uint32_t` stands for a name that is not there. */
    method GetArg(arg: string) returns (v: u32)
      requires Valid() && NUL in arg
      requires forall i | 0 <= i < numArgs :: NUL in args[i]
      ensures match FindRow(Table(), CStr(arg))
              case None => v == NO_ARG
              case Some(i) => i < numArgs && v == vals[i]
    {
      var idx := GetArgIdx(arg);
      if idx == ARGIDX_NONE {
        return NO_ARG;
      }
      return vals[idx];
    }

    method IsTrue(arg: string) returns (b: bool)
      requires Valid() && NUL in arg
      requires forall i | 0 <= i < numArgs :: NUL in args[i]
      ensures match FindRow(Table(), CStr(arg))
              case None => !b
              case Some(i) => i < numArgs && b == (vals[i] != 0 && vals[i] != NO_ARG)
    {
      var val := GetArg(arg);
      b := val != 0 && val != NO_ARG;
    }
  }

  /** `FindRow` from row `i` on, as an index into the whole table. */
  ghost function RowFrom(table: seq<Row>, key: string, i: nat): Option<nat>
    requires i <= |table|
  {
    match FindRow(table[i..], key)
    case None => None
    case Some(j) => Some(i + j)
  }

  lemma {:induction false} RowStep(table: seq<Row>, key: string, i: nat)
    requires i < |table|
    ensures RowFrom(table, key, i) == if CStr(table[i].name) == key then Some(i) else RowFrom(table, key, i + 1)
  {
    assert table[i..][1..] == table[i + 1..];
  }

  /** C strings whose first bytes differ differ. */
  lemma {:induction false} FirstDiffers(a: string, b: string)
    requires a != [] && b != [] && a[0] != b[0]
    ensures CStr(a) != CStr(b)
  {
    CompareStep(a, b);
    CompareIsEquality(CStr(a), CStr(b));
  }
}
