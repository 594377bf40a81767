/** What the parser makes of command lines: `key=value` items with one space between them, and what is behind. */
module CmdLineText {
  import opened Words
  import opened Numerals
  import opened NumeralReading
  import opened CmdLine

  /** A key and the text of its value. */
  datatype Item = Item(key: string, value: string)

  predicate GoodItem(t: Item) {
    && t.key != [] && (forall i | 0 <= i < |t.key| :: t.key[i] != '=' && t.key[i] != NUL)
    && (forall i | 0 <= i < |t.value| :: t.value[i] != ' ' && t.value[i] != NUL)
  }

  predicate GoodItems(items: seq<Item>) {
    forall t | t in items :: GoodItem(t)
  }

  /** What the text has behind its last value: nothing, or a space or NUL and then text without '='. */
  predicate GoodEnd(end: string) {
    (forall i | 0 <= i < |end| :: end[i] != '=') && (end != [] ==> EndsValue(end[0]))
  }

  /** The parser reads it without leaving the text or the key buffer. */
  predicate SmallEnd(end: string) {
    end != [] && if end[0] == ' ' then 1 < |end| <= 65 else |end| <= 64
  }

  /** What follows the first key. */
  function After(items: seq<Item>, end: string): string
    requires items != []
    decreases |items|, 0
  {
    "=" + items[0].value + if |items| == 1 then end else " " + Line(items[1..], end)
  }

  /** The text of the items. */
  function Line(items: seq<Item>, end: string): string
    requires items != []
    decreases |items|, 1
  {
    items[0].key + After(items, end)
  }

  /** The item fits the buffers of the parser. */
  predicate Small(t: Item) {
    |t.key| < 64 && |t.value| < 32
  }

  predicate AllSmall(items: seq<Item>) {
    forall t | t in items :: Small(t)
  }

  /** Its row: the first 16 characters of the key, filled up with NULs, and the decimal value modulo 2^32, or the
      greatest number for a value that is not made of digits. */
  function RowOf(t: Item): Row {
    Row(if |t.key| < 16 then t.key + seq(16 - |t.key|, _ => NUL) else t.key[..16],
        if AllDecimal(t.value) then Read(t.value, 10) % 0x1_0000_0000 else 0xFFFF_FFFF)
  }

  function RowsOf(items: seq<Item>): seq<Row> {
    if items == [] then [] else [RowOf(items[0])] + RowsOf(items[1..])
  }

  lemma {:induction false} RowMade(t: Item)
    requires GoodItem(t)
    ensures Row(StrNCpy(CStr(t.key), MAX_ARG_LEN), AtouOf(t.value)) == RowOf(t)
  {
    hide AtouOf, CStr, Read;
    NoNul(t.key);
    AtouReads(t.value);
  }

  lemma {:induction false} KeyTooLong(key: string, rest: string, buf: string, table: seq<Row>)
    requires forall i | 0 <= i < |key| :: key[i] != '='
    requires |buf| <= 64 < |buf| + |key|
    ensures Parse(key + rest, buf, table) == Halt
    decreases |key|
  {
    assert (key + rest)[0] == key[0] && (key + rest)[1..] == key[1..] + rest;
    if |buf| == 64 {
    } else {
      KeyTooLong(key[1..], rest, buf + [key[0]], table);
    }
  }

  /** An item that does not fit, or has no row left, stops the parser at its value. */
  lemma {:induction false} ItemStops(value: string, tail: string, key: string, table: seq<Row>)
    requires |key| >= 64 || |table| >= 16 || |value| >= 32
    requires tail != [] && EndsValue(tail[0]) && forall i | 0 <= i < |value| :: !EndsValue(value[i])
    ensures Parse("=" + value + tail, key, table) == Halt
  {
    var rest := "=" + value + tail;
    AtEqualsSlices(value, tail);
    ValueLenIs(value, tail[0], tail[1..]);
    hide AtouOf, StrNCpy, CStr, ValueLen;
    assert rest[0] == '=';
  }

  /** A value at the end of the text, or one with a single space behind it, takes the parser out of the text. */
  lemma {:induction false} TextStops(value: string, end: string, key: string, table: seq<Row>)
    requires end == [] || end == " "
    requires forall i | 0 <= i < |value| :: !EndsValue(value[i])
    ensures Parse("=" + value + end, key, table) == Halt
  {
    var rest := "=" + value + end;
    assert rest[1..] == value + end && rest[0] == '=';
    if end == [] {
      assert value + end == value;
    } else {
      ValueLenIs(value, ' ', []);
      assert value + [' '] + [] == value + end;
      assert rest[1 + |value|] == ' ';
    }
    hide AtouOf, StrNCpy, CStr;
  }

  /** Text without '=' goes to the key buffer, and leads to no row. */
  lemma {:induction false} PlainRead(text: string, buf: string, table: seq<Row>)
    requires |buf| <= 64 && forall i | 0 <= i < |text| :: text[i] != '='
    ensures Parse(text, buf, table) == if |buf| + |text| <= 64 then Ok(table) else Halt
    decreases |text|
  {
    if text == [] || |buf| == 64 {
    } else {
      PlainRead(text[1..], buf + [text[0]], table);
    }
  }

  lemma {:induction false} AfterIs(items: seq<Item>, end: string)
    requires items != []
    ensures |items| == 1 ==> After(items, end) == "=" + items[0].value + end
    ensures |items| > 1 ==> After(items, end) == "=" + items[0].value + (" " + items[1].key + After(items[1..], end))
  {
    if |items| > 1 {
      assert Line(items[1..], end) == items[1].key + After(items[1..], end);
    }
  }

  /** Reading on with the first key collected. */
  lemma {:induction false} ItemsRead(items: seq<Item>, end: string, table: seq<Row>)
    requires items != [] && GoodItems(items) && GoodEnd(end) && |items[0].key| <= 64
    ensures Parse(After(items, end), items[0].key, table)
            == if AllSmall(items) && |table| + |items| <= 16 && SmallEnd(end) then Ok(table + RowsOf(items)) else Halt
    decreases |items|, 2
  {
    hide Parse, After, Line, RowOf, AllSmall, GoodItems, SmallEnd, RowsOf;
    var t := items[0];
    var table1 := table + [RowOf(t)];
    ItemsParts(items);
    AfterIs(items, end);
    if |items| == 1 {
      LastRead(t, end, table);
    } else {
      var tail := " " + items[1].key + After(items[1..], end);
      if !Small(t) || |table| >= 16 {
        ItemStops(t.value, tail, t.key, table);
      } else {
        RowMade(t);
        ParseAtEquals(t.value, tail, t.key, table);
        NextKeyRead(items, end, table1, tail);
        RowsGrow(items, table);
      }
    }
  }

  lemma {:induction false} RowsGrow(items: seq<Item>, table: seq<Row>)
    requires items != []
    ensures table + [RowOf(items[0])] + RowsOf(items[1..]) == table + RowsOf(items)
    ensures |table + [RowOf(items[0])]| == |table| + 1
  {
    hide RowOf;
  }

  /** The last item and what is behind it. */
  lemma {:induction false} LastRead(t: Item, end: string, table: seq<Row>)
    requires GoodItem(t) && GoodEnd(end)
    ensures Parse("=" + t.value + end, t.key, table)
            == if Small(t) && |table| < 16 && SmallEnd(end) then Ok(table + [RowOf(t)]) else Halt
  {
    hide Parse, RowOf;
    var table1 := table + [RowOf(t)];
    if end == [] || end == " " {
      TextStops(t.value, end, t.key, table);
    } else if !Small(t) || |table| >= 16 {
      ItemStops(t.value, end, t.key, table);
    } else {
      RowMade(t);
      ParseAtEquals(t.value, end, t.key, table);
      if end[0] == ' ' {
        PlainRead(end[2..], [end[1]], table1);
      } else {
        PlainRead(end[1..], [end[0]], table1);
      }
    }
  }

  lemma {:induction false} ItemsParts(items: seq<Item>)
    requires items != [] && GoodItems(items)
    ensures GoodItem(items[0]) && AllSmall(items) == (Small(items[0]) && AllSmall(items[1..]))
    ensures |items| == 1 ==> AllSmall(items[1..]) && RowsOf(items) == [RowOf(items[0])]
    ensures |items| > 1 ==> GoodItems(items[1..]) && GoodItem(items[1]) && items[1].key != []
    ensures |items| > 1 ==> (AllSmall(items) ==> |items[1].key| < 64)
  {
    assert items == [items[0]] + items[1..];
    if |items| > 1 {
      assert items[1] in items;
    }
  }

  /** Behind a space comes the next key, its first character unread. */
  lemma {:induction false} NextKeyRead(items: seq<Item>, end: string, table: seq<Row>, tail: string)
    requires |items| > 1 && GoodItems(items) && GoodEnd(end) && tail == " " + items[1].key + After(items[1..], end)
    ensures |tail| > 1
    ensures Parse(tail[2..], [tail[1]], table)
            == if AllSmall(items[1..]) && |table| + |items[1..]| <= 16 && SmallEnd(end)
               then Ok(table + RowsOf(items[1..])) else Halt
    decreases |items|, 0
  {
    hide Parse, After, Line, RowOf, AllSmall, GoodItems, RowsOf, GoodEnd, SmallEnd;
    ItemsParts(items);
    var key, rest := items[1].key, After(items[1..], end);
    assert tail[1] == key[0] && tail[2..] == key[1..] + rest;
    if |key| <= 64 {
      KeyRead(key[1..], rest, [key[0]], table);
      assert [key[0]] + key[1..] == key;
      ItemsRead(items[1..], end, table);
    } else {
      KeyTooLong(key[1..], rest, [key[0]], table);
      ItemsParts(items[1..]);
    }
  }

  /** Every text of good items is parsed to their rows, exactly when there are at most 16 of them, each with a
      key of less than 64 characters and a value of less than 32, and what is behind them fits as well;
      otherwise the parser leaves a buffer or the text. */
  lemma {:induction false} LineIsParsed(items: seq<Item>, end: string)
    requires items != [] && GoodItems(items) && GoodEnd(end)
    ensures Parse(Line(items, end), [], [])
            == if AllSmall(items) && |items| <= 16 && SmallEnd(end) then Ok(RowsOf(items)) else Halt
  {
    hide Parse, After, RowOf, AllSmall, GoodItems, RowsOf, GoodEnd, SmallEnd;
    ItemsParts(items);
    var key := items[0].key;
    if |key| <= 64 {
      KeyRead(key, After(items, end), [], []);
      assert [] + key == key;
      ItemsRead(items, end, []);
      assert [] + RowsOf(items) == RowsOf(items);
    } else {
      KeyTooLong(key, After(items, end), [], []);
    }
  }
}
