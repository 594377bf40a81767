/** The code as written, one table beyond its budget. */
module PageOverflow {
  import opened Words
  import opened Bitmap
  import opened FrameSearch
  import opened PageEntry
  import opened PageWalk
  import opened PageTree
  import opened PageMap
  import opened PageRuns
  import opened PageBudget
  import opened PageSupply

  /** `j` maps, each of a page in a P4 slot of its own, so that each creates two tables. */
  function Spread(j: nat): seq<Op>
    requires j <= 128
  {
    seq(j, i requires 0 <= i < j => Map(0, 0x80_0000_0000 * i, 0x83))
  }

  lemma {:induction false} SpreadPage(i: nat)
    requires i < 512
    ensures PageOf(0x80_0000_0000 * i) == Page(i, 0, 0)
  {
    hide PageOf;
    PageOfIs(0x80_0000_0000 * i);
    Bits.RemainderUnique(0x80_0000_0000 * i, 0x20_0000, 0x4_0000 * i, 0);
    Bits.RemainderUnique(0x4_0000 * i, 512, 512 * i, 0);
    Bits.RemainderUnique(512 * i, 512, i, 0);
    Bits.RemainderUnique(0x4_0000 * i, 0x4_0000, i, 0);
  }

  predicate SlotsFree(tab: map<Node, nat>, j: nat) {
    forall i | j <= i < 128 :: P3(i) !in tab
  }

  lemma {:induction false} WindowUnnamed(ram: seq<Table>, tab: map<Node, nat>, ram1: seq<Table>,
      tab1: map<Node, nat>, page: Page)
    requires Window(ram, tab) && page.i4 != 511
    requires forall k | InTables(k) && k != page :: Slot(ram1, tab1, k) == Slot(ram, tab, k)
    ensures Window(ram1, tab1)
  {
    hide Shows, Decode, Slot;
  }

  lemma {:induction false} SpreadStep(m: Machine, p4: nat, st: Vm, tab: map<Node, nat>, blocks: seq<nat>, j: nat)
    returns (tab1: map<Node, nat>, blocks1: seq<nat>)
    requires p4 < TABLES && Wf(m, st) && Inv(m, p4, st, tab, blocks) && m.step == 2
    requires m.root == p4 && Window(st.ram, tab)
    requires j < 127 && Taken(m, st) == 4 * j && SlotsFree(tab, j) && Supplied(m, st, 2)
    ensures MapPage(m, p4, st, 0, 0x80_0000_0000 * j, 0x83).Ok?
    ensures var st1 := MapPage(m, p4, st, 0, 0x80_0000_0000 * j, 0x83).value;
            && Inv(m, p4, st1, tab1, blocks1) && Window(st1.ram, tab1)
            && Taken(m, st1) == 4 * (j + 1) && SlotsFree(tab1, j + 1)
  {
    hide PageOf, MapPage, MapExact, Inv, Taken, Supplied, Slot, Window, Tree, Held, Chain, Spare;
    var virt := 0x80_0000_0000 * j;
    SpreadPage(j);
    InvParts(m, p4, st, tab, blocks);
    ParentIn(st.ram, p4, tab, Page(j, 0, 0));
    MapTaken(m, p4, st, tab, blocks, 0, virt, 0x83);
    MapSucceeds(m, p4, st, tab, blocks, 0, virt, 0x83);
    tab1, blocks1 := MapPageOk(m, p4, st, tab, blocks, 0, virt, 0x83);
    WindowUnnamed(st.ram, tab, MapPage(m, p4, st, 0, virt, 0x83).value.ram, tab1, Page(j, 0, 0));
    forall i | j + 1 <= i < 128
      ensures P3(i) !in tab1
    {
      assert P3(i) !in tab1.Keys;
    }
  }

  lemma {:induction false} HasSupply(m: Machine, p4: nat, st: Vm, tab: map<Node, nat>, blocks: seq<nat>, calls: nat)
    requires Wf(m, st) && Inv(m, p4, st, tab, blocks) && 0 < Taken(m, st) && Taken(m, st) + calls * m.step <= 511
    ensures Supplied(m, st, calls) && blocks != []
  {
    hide Inv, FrameLeft;
    CurIsLast(m, p4, st, tab, blocks);
    if blocks == [] {
      NoBlockTaken(m, st);
    }
  }

  lemma {:induction false} SpreadRun(m: Machine, p4: nat, st: Vm, tab: map<Node, nat>, j: nat)
    returns (tab1: map<Node, nat>, blocks1: seq<nat>)
    requires p4 < TABLES && Wf(m, st) && Inv(m, p4, st, tab, []) && m.step == 2 && m.root == p4
    requires Window(st.ram, tab) && SlotsFree(tab, 0) && FrameLeft(m, st.words) && j <= 127
    ensures Run(m, p4, st, Spread(j)).Ok?
    ensures var st1 := Run(m, p4, st, Spread(j)).value;
            && Inv(m, p4, st1, tab1, blocks1) && Window(st1.ram, tab1)
            && Taken(m, st1) == 4 * j && SlotsFree(tab1, j)
    decreases j
  {
    hide Inv, Taken, MapPage, SlotsFree, FrameLeft, Window;
    if j == 0 {
      tab1, blocks1 := tab, [];
      CurIsLast(m, p4, st, tab, []);
      NoBlockTaken(m, st);
    } else {
      SpreadFront(j);
      var t, b := SpreadRun(m, p4, st, tab, j - 1);
      var st1 := Run(m, p4, st, Spread(j - 1)).value;
      if j > 1 {
        HasSupply(m, p4, st1, t, b, 2);
      }
      tab1, blocks1 := SpreadStep(m, p4, st1, t, b, j - 1);
    }
  }

  lemma {:induction false} SpreadFront(j: nat)
    requires 0 < j <= 128
    ensures Spread(j) != [] && Spread(j)[..|Spread(j)| - 1] == Spread(j - 1)
    ensures Spread(j)[|Spread(j)| - 1] == Map(0, 0x80_0000_0000 * (j - 1), 0x83)
  {
  }

  // The window's path through the tables.

  /** P4 entry 511 leads to `b3`, its entry 510 to `b2`, and `b2` maps the window. */
  ghost predicate Path(ram: seq<Table>, root: nat, b3: nat, b2: nat)
    requires |ram| == TABLES && root < TABLES
  {
    && b3 < TABLES && b2 < TABLES
    && ram[root][511] == Link(b3, TABLE_FLAGS) && ram[b3][510] == Link(b2, TABLE_FLAGS)
    && forall i: nat | i < 512 :: Shows(Decode(ram[b2][i]), i)
  }

  lemma {:induction false} PathReaches(ram: seq<Table>, root: nat, b3: nat, b2: nat)
    requires |ram| == TABLES && root < TABLES && Path(ram, root, b3, b2)
    ensures AllReached(ram, root)
  {
    hide Link, IsPresent, IsLarge, WalkedTable, Shows, Decode;
    LinkRecovers(b3);
    LinkRecovers(b2);
    forall n: nat | n < TABLES
      ensures Reached(ram, root, n)
    {
      assert Shows(Decode(ram[b2][n / 512]), n / 512);
    }
  }

  lemma {:induction false} PathKept(ram: seq<Table>, root: nat, b3: nat, b2: nat, t: nat, i: nat, w: u64)
    requires |ram| == TABLES && root < TABLES && Path(ram, root, b3, b2) && t < TABLES && i < 2 && t != b2
    ensures Path(Write(ram, t, i, w), root, b3, b2)
  {
    hide Link, Shows, Decode;
  }

  lemma {:induction false} PathOfTree(m: Machine, p4: nat, st: Vm, tab: map<Node, nat>, blocks: seq<nat>)
    requires Wf(m, st) && m.root == p4 && Inv(m, p4, st, tab, blocks) && Window(st.ram, tab)
    ensures P3(511) in tab && P2(511, 510) in tab && Path(st.ram, m.root, tab[P3(511)], tab[P2(511, 510)])
  {
    hide Link, IsPresent, Decode, Held, Chain, Spare;
    WindowEntry(st.ram, tab, 0);
    ZeroShowsNothing(0);
    assert Parent(P2(511, 510)) == P3(511);
    assert EntryOk(st.ram, tab, P4, 511) && EntryOk(st.ram, tab, P3(511), 510);
    forall i: nat | i < 512
      ensures Shows(Decode(st.ram[tab[P2(511, 510)]][i]), i)
    {
      WindowEntry(st.ram, tab, i);
    }
  }

  /** A table from the current block. */
  lemma {:induction false} TableFromBlock(m: Machine, st: Vm, ctl: nat)
    requires Wf(m, st) && st.cur != 0 && Control(st.cur) == Some(ctl) && Reached(st.ram, m.root, ctl)
    requires st.ram[ctl][0] < 511 && st.ram[ctl][0] + m.step <= 512
    ensures var idx := st.ram[ctl][0] + m.step;
            NewTable(m, st) == Ok((st.(ram := Write(st.ram, ctl, 0, idx)), ctl - 511 + idx - 1))
  {
    hide Reached, AllocBlock;
  }

  // One table too many.

  /** The control words of block `f` serve as the P2 table of pages (127, 0, *): `idx` is the leaf of
      page (127, 0, 0). */
  ghost predicate Overlaid(m: Machine, st: Vm, f: nat, b3: nat, b2: nat) {
    && Wf(m, st) && Ctl(f) < TABLES && st.cur != 0 && Control(st.cur) == Some(Ctl(f))
    && Path(st.ram, m.root, b3, b2) && b2 != Ctl(f) && b2 != Ctl(f) - 2
    && st.ram[m.root][127] == Link(Ctl(f) - 2, TABLE_FLAGS)
    && st.ram[Ctl(f) - 2][0] == Link(Ctl(f), TABLE_FLAGS)
    && !IsPresent(st.ram[Ctl(f) - 2][1])
    && st.ram[Ctl(f)][0] == 0x83
  }

  /** The first level of the map that makes the 255th and the 256th table. */
  lemma {:induction false} LastP3(m: Machine, p4: nat, st: Vm, tab: map<Node, nat>, blocks: seq<nat>)
    returns (st1: Vm, tab1: map<Node, nat>, blocks1: seq<nat>)
    requires p4 < TABLES && Wf(m, st) && Inv(m, p4, st, tab, blocks) && m.step == 2
    requires m.root == p4 && Window(st.ram, tab)
    requires Taken(m, st) == 508 && P3(127) !in tab && blocks != []
    ensures var f := blocks[|blocks| - 1];
            && Ctl(f) < TABLES && NextLevel(m, st, p4, 127) == Ok((st1, Ctl(f) - 2))
            && Wf(m, st1) && Inv(m, p4, st1, tab1, blocks1) && Window(st1.ram, tab1)
            && P3(127) in tab1 && tab1[P3(127)] == Ctl(f) - 2 && P2(127, 0) !in tab1 && P2(127, 1) !in tab1
            && Control(st1.cur) == Some(Ctl(f)) && st1.cur != 0 && st1.ram[Ctl(f)][0] == 510
            && st1.ram[p4][127] == Link(Ctl(f) - 2, TABLE_FLAGS) && Ctl(f) !in tab1.Values
  {
    hide Inv, Tree, Held, Chain, Spare, Window, NewTable, NextLevel, Taken, Link, SameSlots, BlockAddr, Reached,
      Control;
    var f := blocks[|blocks| - 1];
    InvParts(m, p4, st, tab, blocks);
    LastControl(m, p4, st, tab, blocks);
    ParentIn(st.ram, p4, tab, Page(127, 0, 0));
    ParentIn(st.ram, p4, tab, Page(127, 1, 0));
    LevelPresent(m, p4, st, tab, blocks, P4, 127);
    WindowIsReached(m, p4, st, tab, blocks);
    assert Reached(st.ram, m.root, Ctl(f)) && Reached(st.ram, m.root, p4);
    hide AllReached;
    TableFromBlock(m, st, Ctl(f));
    NextLevelUnfolds(m, st, p4, 127);
    st1 := NextLevel(m, st, p4, 127).value.0;
    assert tab[P4] in tab.Values;
    HasRoom(m, st);
    tab1, blocks1 := NextLevelOk(m, p4, st, tab, blocks, P4, 127);
    WindowOfSlots(st.ram, tab, st1.ram, tab1);
    SameCurrent(m, p4, st1, tab1, blocks1, f);
  }

  lemma {:induction false} LastControl(m: Machine, p4: nat, st: Vm, tab: map<Node, nat>, blocks: seq<nat>)
    requires Inv(m, p4, st, tab, blocks) && Wf(m, st) && blocks != []
    ensures var f := blocks[|blocks| - 1];
            && Ctl(f) < TABLES && st.cur != 0 && Control(st.cur) == Some(Ctl(f)) && Taken(m, st) == st.ram[Ctl(f)][0]
  {
    CurrentTaken(m, p4, st, tab, blocks);
    CurrentControl(m, p4, st, tab, blocks);
  }

  lemma {:induction false} SameCurrent(m: Machine, p4: nat, st: Vm, tab: map<Node, nat>, blocks: seq<nat>, f: nat)
    requires Inv(m, p4, st, tab, blocks) && st.cur != 0 && Ctl(f) < TABLES && Control(st.cur) == Some(Ctl(f))
    ensures Ctl(f) !in tab.Values
  {
    CurIsLast(m, p4, st, tab, blocks);
    CurrentControl(m, p4, st, tab, blocks);
  }

  /** The map that makes the 256th table returns, and leaves the block's control words overlaid. */
  lemma {:induction false} LastMapOverlays(m: Machine, p4: nat, st: Vm, tab: map<Node, nat>, blocks: seq<nat>,
      virt: u64)
    returns (f: nat, b3: nat, b2: nat)
    requires p4 < TABLES && Wf(m, st) && Inv(m, p4, st, tab, blocks) && m.step == 2
    requires m.root == p4 && Window(st.ram, tab)
    requires Taken(m, st) == 508 && P3(127) !in tab && blocks != [] && PageOf(virt) == Page(127, 0, 0)
    ensures MapPage(m, p4, st, 0, virt, 0x83).Ok?
    ensures Overlaid(m, MapPage(m, p4, st, 0, virt, 0x83).value, f, b3, b2)
  {
    hide Inv, Window, NextLevel, Taken, Control, MapPage, Overlaid, Halfway;
    f := blocks[|blocks| - 1];
    var st1, tab1, blocks1 := LastP3(m, p4, st, tab, blocks);
    b3, b2 := HalfwayThere(m, p4, st1, tab1, blocks1, f);
    SecondLevelOverlays(m, st, st1, f, b3, b2, virt);
  }

  /** The P3 table of P4 slot 127 is in place and empty, and the block has one table left to be counted. */
  ghost predicate Halfway(m: Machine, st: Vm, f: nat, b3: nat, b2: nat) {
    && Wf(m, st) && m.step == 2 && Ctl(f) < TABLES && st.cur != 0 && Control(st.cur) == Some(Ctl(f))
    && Path(st.ram, m.root, b3, b2) && b2 != Ctl(f) && b2 != Ctl(f) - 2
    && st.ram[Ctl(f)][0] == 510 && st.ram[m.root][127] == Link(Ctl(f) - 2, TABLE_FLAGS)
    && !IsPresent(st.ram[Ctl(f) - 2][0]) && !IsPresent(st.ram[Ctl(f) - 2][1])
  }

  lemma {:induction false} HalfwayThere(m: Machine, p4: nat, st: Vm, tab: map<Node, nat>, blocks: seq<nat>, f: nat)
    returns (b3: nat, b2: nat)
    requires Wf(m, st) && Inv(m, p4, st, tab, blocks) && m.root == p4 && m.step == 2 && Window(st.ram, tab)
    requires Ctl(f) < TABLES && Ctl(f) !in tab.Values
    requires P3(127) in tab && tab[P3(127)] == Ctl(f) - 2 && P2(127, 0) !in tab && P2(127, 1) !in tab
    requires Control(st.cur) == Some(Ctl(f)) && st.cur != 0 && st.ram[Ctl(f)][0] == 510
    requires st.ram[p4][127] == Link(Ctl(f) - 2, TABLE_FLAGS)
    ensures Halfway(m, st, f, b3, b2)
  {
    hide Inv, Tree, Held, Chain, Spare, Window, NextLevel, Path, Reached, Control, Link, IsPresent;
    PathOfTree(m, p4, st, tab, blocks);
    b3, b2 := tab[P3(511)], tab[P2(511, 510)];
    InvParts(m, p4, st, tab, blocks);
    DifferentTables(st.ram, p4, tab);
    LevelPresent(m, p4, st, tab, blocks, P3(127), 0);
    LevelPresent(m, p4, st, tab, blocks, P3(127), 1);
  }

  lemma {:induction false} SecondLevelOverlays(m: Machine, st: Vm, st1: Vm, f: nat, b3: nat, b2: nat, virt: u64)
    requires Wf(m, st) && Halfway(m, st1, f, b3, b2) && NextLevel(m, st, m.root, 127) == Ok((st1, Ctl(f) - 2))
    requires PageOf(virt) == Page(127, 0, 0)
    ensures MapPage(m, m.root, st, 0, virt, 0x83).Ok?
    ensures Overlaid(m, MapPage(m, m.root, st, 0, virt, 0x83).value, f, b3, b2)
  {
    hide NextLevel, Link, PageOf, PageAlign, Leaf, Control, Path, Reached, MapPage, Overlaid, IsPresent;
    var n3 := Ctl(f) - 2;
    SecondLevel(m, st1, f, b3, b2);
    PageOfAligned(virt);
    var st2 := NextLevel(m, st1, n3, 0).value.0;
    MapPageIs(m, m.root, st, 0, virt, 0x83, st1, n3, st2, Ctl(f));
    LeafOfAligned(0, 0x83);
    LeafIs(0, 0x83);
  }

  lemma {:induction false} DifferentTables(ram: seq<Table>, p4: nat, tab: map<Node, nat>)
    requires Tree(ram, p4, tab) && P3(127) in tab && P2(511, 510) in tab
    ensures tab[P2(511, 510)] != tab[P3(127)] && tab[P2(511, 510)] in tab.Values
  {
  }

  /** The second level takes the control table, and the leaf is written into it. */
  lemma {:induction false} SecondLevel(m: Machine, st: Vm, f: nat, b3: nat, b2: nat)
    requires Halfway(m, st, f, b3, b2)
    ensures NextLevel(m, st, Ctl(f) - 2, 0).Ok? && NextLevel(m, st, Ctl(f) - 2, 0).value.1 == Ctl(f)
    ensures var st2 := NextLevel(m, st, Ctl(f) - 2, 0).value.0;
            && Reached(st2.ram, m.root, Ctl(f))
            && Overlaid(m, st2.(ram := Write(st2.ram, Ctl(f), 0, 0x83)), f, b3, b2)
  {
    hide NewTable, NextLevel, Link, Path, Control, IsPresent;
    var n3, ctl := Ctl(f) - 2, Ctl(f);
    PathReaches(st.ram, m.root, b3, b2);
    TableFromBlock(m, st, ctl);
    NextLevelUnfolds(m, st, n3, 0);
    var ram1 := Write(st.ram, ctl, 0, 512);
    var ram2 := Write(ram1, n3, 0, Link(ctl, TABLE_FLAGS));
    PathKept(st.ram, m.root, b3, b2, ctl, 0, 512);
    PathKept(ram1, m.root, b3, b2, n3, 0, Link(ctl, TABLE_FLAGS));
    PathReaches(ram2, m.root, b3, b2);
    PathKept(ram2, m.root, b3, b2, ctl, 0, 0x83);
  }

  /** The next table is taken on the word that page (127, 0, 0) is mapped by. */
  lemma {:induction false} OverlaidBreaks(m: Machine, st: Vm, f: nat, b3: nat, b2: nat, virt: u64)
    requires Overlaid(m, st, f, b3, b2) && m.step == 2 && PageOf(virt) == Page(127, 1, 0)
    ensures MapPage(m, m.root, st, 0, virt, 0x83).Ok?
    ensures Translate(MapPage(m, m.root, st, 0, virt, 0x83).value.ram, m.root, Page(127, 0, 0)) == Page2M(0, 0x85)
  {
    hide NewTable, NextLevel, Link, Path, Control, IsPresent, PageOf, PageAlign, Leaf, Translate;
    var n3, ctl, n2 := Ctl(f) - 2, Ctl(f), Ctl(f) - 379;
    PathReaches(st.ram, m.root, b3, b2);
    PresentLevel(m, st, m.root, 127, n3);
    TableFromBlock(m, st, ctl);
    NextLevelUnfolds(m, st, n3, 1);
    var ram1 := Write(st.ram, ctl, 0, 0x85);
    var ram2 := Write(ram1, n3, 1, Link(n2, TABLE_FLAGS));
    PathKept(st.ram, m.root, b3, b2, ctl, 0, 0x85);
    PathKept(ram1, m.root, b3, b2, n3, 1, Link(n2, TABLE_FLAGS));
    PathReaches(ram2, m.root, b3, b2);
    PageOfAligned(virt);
    PageOfIs(virt);
    LeafOfAligned(0, 0x83);
    var ram3 := Write(ram2, n2, 0, Leaf(PageAlign(0), 0x83));
    LeafChanged(ram3, m.root, n3, ctl);
  }

  lemma {:induction false} LeafChanged(ram: seq<Table>, root: nat, n3: nat, ctl: nat)
    requires |ram| == TABLES && root < TABLES && n3 < TABLES && ctl < TABLES
    requires ram[root][127] == Link(n3, TABLE_FLAGS) && ram[n3][0] == Link(ctl, TABLE_FLAGS) && ram[ctl][0] == 0x85
    ensures Translate(ram, root, Page(127, 0, 0)) == Page2M(0, 0x85)
  {
    hide Link, IsPresent, IsLarge, WalkedTable, Decode, Leaf;
    LinkRecovers(n3);
    LinkRecovers(ctl);
    LeafIs(0, 0x85);
    DecodeLeaf(0, 0x85);
    PageAlignIs(0);
  }

  /** The run: 128 maps that create two tables each, and one map more that creates a single table. */
  function Overflow(): seq<Op> {
    Spread(128) + [Map(0, 0x3F80_0000_0000 + 0x4000_0000, 0x83)]
  }

  lemma {:induction false} OverflowPage()
    ensures PageOf(0x3F80_0000_0000 + 0x4000_0000) == Page(127, 1, 0)
  {
    hide PageOf;
    var q := 127 * 0x4_0000 + 512;
    PageOfIs(0x3F80_0000_0000 + 0x4000_0000);
    Bits.RemainderUnique(0x3F80_0000_0000 + 0x4000_0000, 0x20_0000, q, 0);
    Bits.RemainderUnique(q, 512, 127 * 512 + 1, 0);
    Bits.RemainderUnique(127 * 512 + 1, 512, 127, 1);
    Bits.RemainderUnique(q, 0x4_0000, 127, 512);
  }

  lemma {:induction false} OverflowFlat(base: u64)
    ensures Decode(Flat(base, Overflow(), Page(127, 0, 0))) == Page2M(0, 0x83)
  {
    hide PageOf, Leaf, Decode, Spread, Flat;
    OverflowPage();
    SpreadPage(127);
    SpreadFront(128);
    var ops, k := Overflow(), Page(127, 0, 0);
    assert ops[..|ops| - 1] == Spread(128) && ops[|ops| - 1] == Map(0, 0x3F80_0000_0000 + 0x4000_0000, 0x83);
    FlatSkips(base, ops, k);
    FlatNamed(base, Spread(128), k);
    LeafIs(0, 0x83);
    DirectMapEntry(0);
  }

  lemma {:induction false} FlatSkips(base: u64, ops: seq<Op>, k: Page)
    requires ops != [] && Names(ops[|ops| - 1], k) == None
    ensures Flat(base, ops, k) == Flat(base, ops[..|ops| - 1], k)
  {
  }

  lemma {:induction false} FlatNamed(base: u64, ops: seq<Op>, k: Page)
    requires ops != [] && Names(ops[|ops| - 1], k).Some?
    ensures Flat(base, ops, k) == Names(ops[|ops| - 1], k).value
  {
  }

  /** As written, from the boot tables: whenever a frame for the first block is to be had, every call of
      this run returns, and mapping page (127, 1, 0) changes the flags of page (127, 0, 0). */
  lemma {:induction false} OverflowBreaks(m: Machine, st: Vm, p4: nat, p3: nat, p2: nat)
    requires Boot(m, st, p4, p3, p2) && m.root == p4 && m.step == 2 && FrameLeft(m, st.words)
    ensures Run(m, p4, st, Overflow()).Ok?
    ensures Translate(Run(m, p4, st, Overflow()).value.ram, p4, Page(127, 0, 0)) == Page2M(0, 0x85)
    ensures Decode(Flat(Slot(st.ram, BootTree(p4, p3, p2), Page(127, 0, 0)), Overflow(), Page(127, 0, 0)))
            == Page2M(0, 0x83)
  {
    hide Boot, Inv, Window, Taken, MapPage, FrameLeft, Slot, Translate, Decode, Spread, Overlaid, PageOf;
    var tab := BootTree(p4, p3, p2);
    BootInv(m, st, p4, p3, p2);
    BootWindow(m, st, p4, p3, p2);
    OverflowFlat(Slot(st.ram, tab, Page(127, 0, 0)));
    var t, b := SpreadRun(m, p4, st, tab, 127);
    var st1 := Run(m, p4, st, Spread(127)).value;
    HasSupply(m, p4, st1, t, b, 1);
    var virt := 0x80_0000_0000 * 127;
    SpreadPage(127);
    var f, b3, b2 := LastMapOverlays(m, p4, st1, t, b, virt);
    var st2 := MapPage(m, p4, st1, 0, virt, 0x83).value;
    SpreadFront(128);
    assert Run(m, p4, st, Spread(128)) == Ok(st2);
    OverflowPage();
    OverlaidBreaks(m, st2, f, b3, b2, 0x3F80_0000_0000 + 0x4000_0000);
    var ops := Overflow();
    assert ops[..|ops| - 1] == Spread(128) && ops[|ops| - 1] == Map(0, 0x3F80_0000_0000 + 0x4000_0000, 0x83);
  }

  // Boot tables exist.

  /** Boot tables in frame 1, all frames managed and all but 0 and 1 free, so that a frame for the first block
      is to be had. */
  lemma {:induction false} BootTables(m: Machine) returns (st: Vm)
    requires m.mmEnd == PMM_SIZE && 1 <= m.step <= 2 && m.root == 512
    ensures Boot(m, st, 512, 513, 514)
    ensures forall f: nat | f < PMM_FRAMES :: Used(st.words, f) == (f < 2)
    ensures FrameLeft(m, st.words)
  {
    hide Link, Used, AllocBlock;
    st := Vm(seq(TABLES, (n: nat) => BootTable(n)), seq(PMM_SIZE, w => seq(64, j => w == 0 && j < 2)), 0);
    UsedBelowTwo(st.words);
    SearchIsFirstFit(m.build.reset, st.words, m.mmEnd, 1);
    assert RunFree(st.words, 2, 1);
  }

  function BootTable(n: nat): Table {
    if n == 512 then ZeroTable()[511 := Link(513, TABLE_FLAGS)]
    else if n == 513 then ZeroTable()[510 := Link(514, TABLE_FLAGS)]
    else if n == 514 then seq(512, i => 0x20_0000 * i + 0x83)
    else ZeroTable()
  }

  lemma {:induction false} UsedBelowTwo(words: seq<Word>)
    requires words == seq(PMM_SIZE, w => seq(64, j => w == 0 && j < 2))
    ensures forall f: nat | f < PMM_FRAMES :: Used(words, f) == (f < 2)
  {
  }
}
