/** When a map call returns: tables left in the current block, or a frame left for the next. */
module PageSupply {
  import opened Words
  import opened FrameSearch
  import opened PageEntry
  import opened PageWalk
  import opened PageTree
  import opened PageMap
  import opened PageRuns
  import opened PageBudget

  /** A frame for a new block is to be had, within the direct map. */
  predicate FrameLeft(m: Machine, words: seq<Word>)
    requires m.mmEnd <= |words|
  {
    match Search(m.build.reset, words, m.mmEnd, 1)
    case None => false
    case Some(f) => f != 0 && 512 * f + 511 < TABLES && f < 64 * |words|
  }

  /** The next `calls` tables come from the current block, or a frame for a new block is to be had. */
  predicate Supplied(m: Machine, st: Vm, calls: nat)
    requires Wf(m, st)
  {
    calls == 0 || FrameLeft(m, st.words) || (st.cur != 0 && Taken(m, st) + calls * m.step <= 511)
  }

  ghost predicate AllReached(ram: seq<Table>, root: nat)
    requires |ram| == TABLES && root < TABLES
  {
    forall n: nat | n < TABLES :: Reached(ram, root, n)
  }

  lemma {:induction false} AllocBlockSucceeds(m: Machine, st: Vm)
    requires Wf(m, st) && AllReached(st.ram, m.root)
    ensures AllocBlock(m, st).Ok? == FrameLeft(m, st.words)
  {
    hide Reached;
  }

  lemma {:induction false} WindowIsReached(m: Machine, p4: nat, st: Vm, tab: map<Node, nat>, blocks: seq<nat>)
    requires Inv(m, p4, st, tab, blocks) && Wf(m, st) && m.root == p4 && Window(st.ram, tab)
    ensures AllReached(st.ram, m.root)
  {
    hide Inv, Tree, Window, Reached;
    InvParts(m, p4, st, tab, blocks);
    WindowReaches(st.ram, p4, tab);
  }

  /** The window depends on the contents of the tree's tables only. */
  lemma {:induction false} WindowSame(tab: map<Node, nat>, ram: seq<Table>, ram1: seq<Table>)
    requires SameTree(tab, ram, ram1) && Window(ram, tab)
    ensures Window(ram1, tab)
  {
    hide Shows, Decode;
  }

  lemma {:induction false} WindowOfSlots(ram: seq<Table>, tab: map<Node, nat>, ram1: seq<Table>, tab1: map<Node, nat>)
    requires SameSlots(ram, tab, ram1, tab1) && Window(ram, tab)
    ensures Window(ram1, tab1)
  {
    hide Shows, Decode, Slot;
  }

  /** Making the first block succeeds, and a block that has just been made needs no other. */
  lemma {:induction false} FirstBlockSucceeds(m: Machine, p4: nat, st: Vm, tab: map<Node, nat>, blocks: seq<nat>)
    requires Inv(m, p4, st, tab, blocks) && Wf(m, st) && AllReached(st.ram, m.root)
    requires FrameLeft(m, st.words) || (st.cur != 0 && Taken(m, st) < 511)
    ensures FirstBlock(m, st).Ok?
    ensures var st1 := FirstBlock(m, st).value;
            && st1.cur != 0 && Taken(m, st1) == Taken(m, st)
            && (st1 == st || Taken(m, st1) == 0)
            && (FrameLeft(m, st1.words) || Taken(m, st1) < 511)
  {
    hide AllocBlock, FrameLeft, AllReached;
    AllocBlockSucceeds(m, st);
    CurIsLast(m, p4, st, tab, blocks);
    if blocks == [] {
      NoBlockTaken(m, st);
    }
    FirstBlockUnfolds(m, st);
    hide FirstBlock, Inv;
    var b1 := FirstBlockOk(m, p4, st, tab, blocks);
    CurIsLast(m, p4, FirstBlock(m, st).value, tab, b1);
    CurrentTaken(m, p4, FirstBlock(m, st).value, tab, b1);
  }

  lemma {:induction false} FirstBlockUnfolds(m: Machine, st: Vm)
    requires Wf(m, st) && (AllocBlock(m, st).Ok? || st.cur != 0)
    ensures FirstBlock(m, st).Ok? && (st.cur != 0 ==> FirstBlock(m, st).value == st)
  {
    hide AllocBlock;
  }

  /** With a current block, rolling over succeeds, and leaves a block that needs no other. */
  lemma {:induction false} NextBlockSucceeds(m: Machine, p4: nat, st: Vm, tab: map<Node, nat>, blocks: seq<nat>)
    requires Inv(m, p4, st, tab, blocks) && blocks != [] && Wf(m, st) && AllReached(st.ram, m.root)
    requires FrameLeft(m, st.words) || Taken(m, st) < 511
    ensures NextBlock(m, st).Ok?
    ensures NextBlock(m, st).value == st || Taken(m, NextBlock(m, st).value) == 0
    ensures Taken(m, st) < 511 ==> NextBlock(m, st).value == st
  {
    hide AllocBlock, Tree, Held, Chain, Spare, BlockAddr, Reached, FrameLeft;
    AllocBlockSucceeds(m, st);
    CurrentControl(m, p4, st, tab, blocks);
    var b2 := NextBlockOk(m, p4, st, tab, blocks);
    CurrentControl(m, p4, NextBlock(m, st).value, tab, b2);
  }

  lemma {:induction false} NewTableSucceeds(m: Machine, p4: nat, st: Vm, tab: map<Node, nat>, blocks: seq<nat>)
    requires Inv(m, p4, st, tab, blocks) && Wf(m, st) && Room(m, st) && m.root == p4 && Window(st.ram, tab)
    requires FrameLeft(m, st.words) || (st.cur != 0 && Taken(m, st) < 511)
    ensures NewTable(m, st).Ok?
    ensures var st1 := NewTable(m, st).value.0;
            || (st1.words == st.words && (blocks != [] ==> Taken(m, st1) == Taken(m, st) + m.step))
            || Taken(m, st1) == m.step
    ensures st.cur != 0 && Taken(m, st) < 511 ==>
              var st1 := NewTable(m, st).value.0;
              st1.words == st.words && Taken(m, st1) == Taken(m, st) + m.step
    ensures NewTable(m, st).value.0.cur != 0
  {
    hide FirstBlock, NextBlock, AllocBlock, Inv, Room, NewTable, Take, FrameLeft, AllReached, Window;
    WindowIsReached(m, p4, st, tab, blocks);
    FirstBlockSucceeds(m, p4, st, tab, blocks);
    var b1 := FirstBlockOk(m, p4, st, tab, blocks);
    var st1 := FirstBlock(m, st).value;
    WindowSame(tab, st.ram, st1.ram);
    WindowIsReached(m, p4, st1, tab, b1);
    CurIsLast(m, p4, st1, tab, b1);
    NextBlockSucceeds(m, p4, st1, tab, b1);
    var st2 := NextBlock(m, st1).value;
    NewTableUnfolds(m, st);
    var b2 := ReadyBlock(m, p4, st, tab, blocks);
    WindowSame(tab, st.ram, st2.ram);
    WindowIsReached(m, p4, st2, tab, b2);
    LastTaken(m, p4, st2, tab, b2);
    CurIsLast(m, p4, st, tab, blocks);
    FirstWords(m, st);
  }

  /** Taking a table from a block that has one left. */
  lemma {:induction false} LastTaken(m: Machine, p4: nat, st: Vm, tab: map<Node, nat>, blocks: seq<nat>)
    requires Inv(m, p4, st, tab, blocks) && Wf(m, st) && blocks != [] && AllReached(st.ram, m.root)
    requires st.ram[Ctl(blocks[|blocks| - 1])][0] + m.step <= 511
    ensures Take(m, st).Ok?
    ensures var st1 := Take(m, st).value.0;
            && Taken(m, st1) == Taken(m, st) + m.step && st1.words == st.words && st1.cur != 0
  {
    CurrentTaken(m, p4, st, tab, blocks);
    hide Take, Inv;
    assert Reached(st.ram, m.root, Ctl(blocks[|blocks| - 1]));
    hide Reached, AllReached;
    TakeOk(m, p4, st, tab, blocks);
    CurrentTaken(m, p4, Take(m, st).value.0, tab, blocks);
    CurIsLast(m, p4, Take(m, st).value.0, tab, blocks);
    TakeWords(m, st);
  }

  lemma {:induction false} NewTableUnfolds(m: Machine, st: Vm)
    requires Wf(m, st) && FirstBlock(m, st).Ok? && NextBlock(m, FirstBlock(m, st).value).Ok?
    ensures NewTable(m, st) == Take(m, NextBlock(m, FirstBlock(m, st).value).value)
  {
    hide FirstBlock, NextBlock, Take;
  }

  lemma {:induction false} FirstWords(m: Machine, st: Vm)
    requires Wf(m, st) && FirstBlock(m, st).Ok?
    ensures st.cur != 0 ==> FirstBlock(m, st).value == st
  {
  }

  lemma {:induction false} TakeWords(m: Machine, st: Vm)
    requires Wf(m, st) && Take(m, st).Ok?
    ensures Take(m, st).value.0.words == st.words
  {
  }

  /** With no table left in the current block and no frame for another, there is none. */
  lemma {:induction false} NewTableStops(m: Machine, p4: nat, st: Vm, tab: map<Node, nat>, blocks: seq<nat>)
    requires Inv(m, p4, st, tab, blocks) && Wf(m, st) && m.root == p4 && Window(st.ram, tab)
    requires !FrameLeft(m, st.words) && (st.cur == 0 || Taken(m, st) >= 511)
    ensures NewTable(m, st).Halt?
  {
    hide AllocBlock, Inv, Tree, Held, Chain, Spare, Take, FrameLeft, AllReached, Window, Reached;
    WindowIsReached(m, p4, st, tab, blocks);
    AllocBlockSucceeds(m, st);
    CurIsLast(m, p4, st, tab, blocks);
    if st.cur != 0 {
      CurrentTaken(m, p4, st, tab, blocks);
    }
  }

  /** One new table: it is to be had exactly when supplied, and then supply for the rest is left exactly
      when there was supply for all. */
  lemma {:induction false} TableSupplied(m: Machine, p4: nat, st: Vm, tab: map<Node, nat>, blocks: seq<nat>, more: nat)
    requires Inv(m, p4, st, tab, blocks) && Wf(m, st) && Room(m, st) && m.root == p4 && Window(st.ram, tab)
    requires more <= 1
    ensures NewTable(m, st).Ok? <==> Supplied(m, st, 1)
    ensures NewTable(m, st).Ok? ==> (Supplied(m, NewTable(m, st).value.0, more) <==> Supplied(m, st, 1 + more))
  {
    hide NewTable, FrameLeft, Inv, Taken, Window;
    CurIsLast(m, p4, st, tab, blocks);
    RoomLeft(m, p4, st, tab, blocks);
    hide Room;
    if FrameLeft(m, st.words) || (st.cur != 0 && Taken(m, st) < 511) {
      NewTableSucceeds(m, p4, st, tab, blocks);
    } else {
      NewTableStops(m, p4, st, tab, blocks);
    }
  }

  lemma {:induction false} RoomLeft(m: Machine, p4: nat, st: Vm, tab: map<Node, nat>, blocks: seq<nat>)
    requires Inv(m, p4, st, tab, blocks) && Wf(m, st) && Room(m, st)
    ensures st.cur != 0 && Taken(m, st) < 511 ==> Taken(m, st) + m.step <= 511
  {
    hide Inv;
  }

  function Lacking(tables: set<Node>, c: Node): nat {
    if c in tables then 0 else 1
  }

  lemma {:induction false} LevelSupplied(m: Machine, p4: nat, st: Vm, tab: map<Node, nat>, blocks: seq<nat>,
      r: Node, i: nat, more: nat)
    requires Inv(m, p4, st, tab, blocks) && Wf(m, st) && r in tab && tab[r] < TABLES && !r.P2? && i < 512
    requires LevelExact(m, st, tab[r], i) && more <= 1 && m.root == p4 && Window(st.ram, tab)
    ensures NextLevel(m, st, tab[r], i).Ok? <==> Supplied(m, st, Lacking(tab.Keys, Child(r, i)))
    ensures NextLevel(m, st, tab[r], i).Ok? ==>
              (Supplied(m, NextLevel(m, st, tab[r], i).value.0, more)
               <==> Supplied(m, st, Lacking(tab.Keys, Child(r, i)) + more))
  {
    LevelPresent(m, p4, st, tab, blocks, r, i);
    hide NewTable, NextLevel, AllocBlock, Link, Room, Inv, Taken, Reached, FrameLeft, Window;
    WindowIsReached(m, p4, st, tab, blocks);
    if Child(r, i) !in tab {
      TableSupplied(m, p4, st, tab, blocks, more);
      NextLevelUnfolds(m, st, tab[r], i);
      if NewTable(m, st).Ok? {
        var b1 := NewTableOk(m, p4, st, tab, blocks);
        var (st1, n) := NewTable(m, st).value;
        LeafTaken(m, p4, st1, tab, b1, r, i, Link(n, TABLE_FLAGS));
      }
    }
  }

  lemma {:induction false} NextLevelUnfolds(m: Machine, st: Vm, n: nat, i: nat)
    requires Wf(m, st) && n < TABLES && i < 512 && !IsPresent(st.ram[n][i])
    requires Reached(st.ram, m.root, n)
    ensures NewTable(m, st).Halt? ==> NextLevel(m, st, n, i).Halt?
    ensures NewTable(m, st).Ok? ==>
              var (st1, next) := NewTable(m, st).value;
              NextLevel(m, st, n, i) == Ok((st1.(ram := Write(st1.ram, n, i, Link(next, TABLE_FLAGS))), next))
  {
    hide NewTable, Link, Reached;
  }

  /** How many tables on the way to the page are not among those given. */
  function LackingFor(tables: set<Node>, page: Page): nat {
    Lacking(tables, P3(page.i4)) + Lacking(tables, P2(page.i4, page.i3))
  }

  /** While the window is in place, a map call that is handed no control table returns exactly when the
      tables its page lacks are supplied. */
  lemma {:induction false} MapSucceeds(m: Machine, p4: nat, st: Vm, tab: map<Node, nat>, blocks: seq<nat>,
      phys: u64, virt: u64, flags: u32)
    requires p4 < TABLES && Inv(m, p4, st, tab, blocks) && MapExact(m, p4, st, virt)
    requires m.root == p4 && Window(st.ram, tab)
    ensures MapPage(m, p4, st, phys, virt, flags).Ok? <==> Supplied(m, st, LackingFor(tab.Keys, PageOf(virt)))
  {
    hide PageOf, PageAlign, NextLevel, LevelExact, Supplied, Inv, Window, Reached, SameSlots, MapPage;
    InvParts(m, p4, st, tab, blocks);
    PageOfAligned(virt);
    PageOfIs(virt);
    var page := PageOf(virt);
    MapReturns(m, p4, st, phys, virt, flags, page);
    LevelSupplied(m, p4, st, tab, blocks, P4, page.i4, Lacking(tab.Keys, P2(page.i4, page.i3)));
    if Supplied(m, st, LackingFor(tab.Keys, page)) {
      FewerCalls(m, st, Lacking(tab.Keys, P3(page.i4)), Lacking(tab.Keys, P2(page.i4, page.i3)));
    }
    if NextLevel(m, st, p4, page.i4).Ok? {
      var (st1, n3) := NextLevel(m, st, p4, page.i4).value;
      var t3, b3 := NextLevelOk(m, p4, st, tab, blocks, P4, page.i4);
      WindowOfSlots(st.ram, tab, st1.ram, t3);
      LevelSupplied(m, p4, st1, t3, b3, P3(page.i4), page.i3, 0);
      if NextLevel(m, st1, n3, page.i3).Ok? {
        var (st2, n2) := NextLevel(m, st1, n3, page.i3).value;
        var t2, b2 := NextLevelOk(m, p4, st1, t3, b3, P3(page.i4), page.i3);
        WindowOfSlots(st1.ram, t3, st2.ram, t2);
        WindowIsReached(m, p4, st2, t2, b2);
      }
    }
  }

  /** A map call returns when both levels of the descent do and the last table is reached. */
  lemma {:induction false} MapReturns(m: Machine, p4: nat, st: Vm, phys: u64, virt: u64, flags: u32, page: Page)
    requires Wf(m, st) && p4 < TABLES && InTables(page) && PageOf(PageAlign(virt)) == page
    ensures NextLevel(m, st, p4, page.i4).Halt? ==> MapPage(m, p4, st, phys, virt, flags).Halt?
    ensures NextLevel(m, st, p4, page.i4).Ok? ==>
              var (st1, n3) := NextLevel(m, st, p4, page.i4).value;
              MapPage(m, p4, st, phys, virt, flags).Ok?
              <==> match NextLevel(m, st1, n3, page.i3)
                   case Halt => false
                   case Ok((st2, n2)) => Reached(st2.ram, m.root, n2)
  {
    hide PageOf, PageAlign, NextLevel, Leaf, Reached;
  }

  lemma {:induction false} FewerCalls(m: Machine, st: Vm, calls: nat, more: nat)
    requires Wf(m, st) && Supplied(m, st, calls + more)
    ensures Supplied(m, st, calls)
  {
    hide FrameLeft, Taken;
    assert (calls + more) * m.step == calls * m.step + more * m.step;
  }

  /** The run names no page of the window. */
  ghost predicate SparesWindow(ops: seq<Op>) {
    forall op, i: nat | op in ops && i < 512 :: Names(op, Page(511, 510, i)) == None
  }

  /** Such a run from the boot tables keeps the whole window in place. */
  lemma {:induction false} RunKeepsWindow(m: Machine, st: Vm, p4: nat, p3: nat, p2: nat, ops: seq<Op>)
    returns (tab1: map<Node, nat>, blocks1: seq<nat>)
    requires Boot(m, st, p4, p3, p2) && RunExact(m, p4, st, ops) && RunSpares(m, p4, st, ops)
    requires Run(m, p4, st, ops).Ok? && SparesWindow(ops)
    ensures Inv(m, p4, Run(m, p4, st, ops).value, tab1, blocks1) && Window(Run(m, p4, st, ops).value.ram, tab1)
    ensures tab1.Keys == BootTree(p4, p3, p2).Keys + Needed(ops)
  {
    hide Boot, Inv, Run, RunExact, RunSpares, Slot, Names;
    var tab := BootTree(p4, p3, p2);
    BootInv(m, st, p4, p3, p2);
    tab1, blocks1 := RunRefinesFlat(m, p4, st, tab, [], ops);
    forall i: nat | i < 512
      ensures Shows(Decode(Slot(Run(m, p4, st, ops).value.ram, tab1, Page(511, 510, i))), i)
    {
      FlatUnnamed(Slot(st.ram, tab, Page(511, 510, i)), ops, Page(511, 510, i));
      DirectMapEntry(i);
    }
  }

  /** The tables the page of the operation needs beyond those given. */
  function LackingOf(tables: set<Node>, op: Op): nat {
    match op
    case Map(_, virt, _) => LackingFor(tables, PageOf(virt))
    case Unmap(virt) => LackingFor(tables, PageOf(virt))
    case Reserve(_) => 0
    case Release(_, _) => 0
  }

  /** The window stops no call of such a run: after it, the next call that is handed no control table returns
      exactly when there is supply for the tables that its page needs and no page of the run needed. */
  lemma {:induction false} NextCallReturns(m: Machine, st: Vm, p4: nat, p3: nat, p2: nat, ops: seq<Op>, op: Op)
    requires Boot(m, st, p4, p3, p2) && m.root == p4 && SparesWindow(ops)
    requires RunExact(m, p4, st, ops) && RunSpares(m, p4, st, ops) && Run(m, p4, st, ops).Ok?
    requires StepExact(m, p4, Run(m, p4, st, ops).value, op)
    ensures Step(m, p4, Run(m, p4, st, ops).value, op).Ok?
            <==> Supplied(m, Run(m, p4, st, ops).value, LackingOf(BootTree(p4, p3, p2).Keys + Needed(ops), op))
  {
    hide Boot, Inv, Run, RunExact, RunSpares, MapPage, MapExact, Window, LackingFor, FrameLeft, Needed;
    BootInv(m, st, p4, p3, p2);
    var tab1, blocks1 := RunKeepsWindow(m, st, p4, p3, p2, ops);
    var st1 := Run(m, p4, st, ops).value;
    match op {
      case Map(phys, virt, flags) => MapSucceeds(m, p4, st1, tab1, blocks1, phys, virt, flags);
      case Unmap(virt) => MapSucceeds(m, p4, st1, tab1, blocks1, 0, virt, 0);
      case Reserve(_) =>
      case Release(_, _) =>
    }
  }
}
