/** Which tables a map call reads and writes: those alone that the window leads to. */
module PageAccess {
  import opened Words
  import opened PageEntry
  import opened PageWalk
  import opened PageTree
  import opened PageMap
  import opened PageRuns
  import opened PageBudget
  import opened PageSupply

  /** Every table changed from `ram` to `ram1` is one the window leads to in `ram`. */
  ghost predicate ChangesReached(root: nat, ram: seq<Table>, ram1: seq<Table>)
    requires |ram| == |ram1| == TABLES && root < TABLES
  {
    forall n: nat | n < TABLES && ram1[n] != ram[n] :: Reached(ram, root, n)
  }

  /** In both states the window leads to the same tables. */
  ghost predicate SameWindow(root: nat, ram: seq<Table>, ram1: seq<Table>)
    requires |ram| == |ram1| == TABLES && root < TABLES
  {
    forall n: nat | n < TABLES :: Reached(ram1, root, n) == Reached(ram, root, n)
  }

  lemma {:induction false} ChangesJoin(root: nat, ram: seq<Table>, ram1: seq<Table>, ram2: seq<Table>)
    requires |ram| == |ram1| == |ram2| == TABLES && root < TABLES && SameWindow(root, ram, ram1)
    requires ChangesReached(root, ram, ram1) && ChangesReached(root, ram1, ram2)
    ensures ChangesReached(root, ram, ram2)
  {
    hide Reached;
  }

  lemma {:induction false} WriteReached(root: nat, ram: seq<Table>, n: nat, i: nat, w: u64)
    requires |ram| == TABLES && root < TABLES && n < TABLES && i < 512 && Reached(ram, root, n)
    ensures ChangesReached(root, ram, Write(ram, n, i, w))
  {
    hide Reached;
  }

  /** The window shows the same wherever pages have the same entries. */
  lemma {:induction false} WindowBySlots(root: nat, ram: seq<Table>, tab: map<Node, nat>, ram1: seq<Table>,
      tab1: map<Node, nat>)
    requires |ram| == |ram1| == TABLES && root < TABLES
    requires Tree(ram, root, tab) && Tree(ram1, root, tab1) && SameSlots(ram, tab, ram1, tab1)
    ensures SameWindow(root, ram, ram1)
  {
    hide Tree, Reached, Slot, Decode, Shows;
    forall n: nat | n < TABLES
      ensures Reached(ram1, root, n) == Reached(ram, root, n)
    {
      ReachedIsSlot(ram, root, tab, n);
      ReachedIsSlot(ram1, root, tab1, n);
    }
  }

  lemma {:induction false} SlotsOfTree(ram: seq<Table>, tab: map<Node, nat>, ram1: seq<Table>)
    requires SameTree(tab, ram, ram1)
    ensures SameSlots(ram, tab, ram1, tab)
  {
  }

  lemma {:induction false} SameTreeWindow(m: Machine, p4: nat, st: Vm, st1: Vm, tab: map<Node, nat>, blocks: seq<nat>,
      blocks1: seq<nat>)
    requires m.root == p4 && p4 < TABLES && Inv(m, p4, st, tab, blocks) && Inv(m, p4, st1, tab, blocks1)
    requires Wf(m, st) && Wf(m, st1) && SameTree(tab, st.ram, st1.ram)
    ensures SameWindow(m.root, st.ram, st1.ram)
  {
    hide Inv, Tree, SameTree, SameSlots, SameWindow;
    InvParts(m, p4, st, tab, blocks);
    InvParts(m, p4, st1, tab, blocks1);
    SlotsOfTree(st.ram, tab, st1.ram);
    WindowBySlots(p4, st.ram, tab, st1.ram, tab);
  }

  /** A new block is cleared through the window. */
  lemma {:induction false} AllocBlockReaches(m: Machine, st: Vm)
    requires Wf(m, st) && AllocBlock(m, st).Ok?
    ensures var (st1, f) := AllocBlock(m, st).value;
            && ChangesReached(m.root, st.ram, st1.ram)
            && forall n: nat | n < TABLES && n / 512 == f :: Reached(st.ram, m.root, n)
  {
    hide Shows, Translate;
    var (st1, f) := AllocBlock(m, st).value;
    assert Reached(st.ram, m.root, 512 * f) && 512 * f / 512 == f;
  }

  lemma {:induction false} FirstBlockReaches(m: Machine, st: Vm)
    requires Wf(m, st) && FirstBlock(m, st).Ok?
    ensures ChangesReached(m.root, st.ram, FirstBlock(m, st).value.ram)
  {
    hide AllocBlock, Reached;
    if st.cur == 0 {
      AllocBlockReaches(m, st);
    }
  }

  lemma {:induction false} NextBlockReaches(m: Machine, st: Vm)
    requires Wf(m, st) && NextBlock(m, st).Ok?
    ensures ChangesReached(m.root, st.ram, NextBlock(m, st).value.ram)
  {
    hide AllocBlock, Reached;
    if AllocBlock(m, st).Ok? {
      AllocBlockReaches(m, st);
      var f := AllocBlock(m, st).value.1;
      assert (512 * f + 511) / 512 == f;
    }
  }

  lemma {:induction false} TakeWrites(m: Machine, st: Vm)
    requires Wf(m, st) && Take(m, st).Ok?
    ensures ChangesReached(m.root, st.ram, Take(m, st).value.0.ram)
  {
    hide Reached;
  }

  lemma {:induction false} NewTableReaches(m: Machine, p4: nat, st: Vm, tab: map<Node, nat>, blocks: seq<nat>)
    requires m.root == p4 && Inv(m, p4, st, tab, blocks) && Wf(m, st) && Room(m, st) && NewTable(m, st).Ok?
    ensures ChangesReached(m.root, st.ram, NewTable(m, st).value.0.ram)
  {
    hide Inv, FirstBlock, NextBlock, Take, Room, ChangesReached, SameWindow, SameTree;
    var st1 := FirstBlock(m, st).value;
    var st2 := NextBlock(m, st1).value;
    var st3 := NewTable(m, st).value.0;
    FirstBlockReaches(m, st);
    NextBlockReaches(m, st1);
    TakeWrites(m, st2);
    var b1 := FirstBlockOk(m, p4, st, tab, blocks);
    var b2 := ReadyBlock(m, p4, st, tab, blocks);
    SameTreeWindow(m, p4, st, st1, tab, blocks, b1);
    SameTreeWindow(m, p4, st, st2, tab, blocks, b2);
    ChangesJoin(m.root, st.ram, st1.ram, st2.ram);
    ChangesJoin(m.root, st.ram, st2.ram, st3.ram);
  }

  lemma {:induction false} NextLevelReaches(m: Machine, p4: nat, st: Vm, tab: map<Node, nat>, blocks: seq<nat>,
      r: Node, i: nat)
    requires m.root == p4 && Inv(m, p4, st, tab, blocks) && Wf(m, st) && r in tab && tab[r] < TABLES
    requires !r.P2? && i < 512 && LevelExact(m, st, tab[r], i) && NextLevel(m, st, tab[r], i).Ok?
    ensures Reached(st.ram, m.root, tab[r])
    ensures ChangesReached(m.root, st.ram, NextLevel(m, st, tab[r], i).value.0.ram)
  {
    hide Inv, NextLevel, NewTable, Room, ChangesReached, SameWindow, Reached, SameTree;
    LevelPresent(m, p4, st, tab, blocks, r, i);
    NextLevelChanges(m, st, tab[r], i);
    if IsPresent(st.ram[tab[r]][i]) {
      NothingChanged(m.root, st.ram);
    } else {
      var (st1, n) := NewTable(m, st).value;
      NewTableReaches(m, p4, st, tab, blocks);
      var b1 := NewTableOk(m, p4, st, tab, blocks);
      SameTreeWindow(m, p4, st, st1, tab, blocks, b1);
      ReachedToo(m.root, st.ram, st1.ram, tab[r]);
      WriteReached(m.root, st1.ram, tab[r], i, Link(n, TABLE_FLAGS));
      ChangesJoin(m.root, st.ram, st1.ram, Write(st1.ram, tab[r], i, Link(n, TABLE_FLAGS)));
    }
  }

  lemma {:induction false} ReachedToo(root: nat, ram: seq<Table>, ram1: seq<Table>, n: nat)
    requires |ram| == |ram1| == TABLES && root < TABLES && SameWindow(root, ram, ram1) && n < TABLES
    ensures Reached(ram1, root, n) == Reached(ram, root, n)
  {
    hide Reached;
  }

  lemma {:induction false} NothingChanged(root: nat, ram: seq<Table>)
    requires |ram| == TABLES && root < TABLES
    ensures ChangesReached(root, ram, ram)
  {
  }

  lemma {:induction false} NextLevelChanges(m: Machine, st: Vm, n: nat, i: nat)
    requires Wf(m, st) && n < TABLES && i < 512 && NextLevel(m, st, n, i).Ok?
    ensures IsPresent(st.ram[n][i]) ==> NextLevel(m, st, n, i).value.0 == st
    ensures !IsPresent(st.ram[n][i]) ==> NewTable(m, st).Ok?
    ensures !IsPresent(st.ram[n][i]) ==>
              var (st1, next) := NewTable(m, st).value;
              NextLevel(m, st, n, i).value.0.ram == Write(st1.ram, n, i, Link(next, TABLE_FLAGS))
  {
    hide NewTable, Link, Reached;
  }

  /** A map call that returns and is handed no control table reads P4 and the P3 and P2 tables of its page, and
      changes tables, among those only that the window leads to before the call. */
  lemma {:induction false} MapReaches(m: Machine, p4: nat, st: Vm, tab: map<Node, nat>, blocks: seq<nat>,
      phys: u64, virt: u64, flags: u32)
    returns (tab1: map<Node, nat>, blocks1: seq<nat>)
    requires p4 < TABLES && m.root == p4 && Inv(m, p4, st, tab, blocks) && MapExact(m, p4, st, virt)
    requires MapPage(m, p4, st, phys, virt, flags).Ok?
    ensures var st1, page := MapPage(m, p4, st, phys, virt, flags).value, PageOf(virt);
            && Inv(m, p4, st1, tab1, blocks1) && P3(page.i4) in tab1 && P2(page.i4, page.i3) in tab1
            && ReachedNode(st.ram, p4, tab1, P4) && ReachedNode(st.ram, p4, tab1, P3(page.i4))
            && ReachedNode(st.ram, p4, tab1, P2(page.i4, page.i3))
            && ChangesReached(p4, st.ram, st1.ram)
  {
    PageOfAligned(virt);
    PageOfIs(virt);
    MapPageParts(m, p4, st, phys, virt, flags);
    hide PageOf, PageAlign, NextLevel, LevelExact, Leaf, Slot, Inv, ChangesReached, SameWindow, Reached, SameSlots;
    var page := PageOf(virt);
    InvParts(m, p4, st, tab, blocks);
    var (st1, n3) := NextLevel(m, st, p4, page.i4).value;
    var (st2, n2) := NextLevel(m, st1, n3, page.i3).value;
    var t3, b3 := NextLevelOk(m, p4, st, tab, blocks, P4, page.i4);
    var t2, b2 := NextLevelOk(m, p4, st1, t3, b3, P3(page.i4), page.i3);
    InvParts(m, p4, st1, t3, b3);
    InvParts(m, p4, st2, t2, b2);
    NextLevelReaches(m, p4, st, tab, blocks, P4, page.i4);
    NextLevelReaches(m, p4, st1, t3, b3, P3(page.i4), page.i3);
    WindowBySlots(p4, st.ram, tab, st1.ram, t3);
    WindowBySlots(p4, st1.ram, t3, st2.ram, t2);
    ReachedToo(p4, st.ram, st1.ram, n3);
    ReachedToo(p4, st.ram, st1.ram, n2);
    ReachedToo(p4, st1.ram, st2.ram, n2);
    ChangesJoin(p4, st.ram, st1.ram, st2.ram);
    LeafReached(m, p4, st, phys, virt, flags, page, n2, st2);
    WindowsJoin(p4, st.ram, st1.ram, st2.ram);
    var e := Leaf(PageAlign(phys), flags);
    WriteReached(p4, st2.ram, n2, page.i2, e);
    ChangesJoin(p4, st.ram, st2.ram, Write(st2.ram, n2, page.i2, e));
    LeafWritten(m, p4, st2, t2, b2, page, e);
    tab1, blocks1 := t2, b2;
  }

  predicate ReachedNode(ram: seq<Table>, root: nat, tab: map<Node, nat>, r: Node)
    requires |ram| == TABLES && root < TABLES
  {
    r in tab && tab[r] < TABLES && Reached(ram, root, tab[r])
  }

  lemma {:induction false} WindowsJoin(root: nat, ram: seq<Table>, ram1: seq<Table>, ram2: seq<Table>)
    requires |ram| == |ram1| == |ram2| == TABLES && root < TABLES
    requires SameWindow(root, ram, ram1) && SameWindow(root, ram1, ram2)
    ensures SameWindow(root, ram, ram2)
  {
    hide Reached;
  }

  lemma {:induction false} LeafReached(m: Machine, p4: nat, st: Vm, phys: u64, virt: u64, flags: u32, page: Page,
      n2: nat, st2: Vm)
    requires Wf(m, st) && p4 < TABLES && MapPage(m, p4, st, phys, virt, flags).Ok?
    requires InTables(page) && PageOf(PageAlign(virt)) == page && NextLevel(m, st, p4, page.i4).Ok?
    requires var (st1, n3) := NextLevel(m, st, p4, page.i4).value;
             NextLevel(m, st1, n3, page.i3) == Ok((st2, n2))
    ensures Wf(m, st2) && n2 < TABLES && Reached(st2.ram, m.root, n2)
  {
    hide PageOf, PageAlign, NextLevel, Leaf, Reached;
  }

  // No other caller's memory.

  /** Every table changed lies in a frame that holds tables. */
  ghost predicate ChangesHeld(tab: map<Node, nat>, blocks: seq<nat>, ram: seq<Table>, ram1: seq<Table>)
    requires |ram| == |ram1| == TABLES
  {
    forall n: nat | n < TABLES && ram1[n] != ram[n] :: HoldsTables(tab, blocks, n / 512)
  }

  /** What held tables still does. */
  ghost predicate HoldsOn(tab: map<Node, nat>, blocks: seq<nat>, tab1: map<Node, nat>, blocks1: seq<nat>) {
    (forall r | r in tab :: r in tab1 && tab1[r] == tab[r]) && forall f | f in blocks :: f in blocks1
  }

  lemma {:induction false} HeldJoin(tab: map<Node, nat>, blocks: seq<nat>, tab1: map<Node, nat>, blocks1: seq<nat>,
      ram: seq<Table>, ram1: seq<Table>, ram2: seq<Table>)
    requires |ram| == |ram1| == |ram2| == TABLES && HoldsOn(tab, blocks, tab1, blocks1)
    requires ChangesHeld(tab, blocks, ram, ram1) && ChangesHeld(tab1, blocks1, ram1, ram2)
    ensures ChangesHeld(tab1, blocks1, ram, ram2)
  {
    forall n: nat | n < TABLES && ram2[n] != ram[n]
      ensures HoldsTables(tab1, blocks1, n / 512)
    {
      if ram1[n] != ram[n] {
        assert HoldsTables(tab, blocks, n / 512);
      }
    }
  }

  lemma {:induction false} FirstBlockHeld(m: Machine, p4: nat, st: Vm, tab: map<Node, nat>, blocks: seq<nat>)
      returns (blocks1: seq<nat>)
    requires Inv(m, p4, st, tab, blocks) && Wf(m, st) && FirstBlock(m, st).Ok?
    ensures var st1 := FirstBlock(m, st).value;
            && Inv(m, p4, st1, tab, blocks1) && blocks1 != [] && HoldsOn(tab, blocks, tab, blocks1)
            && SameTree(tab, st.ram, st1.ram) && ChangesHeld(tab, blocks1, st.ram, st1.ram)
  {
    hide Inv, AllocBlock, SameTree;
    blocks1 := FirstBlockOk(m, p4, st, tab, blocks);
    CurIsLast(m, p4, st, tab, blocks);
    if blocks == [] {
      AllocBlockIs(m, st);
    }
  }

  lemma {:induction false} NextBlockHeld(m: Machine, p4: nat, st: Vm, tab: map<Node, nat>, blocks: seq<nat>)
      returns (blocks1: seq<nat>)
    requires Inv(m, p4, st, tab, blocks) && Wf(m, st) && blocks != [] && NextBlock(m, st).Ok?
    ensures var st1 := NextBlock(m, st).value;
            && Inv(m, p4, st1, tab, blocks1) && blocks1 != [] && HoldsOn(tab, blocks, tab, blocks1)
            && SameTree(tab, st.ram, st1.ram) && ChangesHeld(tab, blocks1, st.ram, st1.ram)
  {
    hide Inv, AllocBlock, SameTree, Reached, Control;
    blocks1 := NextBlockOk(m, p4, st, tab, blocks);
    CurrentControl(m, p4, st, tab, blocks);
    var last := blocks[|blocks| - 1];
    if st.ram[Ctl(last)][0] >= 511 {
      AllocBlockIs(m, st);
      var f := AllocBlock(m, st).value.1;
      assert last in blocks && f in blocks1 && Ctl(last) / 512 == last && Ctl(f) / 512 == f;
    }
  }

  lemma {:induction false} TakeHeld(m: Machine, p4: nat, st: Vm, tab: map<Node, nat>, blocks: seq<nat>)
    requires Inv(m, p4, st, tab, blocks) && Wf(m, st) && blocks != [] && Take(m, st).Ok?
    ensures ChangesHeld(tab, blocks, st.ram, Take(m, st).value.0.ram)
  {
    hide Inv, Reached, Control;
    CurrentControl(m, p4, st, tab, blocks);
    var last := blocks[|blocks| - 1];
    assert last in blocks && Ctl(last) / 512 == last;
  }

  lemma {:induction false} NewTableHeld(m: Machine, p4: nat, st: Vm, tab: map<Node, nat>, blocks: seq<nat>)
      returns (blocks1: seq<nat>)
    requires Inv(m, p4, st, tab, blocks) && Wf(m, st) && Room(m, st) && NewTable(m, st).Ok?
    ensures var (st1, n) := NewTable(m, st).value;
            && Inv(m, p4, st1, tab, blocks1) && Fresh(st1, tab, blocks1, n) && SameTree(tab, st.ram, st1.ram)
            && HoldsOn(tab, blocks, tab, blocks1) && ChangesHeld(tab, blocks1, st.ram, st1.ram)
  {
    hide Inv, FirstBlock, NextBlock, Take, Fresh, ChangesHeld, SameTree, HoldsOn;
    var st1 := FirstBlock(m, st).value;
    var st2 := NextBlock(m, st1).value;
    var st3 := NewTable(m, st).value.0;
    var b1 := FirstBlockHeld(m, p4, st, tab, blocks);
    blocks1 := NextBlockHeld(m, p4, st1, tab, b1);
    TakeHeld(m, p4, st2, tab, blocks1);
    RoomHolds(m, p4, st, tab, blocks, st1, b1, st2, blocks1);
    TakeReaches(m, st2);
    CurrentControl(m, p4, st2, tab, blocks1);
    TakeOk(m, p4, st2, tab, blocks1);
    HoldsSame(tab, blocks1);
    HeldJoin(tab, b1, tab, blocks1, st.ram, st1.ram, st2.ram);
    HeldJoin(tab, blocks1, tab, blocks1, st.ram, st2.ram, st3.ram);
    HoldsJoin(tab, blocks, b1, blocks1);
    TreesJoin(tab, st.ram, st1.ram, st2.ram);
    TreesJoin(tab, st.ram, st2.ram, st3.ram);
  }

  /** There is room in the block a table is taken from. */
  lemma {:induction false} RoomHolds(m: Machine, p4: nat, st: Vm, tab: map<Node, nat>, blocks: seq<nat>,
      st1: Vm, b1: seq<nat>, st2: Vm, b2: seq<nat>)
    requires Inv(m, p4, st, tab, blocks) && Room(m, st) && FirstBlock(m, st) == Ok(st1) && Wf(m, st1) && Wf(m, st2)
    requires Inv(m, p4, st1, tab, b1) && NextBlock(m, st1) == Ok(st2) && Inv(m, p4, st2, tab, b2) && b2 != []
    ensures st2.ram[Ctl(b2[|b2| - 1])][0] + m.step <= 511
  {
    hide Inv, FirstBlock, NextBlock;
    var b := ReadyBlock(m, p4, st, tab, blocks);
    CurrentControl(m, p4, st2, tab, b);
    CurrentControl(m, p4, st2, tab, b2);
  }

  lemma {:induction false} HoldsSame(tab: map<Node, nat>, blocks: seq<nat>)
    ensures HoldsOn(tab, blocks, tab, blocks)
  {
  }

  lemma {:induction false} HoldsJoin(tab: map<Node, nat>, blocks: seq<nat>, b1: seq<nat>, b2: seq<nat>)
    requires HoldsOn(tab, blocks, tab, b1) && HoldsOn(tab, b1, tab, b2)
    ensures HoldsOn(tab, blocks, tab, b2)
  {
  }

  lemma {:induction false} HoldsChain(tab: map<Node, nat>, blocks: seq<nat>, tab1: map<Node, nat>, blocks1: seq<nat>,
      tab2: map<Node, nat>, blocks2: seq<nat>)
    requires HoldsOn(tab, blocks, tab1, blocks1) && HoldsOn(tab1, blocks1, tab2, blocks2)
    ensures HoldsOn(tab, blocks, tab2, blocks2)
  {
  }

  lemma {:induction false} TreesJoin(tab: map<Node, nat>, ram: seq<Table>, ram1: seq<Table>, ram2: seq<Table>)
    requires SameTree(tab, ram, ram1) && SameTree(tab, ram1, ram2)
    ensures SameTree(tab, ram, ram2)
  {
  }

  lemma {:induction false} NextLevelHeld(m: Machine, p4: nat, st: Vm, tab: map<Node, nat>, blocks: seq<nat>,
      r: Node, i: nat)
    returns (tab1: map<Node, nat>, blocks1: seq<nat>)
    requires Inv(m, p4, st, tab, blocks) && Wf(m, st) && r in tab && tab[r] < TABLES
    requires !r.P2? && i < 512 && LevelExact(m, st, tab[r], i) && NextLevel(m, st, tab[r], i).Ok?
    ensures var (st1, n) := NextLevel(m, st, tab[r], i).value;
            && Inv(m, p4, st1, tab1, blocks1) && HoldsOn(tab, blocks, tab1, blocks1)
            && Child(r, i) in tab1 && tab1[Child(r, i)] == n && ChangesHeld(tab1, blocks1, st.ram, st1.ram)
  {
    hide Inv, NextLevel, NewTable, Room, ChangesHeld, Fresh, Reached, SameTree, Link;
    LevelPresent(m, p4, st, tab, blocks, r, i);
    NextLevelChanges(m, st, tab[r], i);
    NextLevelTable(m, st, tab[r], i);
    tab1, blocks1 := tab, blocks;
    if Child(r, i) in tab {
      NothingHeld(tab, blocks, st.ram);
    } else {
      var (st1, n) := NewTable(m, st).value;
      blocks1 := NewTableHeld(m, p4, st, tab, blocks);
      tab1 := tab[Child(r, i) := n];
      LinkTable(m, p4, st1, tab, blocks1, r, i, n);
      HeldBigger(tab, blocks1, tab1, st.ram, st1.ram);
      HoldsSame(tab1, blocks1);
      WriteHeld(tab1, blocks1, st1.ram, r, i, Link(n, TABLE_FLAGS));
      HeldJoin(tab1, blocks1, tab1, blocks1, st.ram, st1.ram, Write(st1.ram, tab[r], i, Link(n, TABLE_FLAGS)));
    }
  }

  lemma {:induction false} NextLevelTable(m: Machine, st: Vm, n: nat, i: nat)
    requires Wf(m, st) && n < TABLES && i < 512 && NextLevel(m, st, n, i).Ok?
    ensures !IsPresent(st.ram[n][i]) ==>
              && NewTable(m, st).Ok?
              && var (st1, next) := NewTable(m, st).value;
              NextLevel(m, st, n, i).value == (st1.(ram := Write(st1.ram, n, i, Link(next, TABLE_FLAGS))), next)
  {
    hide NewTable, Link, Reached;
  }

  lemma {:induction false} NothingHeld(tab: map<Node, nat>, blocks: seq<nat>, ram: seq<Table>)
    requires |ram| == TABLES
    ensures ChangesHeld(tab, blocks, ram, ram)
  {
  }

  lemma {:induction false} HeldBigger(tab: map<Node, nat>, blocks: seq<nat>, tab1: map<Node, nat>,
      ram: seq<Table>, ram1: seq<Table>)
    requires |ram| == |ram1| == TABLES && ChangesHeld(tab, blocks, ram, ram1)
    requires forall r | r in tab :: r in tab1 && tab1[r] == tab[r]
    ensures ChangesHeld(tab1, blocks, ram, ram1)
  {
    forall n: nat | n < TABLES && ram1[n] != ram[n]
      ensures HoldsTables(tab1, blocks, n / 512)
    {
      assert HoldsTables(tab, blocks, n / 512);
    }
  }

  lemma {:induction false} WriteHeld(tab: map<Node, nat>, blocks: seq<nat>, ram: seq<Table>, r: Node, i: nat, w: u64)
    requires |ram| == TABLES && r in tab && tab[r] < TABLES && i < 512
    ensures ChangesHeld(tab, blocks, ram, Write(ram, tab[r], i, w))
  {
  }

  /** A map call that returns and is handed no control table writes no frame but those that hold tables after it,
      and all that held tables before are among them. */
  lemma {:induction false} MapStaysWithin(m: Machine, p4: nat, st: Vm, tab: map<Node, nat>, blocks: seq<nat>,
      phys: u64, virt: u64, flags: u32)
    returns (tab1: map<Node, nat>, blocks1: seq<nat>)
    requires p4 < TABLES && Inv(m, p4, st, tab, blocks) && MapExact(m, p4, st, virt)
    requires MapPage(m, p4, st, phys, virt, flags).Ok?
    ensures var st1 := MapPage(m, p4, st, phys, virt, flags).value;
            && Inv(m, p4, st1, tab1, blocks1) && HoldsOn(tab, blocks, tab1, blocks1)
            && ChangesHeld(tab1, blocks1, st.ram, st1.ram)
  {
    PageOfAligned(virt);
    PageOfIs(virt);
    MapPageParts(m, p4, st, phys, virt, flags);
    hide PageOf, PageAlign, NextLevel, LevelExact, Leaf, Slot, Inv, ChangesHeld, SameSlots, MapPage, Tree, Held,
      Chain, Spare, HoldsOn;
    var page := PageOf(virt);
    InvParts(m, p4, st, tab, blocks);
    var (st1, n3) := NextLevel(m, st, p4, page.i4).value;
    var (st2, n2) := NextLevel(m, st1, n3, page.i3).value;
    var t3, b3 := NextLevelHeld(m, p4, st, tab, blocks, P4, page.i4);
    var t2, b2 := NextLevelHeld(m, p4, st1, t3, b3, P3(page.i4), page.i3);
    HeldJoin(t3, b3, t2, b2, st.ram, st1.ram, st2.ram);
    HoldsChain(tab, blocks, t3, b3, t2, b2);
    InvParts(m, p4, st2, t2, b2);
    var e := Leaf(PageAlign(phys), flags);
    HoldsSame(t2, b2);
    WriteHeld(t2, b2, st2.ram, P2(page.i4, page.i3), page.i2, e);
    HeldJoin(t2, b2, t2, b2, st.ram, st2.ram, Write(st2.ram, n2, page.i2, e));
    LeafWritten(m, p4, st2, t2, b2, page, e);
    tab1, blocks1 := t2, b2;
  }
}
