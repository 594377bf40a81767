/** The page-table mapper refines a flat map from pages to entries, over every run. */
module PageMap {
  import opened Words
  import opened Bitmap
  import opened FrameSearch
  import opened PageEntry
  import opened PageWalk
  import opened PageTree

  /** The entry the tree holds for a page; 0 where a table on the way is missing. */
  function Slot(ram: seq<Table>, tab: map<Node, nat>, k: Page): u64
    requires InTables(k)
  {
    var r := P2(k.i4, k.i3);
    if r in tab && tab[r] < |ram| then ram[tab[r]][k.i2] else 0
  }

  ghost predicate SameSlots(ram: seq<Table>, tab: map<Node, nat>, ram1: seq<Table>, tab1: map<Node, nat>) {
    forall k | InTables(k) :: Slot(ram1, tab1, k) == Slot(ram, tab, k)
  }

  /** The step of `virt_get_next_map_level` neither follows nor needs the control table. */
  predicate LevelExact(m: Machine, st: Vm, n: nat, i: nat)
    requires Wf(m, st) && n < TABLES && i < 512
  {
    IsPresent(st.ram[n][i]) || Room(m, st)
  }

  lemma {:induction false} LevelPresent(m: Machine, p4: nat, st: Vm, tab: map<Node, nat>, blocks: seq<nat>,
      r: Node, i: nat)
    requires Inv(m, p4, st, tab, blocks) && r in tab && !r.P2? && i < 512
    ensures IsPresent(st.ram[tab[r]][i]) <==> Child(r, i) in tab
    ensures Child(r, i) in tab && Reached(st.ram, m.root, tab[r])
            ==> NextLevel(m, st, tab[r], i) == Ok((st, tab[Child(r, i)]))
    ensures NextLevel(m, st, tab[r], i).Ok? ==> Reached(st.ram, m.root, tab[r])
  {
    hide Reached, NewTable;
    var c := Child(r, i);
    assert EntryOk(st.ram, tab, r, i);
    if c in tab {
      LinkRecovers(tab[c]);
    }
  }

  /** Linking a fresh table below entry `i` of node `r` adds one node to the tree. */
  lemma {:induction false} LinkTable(m: Machine, p4: nat, st: Vm, tab: map<Node, nat>, blocks: seq<nat>, r: Node,
      i: nat, n: nat)
    requires Inv(m, p4, st, tab, blocks) && Fresh(st, tab, blocks, n)
    requires r in tab && !r.P2? && i < 512 && Child(r, i) !in tab
    ensures Inv(m, p4, st.(ram := Write(st.ram, tab[r], i, Link(n, TABLE_FLAGS))), tab[Child(r, i) := n], blocks)
  {
    hide Inv, Tree, Held, Chain, Spare, Link;
    InvParts(m, p4, st, tab, blocks);
    var ram1 := Write(st.ram, tab[r], i, Link(n, TABLE_FLAGS));
    TreeLinked(st.ram, p4, tab, r, i, n);
    SpareLinked(st.ram, tab, blocks, r, i, n);
    HeldLinked(st.words, tab, blocks, Child(r, i), n);
    ChainKept(st.ram, ram1, st.cur, blocks);
    InvMade(m, p4, st.(ram := ram1), tab[Child(r, i) := n], blocks);
  }

  lemma {:induction false} HeldLinked(words: seq<Word>, tab: map<Node, nat>, blocks: seq<nat>, c: Node, n: nat)
    requires Held(words, tab, blocks) && n / 512 < 64 * |words| && Used(words, n / 512)
    ensures Held(words, tab[c := n], blocks)
  {
  }

  lemma {:induction false} TreeLinked(ram: seq<Table>, p4: nat, tab: map<Node, nat>, r: Node, i: nat, n: nat)
    requires Tree(ram, p4, tab) && SpareTable(ram, tab, n)
    requires r in tab && !r.P2? && i < 512 && Child(r, i) !in tab
    ensures Tree(Write(ram, tab[r], i, Link(n, TABLE_FLAGS)), p4, tab[Child(r, i) := n])
  {
    var c := Child(r, i);
    var tab1 := tab[c := n];
    var ram1 := Write(ram, tab[r], i, Link(n, TABLE_FLAGS));
    hide Link, IsPresent;
    forall s, j | s in tab1 && !s.P2? && 0 <= j < 512
      ensures EntryOk(ram1, tab1, s, j)
    {
      if s == c {
        assert Parent(Child(c, j)) == c;
        assert ram1[tab1[s]][j] == 0;
        ZeroIsAbsent();
      } else {
        assert EntryOk(ram, tab, s, j);
        assert Child(s, j) == c <==> s == r && j == i;
        assert s != r ==> tab[s] != tab[r];
      }
    }
    assert n !in tab.Values;
  }

  lemma {:induction false} ZeroIsAbsent()
    ensures !IsPresent(0)
  {
  }

  lemma {:induction false} SpareLinked(ram: seq<Table>, tab: map<Node, nat>, blocks: seq<nat>, r: Node, i: nat, n: nat)
    requires Spare(ram, tab, blocks) && blocks != [] && r in tab && i < 512 && tab[r] < TABLES && n < TABLES
    requires forall j | 0 <= j < |blocks| :: n != Ctl(blocks[j])
    requires n < 512 * blocks[|blocks| - 1] + ram[Ctl(blocks[|blocks| - 1])][0]
    requires !r.P2? && Child(r, i) !in tab
    ensures Spare(Write(ram, tab[r], i, Link(n, TABLE_FLAGS)), tab[Child(r, i) := n], blocks)
  {
    hide Link;
    var tab1 := tab[Child(r, i) := n];
    var ram1 := Write(ram, tab[r], i, Link(n, TABLE_FLAGS));
    assert tab[r] in tab.Values;
    assert forall v | v in tab1.Values :: v == n || v in tab.Values;
    var f := blocks[|blocks| - 1];
    forall k: nat | 512 * f + ram1[Ctl(f)][0] <= k < Ctl(f)
      ensures SpareTable(ram1, tab1, k)
    {
      assert SpareTable(ram, tab, k);
    }
  }

  /** One level of the descent: the invariant holds on, the table reached is the child's, and no
      page's entry changes even when the table is created. */
  lemma {:induction false} NextLevelOk(m: Machine, p4: nat, st: Vm, tab: map<Node, nat>, blocks: seq<nat>, r: Node,
      i: nat)
    returns (tab1: map<Node, nat>, blocks1: seq<nat>)
    requires Inv(m, p4, st, tab, blocks) && r in tab && !r.P2? && i < 512
    requires LevelExact(m, st, tab[r], i) && NextLevel(m, st, tab[r], i).Ok?
    ensures var (st1, n) := NextLevel(m, st, tab[r], i).value;
            && Inv(m, p4, st1, tab1, blocks1)
            && tab1 == (if Child(r, i) in tab then tab else tab[Child(r, i) := n])
            && tab1[Child(r, i)] == n
            && SameSlots(st.ram, tab, st1.ram, tab1)
  {
    tab1, blocks1 := tab, blocks;
    var c := Child(r, i);
    LevelPresent(m, p4, st, tab, blocks, r, i);
    if c !in tab {
      blocks1 := NewTableOk(m, p4, st, tab, blocks);
      var (st1, n) := NewTable(m, st).value;
      tab1 := tab[c := n];
      LinkTable(m, p4, st1, tab, blocks1, r, i, n);
      hide NewTable;
      SlotsLinked(st.ram, tab, p4, st1.ram, r, i, n);
    }
  }

  lemma {:induction false} SlotsLinked(ram: seq<Table>, tab: map<Node, nat>, p4: nat, ram1: seq<Table>, r: Node,
      i: nat, n: nat)
    requires Tree(ram, p4, tab) && SameTree(tab, ram, ram1)
    requires SpareTable(ram1, tab, n) && n < TABLES
    requires r in tab && !r.P2? && i < 512 && Child(r, i) !in tab
    ensures SameSlots(ram, tab, Write(ram1, tab[r], i, Link(n, TABLE_FLAGS)), tab[Child(r, i) := n])
  {
    hide Link;
    var c := Child(r, i);
    var tab2 := tab[c := n];
    var ram2 := Write(ram1, tab[r], i, Link(n, TABLE_FLAGS));
    assert tab[r] in tab.Values;
    forall k | InTables(k)
      ensures Slot(ram2, tab2, k) == Slot(ram, tab, k)
    {
      var s := P2(k.i4, k.i3);
      if s in tab {
        assert tab[s] != tab[r];
      }
    }
  }

  /** Both levels of `virt_map_page` stay clear of the control table. */
  predicate MapExact(m: Machine, p4: nat, st: Vm, virt: u64)
    requires Wf(m, st) && p4 < TABLES
  {
    PageOfIs(PageAlign(virt));
    var page := PageOf(PageAlign(virt));
    && LevelExact(m, st, p4, page.i4)
    && match NextLevel(m, st, p4, page.i4)
       case Halt => true
       case Ok((st1, n3)) => LevelExact(m, st1, n3, page.i3)
  }

  /** `virt_map_page` sets the entry of the named page and leaves every other page's as it was. */
  lemma {:induction false} MapPageOk(m: Machine, p4: nat, st: Vm, tab: map<Node, nat>, blocks: seq<nat>, phys: u64,
      virt: u64, flags: u32)
    returns (tab1: map<Node, nat>, blocks1: seq<nat>)
    requires Inv(m, p4, st, tab, blocks) && p4 < TABLES
    requires MapExact(m, p4, st, virt) && MapPage(m, p4, st, phys, virt, flags).Ok?
    ensures var st1 := MapPage(m, p4, st, phys, virt, flags).value;
            && Inv(m, p4, st1, tab1, blocks1)
            && tab1.Keys == tab.Keys + {P3(PageOf(virt).i4), P2(PageOf(virt).i4, PageOf(virt).i3)}
            && forall k | InTables(k) ::
                 Slot(st1.ram, tab1, k) == if k == PageOf(virt) then Leaf(phys, flags) else Slot(st.ram, tab, k)
  {
    PageOfAligned(virt);
    PageOfIs(virt);
    LeafOfAligned(phys, flags);
    MapPageParts(m, p4, st, phys, virt, flags);
    hide PageOf, PageAlign, NextLevel, LevelExact, Leaf, Slot, Inv, MapPage;
    var page := PageOf(virt);
    tab1, blocks1 := DescentOk(m, p4, st, tab, blocks, page);
    var (st1, n3) := NextLevel(m, st, p4, page.i4).value;
    var (st2, n2) := NextLevel(m, st1, n3, page.i3).value;
    LeafWritten(m, p4, st2, tab1, blocks1, page, Leaf(phys, flags));
  }

  /** Both levels of the descent, from P4 to the table of the page. */
  lemma {:induction false} DescentOk(m: Machine, p4: nat, st: Vm, tab: map<Node, nat>, blocks: seq<nat>, page: Page)
    returns (tab1: map<Node, nat>, blocks1: seq<nat>)
    requires Inv(m, p4, st, tab, blocks) && Wf(m, st) && p4 < TABLES && InTables(page)
    requires LevelExact(m, st, p4, page.i4) && NextLevel(m, st, p4, page.i4).Ok?
    requires var (st1, n3) := NextLevel(m, st, p4, page.i4).value;
             LevelExact(m, st1, n3, page.i3) && NextLevel(m, st1, n3, page.i3).Ok?
    ensures var (st1, n3) := NextLevel(m, st, p4, page.i4).value;
            var (st2, n2) := NextLevel(m, st1, n3, page.i3).value;
            && Inv(m, p4, st2, tab1, blocks1)
            && P2(page.i4, page.i3) in tab1 && tab1[P2(page.i4, page.i3)] == n2
            && tab1.Keys == tab.Keys + {P3(page.i4), P2(page.i4, page.i3)}
            && SameSlots(st.ram, tab, st2.ram, tab1)
  {
    hide NextLevel, LevelExact, Inv, Slot;
    InvParts(m, p4, st, tab, blocks);
    var t3, b3 := NextLevelOk(m, p4, st, tab, blocks, P4, page.i4);
    var (st1, n3) := NextLevel(m, st, p4, page.i4).value;
    tab1, blocks1 := NextLevelOk(m, p4, st1, t3, b3, P3(page.i4), page.i3);
    var (st2, n2) := NextLevel(m, st1, n3, page.i3).value;
    KeysAdded(tab, t3, P3(page.i4), n3);
    KeysAdded(t3, tab1, P2(page.i4, page.i3), n2);
  }

  lemma {:induction false} KeysAdded(tab: map<Node, nat>, tab1: map<Node, nat>, c: Node, n: nat)
    requires tab1 == if c in tab then tab else tab[c := n]
    ensures tab1.Keys == tab.Keys + {c} && c in tab1
  {
  }

  /** The two levels of the descent and the leaf of a map call that returns. */
  lemma {:induction false} MapPageParts(m: Machine, p4: nat, st: Vm, phys: u64, virt: u64, flags: u32)
    requires Wf(m, st) && p4 < TABLES && MapPage(m, p4, st, phys, virt, flags).Ok?
    ensures var page := PageOf(PageAlign(virt));
            && InTables(page) && NextLevel(m, st, p4, page.i4).Ok?
            && var (st1, n3) := NextLevel(m, st, p4, page.i4).value;
            && NextLevel(m, st1, n3, page.i3).Ok?
            && var (st2, n2) := NextLevel(m, st1, n3, page.i3).value;
            MapPage(m, p4, st, phys, virt, flags)
            == Ok(st2.(ram := Write(st2.ram, n2, page.i2, Leaf(PageAlign(phys), flags))))
  {
    PageOfIs(PageAlign(virt));
    hide PageOf, PageAlign, NextLevel, Leaf;
  }

  lemma {:induction false} PresentLevel(m: Machine, st: Vm, n: nat, i: nat, next: nat)
    requires Wf(m, st) && n < TABLES && i < 512 && next < TABLES && Reached(st.ram, m.root, n)
    requires st.ram[n][i] == Link(next, TABLE_FLAGS)
    ensures NextLevel(m, st, n, i) == Ok((st, next))
  {
    hide Reached, NewTable, Link;
    LinkRecovers(next);
  }

  /** A map call made of its parts. */
  lemma {:induction false} MapPageIs(m: Machine, p4: nat, st: Vm, phys: u64, virt: u64, flags: u32,
                                     st1: Vm, n3: nat, st2: Vm, n2: nat)
    requires Wf(m, st) && Wf(m, st1) && Wf(m, st2) && p4 < TABLES && n3 < TABLES && n2 < TABLES
    requires InTables(PageOf(PageAlign(virt)))
    requires NextLevel(m, st, p4, PageOf(PageAlign(virt)).i4) == Ok((st1, n3))
    requires NextLevel(m, st1, n3, PageOf(PageAlign(virt)).i3) == Ok((st2, n2))
    requires Reached(st2.ram, m.root, n2)
    ensures MapPage(m, p4, st, phys, virt, flags)
            == Ok(st2.(ram := Write(st2.ram, n2, PageOf(PageAlign(virt)).i2, Leaf(PageAlign(phys), flags))))
  {
    hide NextLevel, PageOf, PageAlign, Leaf, Reached;
  }

  lemma {:induction false} LeafOfAligned(phys: u64, flags: u32)
    ensures Leaf(PageAlign(phys), flags) == Leaf(phys, flags)
  {
    hide PageAlign, Or64;
    PageAlignIs(phys);
    PageAlignIs(phys - phys % 0x20_0000);
  }

  lemma {:induction false} LeafWritten(m: Machine, p4: nat, st: Vm, tab: map<Node, nat>, blocks: seq<nat>,
      page: Page, e: u64)
    requires Inv(m, p4, st, tab, blocks) && InTables(page) && P2(page.i4, page.i3) in tab
    ensures var st1 := st.(ram := Write(st.ram, tab[P2(page.i4, page.i3)], page.i2, e));
            && Inv(m, p4, st1, tab, blocks)
            && forall k | InTables(k) :: Slot(st1.ram, tab, k) == if k == page then e else Slot(st.ram, tab, k)
  {
    hide Inv, Tree, Held, Chain, Spare;
    var r := P2(page.i4, page.i3);
    InvParts(m, p4, st, tab, blocks);
    var ram1 := Write(st.ram, tab[r], page.i2, e);
    LeafKeepsTree(st.ram, p4, tab, page, e);
    SpareKept(st.ram, ram1, tab, blocks);
    ChainKept(st.ram, ram1, st.cur, blocks);
    InvMade(m, p4, st.(ram := ram1), tab, blocks);
  }

  /** A leaf is no entry of a P4 or P3 table, and no other page's entry. */
  lemma {:induction false} LeafKeepsTree(ram: seq<Table>, p4: nat, tab: map<Node, nat>, page: Page, e: u64)
    requires Tree(ram, p4, tab) && InTables(page) && P2(page.i4, page.i3) in tab
    ensures var ram1 := Write(ram, tab[P2(page.i4, page.i3)], page.i2, e);
            && Tree(ram1, p4, tab)
            && forall k | InTables(k) :: Slot(ram1, tab, k) == if k == page then e else Slot(ram, tab, k)
  {
    var r := P2(page.i4, page.i3);
    var ram1 := Write(ram, tab[r], page.i2, e);
    hide Link, IsPresent;
    forall s, j | s in tab && !s.P2? && 0 <= j < 512
      ensures EntryOk(ram1, tab, s, j)
    {
      assert EntryOk(ram, tab, s, j);
      assert tab[s] != tab[r];
    }
    forall k | InTables(k)
      ensures Slot(ram1, tab, k) == if k == page then e else Slot(ram, tab, k)
    {
      var s := P2(k.i4, k.i3);
      if s in tab && s != r {
        assert tab[s] != tab[r];
      }
    }
  }

  lemma {:induction false} SpareKept(ram: seq<Table>, ram1: seq<Table>, tab: map<Node, nat>, blocks: seq<nat>)
    requires Spare(ram, tab, blocks) && |ram1| == TABLES
    requires forall n: nat | n < TABLES && n !in tab.Values :: ram1[n] == ram[n]
    ensures Spare(ram1, tab, blocks)
  {
    if blocks != [] {
      var f := blocks[|blocks| - 1];
      forall k: nat | 512 * f + ram1[Ctl(f)][0] <= k < Ctl(f)
        ensures SpareTable(ram1, tab, k)
      {
        assert SpareTable(ram, tab, k);
      }
    }
  }
}
