/** How many tables a run may create before a block's control table is handed out. */
module PageBudget {
  import opened Words
  import opened Bitmap
  import opened PageEntry
  import opened PageWalk
  import opened PageTree
  import opened PageMap
  import opened PageRuns

  /** The current block's `idx`. */
  function Taken(m: Machine, st: Vm): nat
    requires Wf(m, st)
  {
    match Control(st.cur)
    case None => 0
    case Some(ctl) => st.ram[ctl][0]
  }

  lemma {:induction false} NoBlockTaken(m: Machine, st: Vm)
    requires Wf(m, st) && st.cur == 0
    ensures Taken(m, st) == 0
  {
  }

  lemma {:induction false} CurrentTaken(m: Machine, p4: nat, st: Vm, tab: map<Node, nat>, blocks: seq<nat>)
    requires Inv(m, p4, st, tab, blocks) && blocks != []
    ensures Ctl(blocks[|blocks| - 1]) < TABLES && Taken(m, st) == st.ram[Ctl(blocks[|blocks| - 1])][0]
  {
    CurrentControl(m, p4, st, tab, blocks);
  }

  lemma {:induction false} CurIsLast(m: Machine, p4: nat, st: Vm, tab: map<Node, nat>, blocks: seq<nat>)
    requires Inv(m, p4, st, tab, blocks)
    ensures st.cur != 0 <==> blocks != []
  {
    if blocks != [] {
      CurrentControl(m, p4, st, tab, blocks);
    }
  }

  /** A build that increments once per call always has room. */
  lemma {:induction false} SingleStepHasRoom(m: Machine, p4: nat, st: Vm, tab: map<Node, nat>, blocks: seq<nat>)
    requires Inv(m, p4, st, tab, blocks) && m.step == 1
    ensures Room(m, st)
  {
    if blocks != [] {
      CurrentControl(m, p4, st, tab, blocks);
    }
  }

  lemma {:induction false} NewTableTaken(m: Machine, p4: nat, st: Vm, tab: map<Node, nat>, blocks: seq<nat>)
    requires Inv(m, p4, st, tab, blocks) && Taken(m, st) + m.step <= 511 && Taken(m, st) < 511
    requires NewTable(m, st).Ok?
    ensures Room(m, st) && Taken(m, NewTable(m, st).value.0) == Taken(m, st) + m.step
  {
    hide Reached, NextBlock, Tree, Held, Chain;
    if blocks != [] {
      CurrentControl(m, p4, st, tab, blocks);
    }
    var b1 := FirstBlockOk(m, p4, st, tab, blocks);
    var st1 := FirstBlock(m, st).value;
    CurIsLast(m, p4, st, tab, blocks);
    if blocks == [] {
      NoBlockTaken(m, st);
    }
    CurrentTaken(m, p4, st1, tab, b1);
    assert Taken(m, st1) == Taken(m, st);
    var b2 := NextBlockOk(m, p4, st1, tab, b1);
    CurrentControl(m, p4, st1, tab, b1);
    TakeReaches(m, st1);
    TakeOk(m, p4, st1, tab, b1);
    CurrentTaken(m, p4, Take(m, st1).value.0, tab, b1);
  }

  lemma {:induction false} LevelTaken(m: Machine, p4: nat, st: Vm, tab: map<Node, nat>, blocks: seq<nat>, r: Node,
      i: nat)
    requires Inv(m, p4, st, tab, blocks) && r in tab && !r.P2? && i < 512
    requires Taken(m, st) < 511 && (Child(r, i) in tab || Taken(m, st) + m.step <= 511)
    ensures LevelExact(m, st, tab[r], i)
    ensures NextLevel(m, st, tab[r], i).Ok? ==>
              Taken(m, NextLevel(m, st, tab[r], i).value.0)
              == if Child(r, i) in tab then Taken(m, st) else Taken(m, st) + m.step
  {
    hide Reached;
    LevelPresent(m, p4, st, tab, blocks, r, i);
    if Child(r, i) !in tab {
      HasRoom(m, st);
      if NextLevel(m, st, tab[r], i).Ok? {
        NewTableTaken(m, p4, st, tab, blocks);
        var b1 := NewTableOk(m, p4, st, tab, blocks);
        var (st1, n) := NewTable(m, st).value;
        CurrentControl(m, p4, st1, tab, b1);
        assert tab[r] in tab.Values;
      }
    }
  }

  lemma {:induction false} HasRoom(m: Machine, st: Vm)
    requires Wf(m, st) && Taken(m, st) + m.step <= 511
    ensures Room(m, st)
  {
  }

  lemma {:induction false} LeafTaken(m: Machine, p4: nat, st: Vm, tab: map<Node, nat>, blocks: seq<nat>, r: Node,
      i: nat, e: u64)
    requires Inv(m, p4, st, tab, blocks) && r in tab && i < 512
    ensures Taken(m, st.(ram := Write(st.ram, tab[r], i, e))) == Taken(m, st)
  {
    if blocks != [] {
      CurrentControl(m, p4, st, tab, blocks);
      assert tab[r] in tab.Values;
    }
  }

  /** The increments one map call makes: `step` for each table it creates. */
  function Fee(m: Machine, tab: map<Node, nat>, page: Page): nat {
    (if P3(page.i4) in tab then 0 else m.step) + (if P2(page.i4, page.i3) in tab then 0 else m.step)
  }

  /** A map call is exact while its increments are left, and makes just those. */
  lemma {:induction false} MapTaken(m: Machine, p4: nat, st: Vm, tab: map<Node, nat>, blocks: seq<nat>, phys: u64,
      virt: u64, flags: u32)
    requires p4 < TABLES && Inv(m, p4, st, tab, blocks)
    requires Taken(m, st) < 511 && Taken(m, st) + Fee(m, tab, PageOf(virt)) <= 511
    ensures MapExact(m, p4, st, virt)
    ensures MapPage(m, p4, st, phys, virt, flags).Ok? ==>
              Taken(m, MapPage(m, p4, st, phys, virt, flags).value) == Taken(m, st) + Fee(m, tab, PageOf(virt))
  {
    hide PageOf, PageAlign, NextLevel, Room, Inv, Taken, Leaf, Tree, Held, Chain, Spare;
    InvParts(m, p4, st, tab, blocks);
    PageOfAligned(virt);
    PageOfIs(virt);
    var page := PageOf(virt);
    ParentIn(st.ram, p4, tab, page);
    LevelTaken(m, p4, st, tab, blocks, P4, page.i4);
    if NextLevel(m, st, p4, page.i4).Ok? {
      var (st1, n3) := NextLevel(m, st, p4, page.i4).value;
      var t3, b3 := NextLevelOk(m, p4, st, tab, blocks, P4, page.i4);
      LevelTaken(m, p4, st1, t3, b3, P3(page.i4), page.i3);
      if MapPage(m, p4, st, phys, virt, flags).Ok? {
        MapPageParts(m, p4, st, phys, virt, flags);
        var (st2, n2) := NextLevel(m, st1, n3, page.i3).value;
        var t2, b2 := NextLevelOk(m, p4, st1, t3, b3, P3(page.i4), page.i3);
        LeafTaken(m, p4, st2, t2, b2, P2(page.i4, page.i3), page.i2, Leaf(PageAlign(phys), flags));
      }
    }
  }

  lemma {:induction false} ParentIn(ram: seq<Table>, p4: nat, tab: map<Node, nat>, page: Page)
    requires Tree(ram, p4, tab)
    ensures P2(page.i4, page.i3) in tab ==> P3(page.i4) in tab
  {
    assert Parent(P2(page.i4, page.i3)) == P3(page.i4);
  }

  /** As written, a map call that returns is exact only while its increments are left. */
  lemma {:induction false} MapExactOnly(m: Machine, p4: nat, st: Vm, tab: map<Node, nat>, blocks: seq<nat>,
      phys: u64, virt: u64, flags: u32)
    requires p4 < TABLES && Inv(m, p4, st, tab, blocks) && m.step == 2 && Taken(m, st) <= 510 && Taken(m, st) % 2 == 0
    requires MapExact(m, p4, st, virt) && MapPage(m, p4, st, phys, virt, flags).Ok?
    ensures Taken(m, st) + Fee(m, tab, PageOf(virt)) <= 511
  {
    hide PageOf, PageAlign, NextLevel, Inv, Taken, MapPage, LevelExact, Leaf, Tree, Held, Chain, Spare;
    InvParts(m, p4, st, tab, blocks);
    PageOfAligned(virt);
    PageOfIs(virt);
    MapPageParts(m, p4, st, phys, virt, flags);
    var page := PageOf(virt);
    ParentIn(st.ram, p4, tab, page);
    var (st1, n3) := NextLevel(m, st, p4, page.i4).value;
    LevelExactOnly(m, p4, st, tab, blocks, P4, page.i4);
    LevelTaken(m, p4, st, tab, blocks, P4, page.i4);
    var t3, b3 := NextLevelOk(m, p4, st, tab, blocks, P4, page.i4);
    LevelExactOnly(m, p4, st1, t3, b3, P3(page.i4), page.i3);
  }

  lemma {:induction false} LevelExactOnly(m: Machine, p4: nat, st: Vm, tab: map<Node, nat>, blocks: seq<nat>,
      r: Node, i: nat)
    requires Inv(m, p4, st, tab, blocks) && r in tab && !r.P2? && i < 512
    requires m.step == 2 && Taken(m, st) <= 510 && LevelExact(m, st, tab[r], i)
    ensures Child(r, i) in tab || Taken(m, st) + m.step <= 511
  {
    LevelPresent(m, p4, st, tab, blocks, r, i);
    if blocks == [] {
      NoBlockTaken(m, st);
    } else {
      CurrentControl(m, p4, st, tab, blocks);
    }
  }

  lemma {:induction false} SingleStepMapExact(m: Machine, p4: nat, st: Vm, tab: map<Node, nat>, blocks: seq<nat>,
      virt: u64)
    requires p4 < TABLES && Inv(m, p4, st, tab, blocks) && m.step == 1
    ensures MapExact(m, p4, st, virt)
  {
    PageOfAligned(virt);
    PageOfIs(virt);
    var page := PageOf(virt);
    hide PageOf, PageAlign, NextLevel, Room;
    SingleStepHasRoom(m, p4, st, tab, blocks);
    if NextLevel(m, st, p4, page.i4).Ok? {
      var (st1, n3) := NextLevel(m, st, p4, page.i4).value;
      var t3, b3 := NextLevelOk(m, p4, st, tab, blocks, P4, page.i4);
      SingleStepHasRoom(m, p4, st1, t3, b3);
    }
  }

  /** A build with one increment per call hands out no control table in any run. */
  lemma {:induction false} SingleStepRunsAreExact(m: Machine, p4: nat, st: Vm, tab: map<Node, nat>,
      blocks: seq<nat>, ops: seq<Op>)
    requires p4 < TABLES && Inv(m, p4, st, tab, blocks) && m.step == 1
    requires RunSpares(m, p4, st, ops)
    ensures RunExact(m, p4, st, ops)
    decreases |ops|
  {
    if ops == [] {
    } else {
      var front, op := ops[..|ops| - 1], ops[|ops| - 1];
      SingleStepRunsAreExact(m, p4, st, tab, blocks, front);
      if Run(m, p4, st, front).Ok? {
        var t, b := RunRefinesFlat(m, p4, st, tab, blocks, front);
        var st1 := Run(m, p4, st, front).value;
        match op {
          case Map(_, virt, _) => SingleStepMapExact(m, p4, st1, t, b, virt);
          case Unmap(virt) => SingleStepMapExact(m, p4, st1, t, b, virt);
          case Reserve(_) =>
          case Release(_, _) =>
        }
      }
    }
  }

  // The tables a run creates.

  /** Those the tree does not have yet. */
  function Missing(tab: map<Node, nat>, ops: seq<Op>): set<Node> {
    Needed(ops) - tab.Keys
  }

  lemma {:induction false} OneMore(had: set<Node>, front: set<Node>, x: Node)
    ensures |front + {x} - had| == |front - had| + if x in had + front then 0 else 1
  {
    if x in had + front {
      assert front + {x} - had == front - had;
    } else {
      assert front + {x} - had == (front - had) + {x};
    }
  }

  lemma {:induction false} MissingGrows(m: Machine, had: set<Node>, front: set<Node>, t: map<Node, nat>, page: Page)
    requires t.Keys == had + front && m.step == 2
    ensures 2 * |front + OnTheWay(page) - had| == 2 * |front - had| + Fee(m, t, page)
  {
    var a, b := P3(page.i4), P2(page.i4, page.i3);
    hide OnTheWay;
    OneMore(had, front, a);
    OneMore(had, front + {a}, b);
    BothAdded(front, page);
    InKeys(t, had + front, a);
    InKeys(t, had + front, b);
  }

  lemma {:induction false} BothAdded(front: set<Node>, page: Page)
    ensures front + {P3(page.i4)} + {P2(page.i4, page.i3)} == front + OnTheWay(page)
  {
  }

  lemma {:induction false} InKeys(t: map<Node, nat>, keys: set<Node>, x: Node)
    requires t.Keys == keys
    ensures x in t <==> x in keys
  {
  }

  /** An exact run as written: the tree has gained the tables it needed and lacked, two increments each. */
  lemma {:induction false} RunTakes(m: Machine, p4: nat, st: Vm, tab: map<Node, nat>, ops: seq<Op>)
    returns (tab1: map<Node, nat>, blocks1: seq<nat>)
    requires p4 < TABLES && Inv(m, p4, st, tab, []) && m.step == 2
    requires RunExact(m, p4, st, ops) && RunSpares(m, p4, st, ops) && Run(m, p4, st, ops).Ok?
    ensures Inv(m, p4, Run(m, p4, st, ops).value, tab1, blocks1)
    ensures tab1.Keys == tab.Keys + Needed(ops)
    ensures Taken(m, Run(m, p4, st, ops).value) == 2 * |Missing(tab, ops)| <= 510
    decreases |ops|
  {
    if ops == [] {
      tab1, blocks1 := tab, [];
      NoBlockTaken(m, st);
    } else {
      hide Inv, Taken, Step, StepExact, StepSpares, NeededBy;
      var front, op := ops[..|ops| - 1], ops[|ops| - 1];
      var t, b := RunTakes(m, p4, st, tab, front);
      tab1, blocks1 := StepTakes(m, p4, Run(m, p4, st, front).value, tab.Keys, Needed(front), t, b, op,
        Run(m, p4, st, ops).value);
    }
  }

  lemma {:induction false} StepTakes(m: Machine, p4: nat, st: Vm, had: set<Node>, front: set<Node>, t: map<Node, nat>,
                                     b: seq<nat>, op: Op, st1: Vm)
    returns (tab1: map<Node, nat>, blocks1: seq<nat>)
    requires Wf(m, st) && Wf(m, st1) && p4 < TABLES && m.step == 2
    requires StepExact(m, p4, st, op) && StepSpares(m, p4, st, op) && Step(m, p4, st, op) == Ok(st1)
    requires t.Keys == had + front && Taken(m, st) == 2 * |front - had| <= 510
    requires Inv(m, p4, st, t, b)
    ensures Inv(m, p4, st1, tab1, blocks1)
    ensures tab1.Keys == had + (front + NeededBy(op))
    ensures Taken(m, st1) == 2 * |front + NeededBy(op) - had| <= 510
  {
    hide Inv, MapPage, MapExact, PageOf, OnTheWay;
    match op {
      case Map(phys, virt, flags) =>
        tab1, blocks1 := MapTakes(m, p4, st, had, front, t, b, phys, virt, flags, st1);
      case Unmap(virt) =>
        tab1, blocks1 := MapTakes(m, p4, st, had, front, t, b, 0, virt, 0, st1);
      case Reserve(size) =>
        ReserveOk(m, p4, st, t, b, size);
        tab1, blocks1 := t, b;
        assert front + {} == front;
      case Release(_, _) =>
        tab1, blocks1 := StepOk(m, p4, st, t, b, op);
        assert front + {} == front;
    }
  }

  lemma {:induction false} MapTakes(m: Machine, p4: nat, st: Vm, had: set<Node>, front: set<Node>,
                                    t: map<Node, nat>, b: seq<nat>, phys: u64, virt: u64, flags: u32, st1: Vm)
    returns (tab1: map<Node, nat>, blocks1: seq<nat>)
    requires Wf(m, st) && Wf(m, st1) && p4 < TABLES && m.step == 2
    requires MapExact(m, p4, st, virt) && MapPage(m, p4, st, phys, virt, flags) == Ok(st1)
    requires t.Keys == had + front && Taken(m, st) == 2 * |front - had| <= 510
    requires Inv(m, p4, st, t, b)
    ensures Inv(m, p4, st1, tab1, blocks1)
    ensures tab1.Keys == had + (front + OnTheWay(PageOf(virt)))
    ensures Taken(m, st1) == 2 * |front + OnTheWay(PageOf(virt)) - had| <= 510
  {
    hide Inv, MapPage, MapExact, PageOf, Taken, OnTheWay, Fee;
    tab1, blocks1 := MapPays(m, p4, st, t, b, phys, virt, flags, st1);
    KeysRegrouped(had, front, OnTheWay(PageOf(virt)));
    MissingGrows(m, had, front, t, PageOf(virt));
  }

  lemma {:induction false} MapPays(m: Machine, p4: nat, st: Vm, t: map<Node, nat>, b: seq<nat>,
                                   phys: u64, virt: u64, flags: u32, st1: Vm)
    returns (tab1: map<Node, nat>, blocks1: seq<nat>)
    requires Wf(m, st) && Wf(m, st1) && p4 < TABLES && m.step == 2
    requires MapExact(m, p4, st, virt) && MapPage(m, p4, st, phys, virt, flags) == Ok(st1)
    requires Taken(m, st) <= 510 && Taken(m, st) % 2 == 0
    requires Inv(m, p4, st, t, b)
    ensures Inv(m, p4, st1, tab1, blocks1)
    ensures tab1.Keys == t.Keys + OnTheWay(PageOf(virt))
    ensures Taken(m, st1) == Taken(m, st) + Fee(m, t, PageOf(virt)) <= 511
  {
    hide Inv, MapPage, MapExact, PageOf, Taken, Fee, Slot;
    MapExactOnly(m, p4, st, t, b, phys, virt, flags);
    MapTaken(m, p4, st, t, b, phys, virt, flags);
    tab1, blocks1 := MapPageOk(m, p4, st, t, b, phys, virt, flags);
  }

  lemma {:induction false} KeysRegrouped(had: set<Node>, front: set<Node>, way: set<Node>)
    ensures had + front + way == had + (front + way)
  {
  }

  lemma {:induction false} MissingOfFront(tab: map<Node, nat>, ops: seq<Op>)
    requires ops != []
    ensures |Missing(tab, ops[..|ops| - 1])| <= |Missing(tab, ops)|
  {
    var a, b := Missing(tab, ops[..|ops| - 1]), Missing(tab, ops);
    assert a <= b;
    assert b == a + (b - a);
  }

  /** As written, a run that returns needs at most 255 missing tables only to be exact. */
  lemma {:induction false} WithinBudgetIsExact(m: Machine, p4: nat, st: Vm, tab: map<Node, nat>, ops: seq<Op>)
    requires p4 < TABLES && Inv(m, p4, st, tab, []) && m.step == 2
    requires RunSpares(m, p4, st, ops) && Run(m, p4, st, ops).Ok? && |Missing(tab, ops)| <= 255
    ensures RunExact(m, p4, st, ops)
    decreases |ops|
  {
    if ops == [] {
    } else {
      hide Inv, Taken, MapPage, MapExact, PageOf, OnTheWay;
      var front, op := ops[..|ops| - 1], ops[|ops| - 1];
      MissingOfFront(tab, ops);
      WithinBudgetIsExact(m, p4, st, tab, front);
      var t, b := RunTakes(m, p4, st, tab, front);
      var st1 := Run(m, p4, st, front).value;
      match op {
        case Map(phys, virt, flags) => FeeWithin(m, p4, st1, tab.Keys, Needed(front), t, b, phys, virt, flags);
        case Unmap(virt) => FeeWithin(m, p4, st1, tab.Keys, Needed(front), t, b, 0, virt, 0);
        case Reserve(_) =>
        case Release(_, _) =>
      }
    }
  }

  lemma {:induction false} FeeWithin(m: Machine, p4: nat, st: Vm, had: set<Node>, front: set<Node>, t: map<Node, nat>,
                                     b: seq<nat>, phys: u64, virt: u64, flags: u32)
    requires Wf(m, st) && p4 < TABLES && m.step == 2
    requires t.Keys == had + front && Taken(m, st) == 2 * |front - had| <= 510
    requires |front + OnTheWay(PageOf(virt)) - had| <= 255
    requires Inv(m, p4, st, t, b)
    ensures MapExact(m, p4, st, virt)
  {
    hide Inv, MapPage, MapExact, PageOf, Taken, OnTheWay, Fee;
    MissingGrows(m, had, front, t, PageOf(virt));
    MapTaken(m, p4, st, t, b, phys, virt, flags);
  }

  /** As written, a run that returns is handed no block's control words exactly when the pages it names
      need at most 255 tables that the tree does not have. */
  lemma {:induction false} ExactIsWithinBudget(m: Machine, p4: nat, st: Vm, tab: map<Node, nat>, ops: seq<Op>)
    requires p4 < TABLES && Inv(m, p4, st, tab, []) && m.step == 2
    requires RunSpares(m, p4, st, ops) && Run(m, p4, st, ops).Ok?
    ensures RunExact(m, p4, st, ops) <==> |Missing(tab, ops)| <= 255
  {
    InvParts(m, p4, st, tab, []);
    hide Inv, Run, RunExact, Missing;
    if RunExact(m, p4, st, ops) {
      var t, b := RunTakes(m, p4, st, tab, ops);
    } else if |Missing(tab, ops)| <= 255 {
      WithinBudgetIsExact(m, p4, st, tab, ops);
    }
  }

  /** From the boot tables: a kernel that increments once per call, or one as written on a run whose
      pages need at most 255 further tables. After every such run that returns the processor translates
      every page as the flat map says. */
  lemma {:induction false} BootRunsTranslate(m: Machine, st: Vm, p4: nat, p3: nat, p2: nat, ops: seq<Op>, k: Page)
    requires Boot(m, st, p4, p3, p2) && InTables(k)
    requires m.step == 1 || |Missing(BootTree(p4, p3, p2), ops)| <= 255
    requires RunSpares(m, p4, st, ops) && Run(m, p4, st, ops).Ok?
    ensures Translate(Run(m, p4, st, ops).value.ram, p4, k)
            == Decode(Flat(Slot(st.ram, BootTree(p4, p3, p2), k), ops, k))
  {
    hide Translate, Decode, Slot, Inv, Missing;
    BootInv(m, st, p4, p3, p2);
    if m.step == 1 {
      SingleStepRunsAreExact(m, p4, st, BootTree(p4, p3, p2), [], ops);
    } else {
      WithinBudgetIsExact(m, p4, st, BootTree(p4, p3, p2), ops);
    }
    RunTranslates(m, st, p4, p3, p2, ops, k);
  }
}
