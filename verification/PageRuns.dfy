/** Runs of `virt_map_page` and `virt_unmap_page` from the boot tables. */
module PageRuns {
  import opened Words
  import opened Bitmap
  import opened FrameSearch
  import opened PageEntry
  import opened PageWalk
  import opened PageTree
  import opened PageMap
  import FrameLedger

  /** In a well-formed tree the walk ends in the page's own entry; it never meets a 1 GiB page. */
  lemma {:induction false} TranslateIsSlot(ram: seq<Table>, p4: nat, tab: map<Node, nat>, k: Page)
    requires Tree(ram, p4, tab) && InTables(k)
    ensures Translate(ram, p4, k) == Decode(Slot(ram, tab, k))
  {
    hide LeafFrame, Link, WalkedTable, IsLarge, IsPresent;
    ZeroIsAbsent();
    assert EntryOk(ram, tab, P4, k.i4);
    var r3, r2 := P3(k.i4), P2(k.i4, k.i3);
    if r3 in tab {
      LinkRecovers(tab[r3]);
      assert EntryOk(ram, tab, r3, k.i3);
      if r2 in tab {
        LinkRecovers(tab[r2]);
      }
    } else {
      assert r2 in tab ==> Parent(r2) in tab;
    }
  }

  /** The window leads to a table exactly when the tree's entry for its window page says so. */
  lemma {:induction false} ReachedIsSlot(ram: seq<Table>, root: nat, tab: map<Node, nat>, n: nat)
    requires Tree(ram, root, tab) && root < TABLES && n < TABLES
    ensures Reached(ram, root, n) == Shows(Decode(Slot(ram, tab, WindowPage(n))), n / 512)
  {
    hide Tree, Translate, Slot, Decode;
    TranslateIsSlot(ram, root, tab, WindowPage(n));
  }

  /** The whole window is in place: each of its pages is the 2 MiB page of its own frame. */
  ghost predicate Window(ram: seq<Table>, tab: map<Node, nat>) {
    forall i: nat | i < 512 :: Shows(Decode(Slot(ram, tab, Page(511, 510, i))), i)
  }

  lemma {:induction false} WindowReaches(ram: seq<Table>, root: nat, tab: map<Node, nat>)
    requires Tree(ram, root, tab) && root < TABLES && |ram| == TABLES && Window(ram, tab)
    ensures forall n: nat | n < TABLES :: Reached(ram, root, n)
  {
    hide Tree, Slot, Decode, Shows, Reached;
    forall n: nat | n < TABLES
      ensures Reached(ram, root, n)
    {
      ReachedIsSlot(ram, root, tab, n);
      WindowEntry(ram, tab, n / 512);
    }
  }

  lemma {:induction false} WindowEntry(ram: seq<Table>, tab: map<Node, nat>, i: nat)
    requires Window(ram, tab) && i < 512
    ensures Shows(Decode(Slot(ram, tab, Page(511, 510, i))), i)
  {
  }

  // Runs.

  /** `Reserve` is another caller of `phys_malloc`, `Release` another caller of `phys_free`. */
  datatype Op =
    | Map(phys: u64, virt: u64, flags: u32)
    | Unmap(virt: u64)
    | Reserve(size: u64)
    | Release(start: nat, count: nat)

  function ReserveFrames(m: Machine, st: Vm, size: u64): (r: Vm)
    requires Wf(m, st)
    ensures Wf(m, r)
  {
    var n := FramesFor(size);
    match Search(m.build.reset, st.words, m.mmEnd, n)
    case None => st
    case Some(s) => if s + n <= 64 * |st.words| then st.(words := MarkRun(st.words, s, n)) else st
  }

  function ReleaseFrames(m: Machine, st: Vm, start: nat, count: nat): (r: Vm)
    requires Wf(m, st)
    ensures Wf(m, r)
  {
    if start + count <= 64 * |st.words| then st.(words := FreeRun(m.build.wide, st.words, start, count)) else st
  }

  function Step(m: Machine, p4: nat, st: Vm, op: Op): (r: Outcome<Vm>)
    requires Wf(m, st) && p4 < TABLES
    ensures r.Ok? ==> Wf(m, r.value)
  {
    match op
    case Map(phys, virt, flags) => MapPage(m, p4, st, phys, virt, flags)
    case Unmap(virt) => MapPage(m, p4, st, 0, virt, 0)
    case Reserve(size) => Ok(ReserveFrames(m, st, size))
    case Release(start, count) => Ok(ReleaseFrames(m, st, start, count))
  }

  function Run(m: Machine, p4: nat, st: Vm, ops: seq<Op>): (r: Outcome<Vm>)
    requires Wf(m, st) && p4 < TABLES
    ensures r.Ok? ==> Wf(m, r.value)
  {
    if ops == [] then Ok(st)
    else
      var st1 :- Run(m, p4, st, ops[..|ops| - 1]);
      Step(m, p4, st1, ops[|ops| - 1])
  }

  /** What the operation writes for page `k`, if it names it. */
  function Names(op: Op, k: Page): Option<u64> {
    match op
    case Map(phys, virt, flags) => if PageOf(virt) == k then Some(Leaf(phys, flags)) else None
    case Unmap(virt) => if PageOf(virt) == k then Some(0) else None
    case Reserve(_) => None
    case Release(_, _) => None
  }

  /** The flat map: the entry the last operation naming `k` wrote, or `base`. */
  function Flat(base: u64, ops: seq<Op>, k: Page): u64 {
    if ops == [] then base
    else
      match Names(ops[|ops| - 1], k)
      case Some(e) => e
      case None => Flat(base, ops[..|ops| - 1], k)
  }

  predicate StepExact(m: Machine, p4: nat, st: Vm, op: Op)
    requires Wf(m, st) && p4 < TABLES
  {
    match op
    case Map(_, virt, _) => MapExact(m, p4, st, virt)
    case Unmap(virt) => MapExact(m, p4, st, virt)
    case Reserve(_) => true
    case Release(_, _) => true
  }

  /** No operation of the run is handed a control table. */
  predicate RunExact(m: Machine, p4: nat, st: Vm, ops: seq<Op>)
    requires Wf(m, st) && p4 < TABLES
  {
    ops == []
    || (RunExact(m, p4, st, ops[..|ops| - 1])
        && match Run(m, p4, st, ops[..|ops| - 1])
           case Halt => true
           case Ok(st1) => StepExact(m, p4, st1, ops[|ops| - 1]))
  }

  /** Frame `g` holds a table of the tree or a block. */
  ghost predicate HoldsTables(tab: map<Node, nat>, blocks: seq<nat>, g: nat) {
    (exists r | r in tab :: tab[r] / 512 == g) || g in blocks
  }

  /** Freeing the run clears no frame that holds tables. */
  ghost predicate ReleaseSpares(m: Machine, tab: map<Node, nat>, blocks: seq<nat>, start: nat, count: nat) {
    forall g: nat | HoldsTables(tab, blocks, g) :: !RunTouches(m.build.wide, start, count, g)
  }

  ghost predicate StepSpares(m: Machine, p4: nat, st: Vm, op: Op) {
    match op
    case Release(start, count) =>
      start + count <= 64 * |st.words| ==>
        forall tab, blocks | Inv(m, p4, st, tab, blocks) :: ReleaseSpares(m, tab, blocks, start, count)
    case _ => true
  }

  /** No free of the run clears a frame that holds tables. */
  ghost predicate RunSpares(m: Machine, p4: nat, st: Vm, ops: seq<Op>)
    requires Wf(m, st) && p4 < TABLES
  {
    ops == []
    || (RunSpares(m, p4, st, ops[..|ops| - 1])
        && match Run(m, p4, st, ops[..|ops| - 1])
           case Halt => true
           case Ok(st1) => StepSpares(m, p4, st1, ops[|ops| - 1]))
  }

  /** The P3 and P2 tables on the way to a page. */
  function OnTheWay(page: Page): set<Node> {
    {P3(page.i4), P2(page.i4, page.i3)}
  }

  /** The tables the page the operation names needs. */
  function NeededBy(op: Op): set<Node> {
    match op
    case Map(_, virt, _) => OnTheWay(PageOf(virt))
    case Unmap(virt) => OnTheWay(PageOf(virt))
    case Reserve(_) => {}
    case Release(_, _) => {}
  }

  /** The tables that the pages named by the run need. */
  function Needed(ops: seq<Op>): set<Node> {
    if ops == [] then {}
    else Needed(ops[..|ops| - 1]) + NeededBy(ops[|ops| - 1])
  }

  lemma {:induction false} ZeroLeaf()
    ensures Leaf(0, 0) == 0
  {
    LeafIs(0, 0);
  }

  lemma {:induction false} ReserveOk(m: Machine, p4: nat, st: Vm, tab: map<Node, nat>, blocks: seq<nat>, size: u64)
    requires Inv(m, p4, st, tab, blocks)
    ensures Inv(m, p4, ReserveFrames(m, st, size), tab, blocks)
    ensures ReserveFrames(m, st, size).ram == st.ram && ReserveFrames(m, st, size).cur == st.cur
    ensures ReserveFrames(m, st, size).words
            == FrameLedger.Step(m.build, m.mmEnd, FrameLedger.Ledger(st.words, []), FrameLedger.Malloc(size)).words
  {
    var n := FramesFor(size);
    match Search(m.build.reset, st.words, m.mmEnd, n) {
      case None =>
      case Some(s) =>
        if s + n <= 64 * |st.words| {
          hide Search, FramesFor, Tree, Chain, Spare;
          forall g: nat | g < 64 * |st.words|
            ensures Used(st.words, g) ==> Used(MarkRun(st.words, s, n), g)
          {
            MarkRunUsed(st.words, s, n, g);
          }
        }
    }
  }

  /** Another caller's free keeps the tables held exactly when it clears no frame that holds some. */
  lemma {:induction false} ReleaseOk(m: Machine, p4: nat, st: Vm, tab: map<Node, nat>, blocks: seq<nat>,
      start: nat, count: nat)
    requires Inv(m, p4, st, tab, blocks) && start + count <= 64 * |st.words|
    ensures Inv(m, p4, ReleaseFrames(m, st, start, count), tab, blocks)
            <==> ReleaseSpares(m, tab, blocks, start, count)
  {
    hide Tree, Chain, Spare, RunTouches, FreeRun, Used;
    forall g: nat | g < 64 * |st.words|
      ensures Used(FreeRun(m.build.wide, st.words, start, count), g)
              == (!RunTouches(m.build.wide, start, count, g) && Used(st.words, g))
    {
      FreeRunUsed(m.build.wide, st.words, start, count, g);
    }
    HeldIs(st.words, tab, blocks);
    HeldIs(ReleaseFrames(m, st, start, count).words, tab, blocks);
  }

  lemma {:induction false} HeldIs(words: seq<Word>, tab: map<Node, nat>, blocks: seq<nat>)
    ensures Held(words, tab, blocks)
            <==> forall g: nat | HoldsTables(tab, blocks, g) :: g < 64 * |words| && Used(words, g)
  {
    hide Used;
    if forall g: nat | HoldsTables(tab, blocks, g) :: g < 64 * |words| && Used(words, g) {
      forall r | r in tab
        ensures tab[r] / 512 < 64 * |words| && Used(words, tab[r] / 512)
      {
        assert HoldsTables(tab, blocks, tab[r] / 512);
      }
      forall j | 0 <= j < |blocks|
        ensures blocks[j] < 64 * |words| && Used(words, blocks[j])
      {
        assert HoldsTables(tab, blocks, blocks[j]);
      }
    }
  }

  /** With 64-bit masks, or for runs that keep below bit 31 or take whole words: a caller that frees no frame
      with tables in it. */
  lemma {:induction false} OwnFramesSpare(m: Machine, tab: map<Node, nat>, blocks: seq<nat>, start: nat, count: nat)
    requires m.build.wide || LowOrWhole(start, count)
    ensures ReleaseSpares(m, tab, blocks, start, count)
            <==> forall g: nat | HoldsTables(tab, blocks, g) :: !(start <= g < start + count)
  {
    hide HoldsTables, RunTouches, LowOrWhole;
    forall g: nat
      ensures RunTouches(m.build.wide, start, count, g) == (start <= g < start + count)
    {
      RunTouchesOwn(m.build.wide, start, count, g);
    }
  }

  /** As written, freeing the one frame 32 places above a frame of tables takes that frame from them. */
  lemma {:induction false} NeighbourCleared(m: Machine, p4: nat, st: Vm, tab: map<Node, nat>, blocks: seq<nat>, g: nat)
    requires Inv(m, p4, st, tab, blocks) && !m.build.wide && HoldsTables(tab, blocks, g)
    requires g % 64 < 31 && g + 33 <= 64 * |st.words|
    ensures !Used(ReleaseFrames(m, st, g + 32, 1).words, g)
    ensures !Inv(m, p4, ReleaseFrames(m, st, g + 32, 1), tab, blocks)
  {
    hide Inv, HoldsTables, FreeRun, Used;
    assert Touches(false, g + 32, g);
    FreeRunUsed(false, st.words, g + 32, 1, g);
    ReleaseOk(m, p4, st, tab, blocks, g + 32, 1);
  }

  lemma {:induction false} StepOk(m: Machine, p4: nat, st: Vm, tab: map<Node, nat>, blocks: seq<nat>, op: Op)
    returns (tab1: map<Node, nat>, blocks1: seq<nat>)
    requires p4 < TABLES && Inv(m, p4, st, tab, blocks)
    requires StepExact(m, p4, st, op) && StepSpares(m, p4, st, op) && Step(m, p4, st, op).Ok?
    ensures Inv(m, p4, Step(m, p4, st, op).value, tab1, blocks1)
    ensures tab1.Keys == tab.Keys + NeededBy(op)
    ensures forall k | InTables(k) ::
              Slot(Step(m, p4, st, op).value.ram, tab1, k)
              == match Names(op, k) case Some(e) => e case None => Slot(st.ram, tab, k)
  {
    hide Inv, MapPage, MapExact, Slot, Leaf, PageOf;
    match op {
      case Map(phys, virt, flags) =>
        tab1, blocks1 := MapPageOk(m, p4, st, tab, blocks, phys, virt, flags);
      case Unmap(virt) =>
        ZeroLeaf();
        tab1, blocks1 := MapPageOk(m, p4, st, tab, blocks, 0, virt, 0);
      case Reserve(size) =>
        ReserveOk(m, p4, st, tab, blocks, size);
        tab1, blocks1 := tab, blocks;
      case Release(start, count) =>
        tab1, blocks1 := tab, blocks;
        if start + count <= 64 * |st.words| {
          ReleaseOk(m, p4, st, tab, blocks, start, count);
        }
    }
  }

  lemma {:induction false} RunParts(m: Machine, p4: nat, st: Vm, ops: seq<Op>)
    requires Wf(m, st) && p4 < TABLES && ops != []
    requires RunExact(m, p4, st, ops) && RunSpares(m, p4, st, ops) && Run(m, p4, st, ops).Ok?
    ensures var front, op := ops[..|ops| - 1], ops[|ops| - 1];
            && RunExact(m, p4, st, front) && RunSpares(m, p4, st, front) && Run(m, p4, st, front).Ok?
            && var st1 := Run(m, p4, st, front).value;
            && StepExact(m, p4, st1, op) && StepSpares(m, p4, st1, op)
            && Step(m, p4, st1, op) == Run(m, p4, st, ops)
  {
    hide StepExact, StepSpares, Step;
  }

  lemma {:induction false} FlatNext(base: u64, ops: seq<Op>, k: Page)
    requires ops != []
    ensures Flat(base, ops, k)
            == match Names(ops[|ops| - 1], k) case Some(e) => e case None => Flat(base, ops[..|ops| - 1], k)
  {
    hide Names;
  }

  /** Every run keeps the tables a tree, and for every page the tree holds the entry of the flat map. */
  lemma {:induction false} RunRefinesFlat(m: Machine, p4: nat, st: Vm, tab: map<Node, nat>, blocks: seq<nat>,
      ops: seq<Op>)
    returns (tab1: map<Node, nat>, blocks1: seq<nat>)
    requires p4 < TABLES && Inv(m, p4, st, tab, blocks)
    requires RunExact(m, p4, st, ops) && RunSpares(m, p4, st, ops) && Run(m, p4, st, ops).Ok?
    ensures Inv(m, p4, Run(m, p4, st, ops).value, tab1, blocks1)
    ensures tab1.Keys == tab.Keys + Needed(ops)
    ensures forall k | InTables(k) ::
              Slot(Run(m, p4, st, ops).value.ram, tab1, k) == Flat(Slot(st.ram, tab, k), ops, k)
    decreases |ops|
  {
    hide Inv, Slot, StepExact, StepSpares, Step, NeededBy, Names, RunExact, RunSpares, Tree, Held, Chain, Spare;
    InvParts(m, p4, st, tab, blocks);
    if ops == [] {
      tab1, blocks1 := tab, blocks;
    } else {
      RunParts(m, p4, st, ops);
      hide Run, Flat, InTables;
      var front, op := ops[..|ops| - 1], ops[|ops| - 1];
      var t, b := RunRefinesFlat(m, p4, st, tab, blocks, front);
      tab1, blocks1 := StepOk(m, p4, Run(m, p4, st, front).value, t, b, op);
      forall k | InTables(k)
        ensures Slot(Run(m, p4, st, ops).value.ram, tab1, k) == Flat(Slot(st.ram, tab, k), ops, k)
      {
        FlatNext(Slot(st.ram, tab, k), ops, k);
      }
    }
  }

  // The boot tables.

  /** P4 entry 511 leads to `p3`, its entry 510 to `p2`, which maps the first gigabyte in 2 MiB
      pages; the identity mapping has been dropped and no block has been obtained. */
  ghost predicate Boot(m: Machine, st: Vm, p4: nat, p3: nat, p2: nat) {
    && Wf(m, st) && st.cur == 0
    && p4 < TABLES && p3 < TABLES && p2 < TABLES && p4 != p3 && p4 != p2 && p3 != p2
    && (forall n | n in [p4, p3, p2] :: n / 512 < 64 * |st.words| && Used(st.words, n / 512))
    && (forall i | 0 <= i < 512 :: st.ram[p4][i] == if i == 511 then Link(p3, TABLE_FLAGS) else 0)
    && (forall i | 0 <= i < 512 :: st.ram[p3][i] == if i == 510 then Link(p2, TABLE_FLAGS) else 0)
    && (forall i | 0 <= i < 512 :: st.ram[p2][i] == 0x20_0000 * i + 0x83)
  }

  function BootTree(p4: nat, p3: nat, p2: nat): map<Node, nat> {
    map[P4 := p4, P3(511) := p3, P2(511, 510) := p2]
  }

  lemma {:induction false} BootInv(m: Machine, st: Vm, p4: nat, p3: nat, p2: nat)
    requires Boot(m, st, p4, p3, p2)
    ensures Wf(m, st) && p4 < TABLES && Inv(m, p4, st, BootTree(p4, p3, p2), [])
    ensures forall i: nat | i < 512 :: Slot(st.ram, BootTree(p4, p3, p2), Page(511, 510, i)) == 0x20_0000 * i + 0x83
  {
    var tab := BootTree(p4, p3, p2);
    hide Link, IsPresent;
    BootIsTree(m, st, p4, p3, p2);
    hide Tree;
    forall r | r in tab
      ensures tab[r] / 512 < 64 * |st.words| && Used(st.words, tab[r] / 512)
    {
      assert tab[r] in [p4, p3, p2];
    }
  }

  lemma {:induction false} BootIsTree(m: Machine, st: Vm, p4: nat, p3: nat, p2: nat)
    requires Boot(m, st, p4, p3, p2)
    ensures Tree(st.ram, p4, BootTree(p4, p3, p2))
  {
    var tab := BootTree(p4, p3, p2);
    hide Link, IsPresent, Used;
    ZeroIsAbsent();
    forall r, i | r in tab && !r.P2? && 0 <= i < 512
      ensures EntryOk(st.ram, tab, r, i)
    {
      assert r == P4 || r == P3(511);
    }
  }

  lemma {:induction false} DirectMapEntry(i: nat)
    requires i < 512
    ensures Decode(0x20_0000 * i + 0x83) == Page2M(0x20_0000 * i, 0x83)
  {
    var e := 0x20_0000 * i + 0x83;
    hide IsPresent, IsLarge;
    FlagBits(e);
    Bits.RemainderUnique(e, 0x20_0000, i, 0x83);
    Bits.RemainderUnique(e, 0x80, 0x4000 * i + 1, 3);
    Bits.RemainderUnique(e, 2, 0x10_0000 * i + 0x41, 1);
    Bits.RemainderUnique(0x4000 * i + 1, 2, 0x2000 * i, 1);
  }

  /** From the boot tables, over every run: the processor translates each page as the flat map says. */
  lemma {:induction false} RunTranslates(m: Machine, st: Vm, p4: nat, p3: nat, p2: nat, ops: seq<Op>, k: Page)
    requires Boot(m, st, p4, p3, p2) && RunExact(m, p4, st, ops) && RunSpares(m, p4, st, ops) && Run(m, p4, st, ops).Ok?
    requires InTables(k)
    ensures Translate(Run(m, p4, st, ops).value.ram, p4, k)
            == Decode(Flat(Slot(st.ram, BootTree(p4, p3, p2), k), ops, k))
  {
    BootInv(m, st, p4, p3, p2);
    hide Decode, Slot, Boot, Translate;
    var tab := BootTree(p4, p3, p2);
    var tab1, blocks1 := RunRefinesFlat(m, p4, st, tab, [], ops);
    TranslateIsSlot(Run(m, p4, st, ops).value.ram, p4, tab1, k);
  }

  /** Byte `x` of the first gigabyte stays mapped at `KERNEL_VADDR + x` through every run that does not
      name its page. */
  lemma {:induction false} RunKeepsDirectMap(m: Machine, st: Vm, p4: nat, p3: nat, p2: nat, ops: seq<Op>, x: u64)
    requires Boot(m, st, p4, p3, p2) && RunExact(m, p4, st, ops) && RunSpares(m, p4, st, ops) && Run(m, p4, st, ops).Ok?
    requires x < DIRECT_MAP && forall op | op in ops :: Names(op, PageOf(KERNEL_VADDR + x)) == None
    ensures InTables(PageOf(KERNEL_VADDR + x))
    ensures Translate(Run(m, p4, st, ops).value.ram, p4, PageOf(KERNEL_VADDR + x)) == Page2M(x - x % 0x20_0000, 0x83)
  {
    DirectMapKept(m, st, p4, p3, p2, ops, x);
    RunTranslates(m, st, p4, p3, p2, ops, PageOf(KERNEL_VADDR + x));
  }

  lemma {:induction false} DirectMapKept(m: Machine, st: Vm, p4: nat, p3: nat, p2: nat, ops: seq<Op>, x: u64)
    requires Boot(m, st, p4, p3, p2) && x < DIRECT_MAP
    requires forall op | op in ops :: Names(op, PageOf(KERNEL_VADDR + x)) == None
    ensures var k := PageOf(KERNEL_VADDR + x);
            && InTables(k)
            && Decode(Flat(Slot(st.ram, BootTree(p4, p3, p2), k), ops, k)) == Page2M(x - x % 0x20_0000, 0x83)
  {
    BootInv(m, st, p4, p3, p2);
    hide PageOf, Decode, Slot, Inv, Boot;
    DirectMapPage(x);
    var k := Page(511, 510, x / 0x20_0000);
    FlatUnnamed(Slot(st.ram, BootTree(p4, p3, p2), k), ops, k);
    DirectMapEntry(x / 0x20_0000);
  }

  lemma {:induction false} FlatUnnamed(base: u64, ops: seq<Op>, k: Page)
    requires forall op | op in ops :: Names(op, k) == None
    ensures Flat(base, ops, k) == base
  {
    if ops == [] {
    } else {
      FlatUnnamed(base, ops[..|ops| - 1], k);
    }
  }

  lemma {:induction false} FlatLast(base: u64, pre: seq<Op>, op: Op, post: seq<Op>, k: Page)
    requires Names(op, k).Some? && forall o | o in post :: Names(o, k) == None
    ensures Flat(base, pre + [op] + post, k) == Names(op, k).value
    decreases |post|
  {
    var ops := pre + [op] + post;
    if post == [] {
      assert ops[|ops| - 1] == op;
    } else {
      FlatLast(base, pre, op, post[..|post| - 1], k);
      assert ops[|ops| - 1] == post[|post| - 1] && ops[..|ops| - 1] == pre + [op] + post[..|post| - 1];
    }
  }

  lemma {:induction false} DecodeLeaf(phys: u64, flags: u32)
    requires phys < 0x10_0000_0000_0000 && flags < 0x20_0000 && flags % 2 == 1 && flags / 0x80 % 2 == 1
    ensures Decode(Leaf(phys, flags)) == Page2M(PageAlign(phys), flags)
  {
    hide IsPresent, IsLarge, PageAlign, Leaf;
    var q := phys / 0x20_0000;
    var e := 0x20_0000 * q + flags;
    LeafIs(phys, flags);
    PageAlignIs(phys);
    FrameOfLeaf(phys, flags);
    FlagBits(e);
    Bits.RemainderUnique(e, 0x20_0000, q, flags);
    Bits.RemainderUnique(e, 2, 0x10_0000 * q + flags / 2, 1);
    Bits.RemainderUnique(e, 0x80, 0x4000 * q + flags / 0x80, flags % 0x80);
    Bits.RemainderUnique(0x4000 * q + flags / 0x80, 2, 0x2000 * q + flags / 0x80 / 2, 1);
  }

  /** A page last mapped as a present 2 MiB page translates to the frame and the flags it was given. */
  lemma {:induction false} MappedTranslates(m: Machine, st: Vm, p4: nat, p3: nat, p2: nat,
                                            pre: seq<Op>, phys: u64, virt: u64, flags: u32, post: seq<Op>)
    requires var ops := pre + [Map(phys, virt, flags)] + post;
             Boot(m, st, p4, p3, p2) && RunExact(m, p4, st, ops) && RunSpares(m, p4, st, ops) && Run(m, p4, st, ops).Ok?
    requires forall op | op in post :: Names(op, PageOf(virt)) == None
    requires phys < 0x10_0000_0000_0000 && flags < 0x20_0000 && flags % 2 == 1 && flags / 0x80 % 2 == 1
    ensures InTables(PageOf(virt))
    ensures Translate(Run(m, p4, st, pre + [Map(phys, virt, flags)] + post).value.ram, p4, PageOf(virt))
            == Page2M(PageAlign(phys), flags)
  {
    hide Boot, PageOf, PageAlign, Run, RunExact, RunSpares, Translate, Leaf, Decode, Slot, Flat;
    PageOfIs(virt);
    var k, ops := PageOf(virt), pre + [Map(phys, virt, flags)] + post;
    RunTranslates(m, st, p4, p3, p2, ops, k);
    FlatLast(Slot(st.ram, BootTree(p4, p3, p2), k), pre, Map(phys, virt, flags), post, k);
    DecodeLeaf(phys, flags);
  }

  /** A page last unmapped translates to nothing. */
  lemma {:induction false} UnmappedTranslates(m: Machine, st: Vm, p4: nat, p3: nat, p2: nat,
                                              pre: seq<Op>, virt: u64, post: seq<Op>)
    requires var ops := pre + [Unmap(virt)] + post;
             && Boot(m, st, p4, p3, p2)
             && RunExact(m, p4, st, ops) && RunSpares(m, p4, st, ops) && Run(m, p4, st, ops).Ok?
    requires forall op | op in post :: Names(op, PageOf(virt)) == None
    ensures InTables(PageOf(virt))
    ensures Translate(Run(m, p4, st, pre + [Unmap(virt)] + post).value.ram, p4, PageOf(virt)) == Unmapped
  {
    hide Boot, PageOf, Run, RunExact, RunSpares, Translate, Slot, Flat;
    PageOfIs(virt);
    var k, ops := PageOf(virt), pre + [Unmap(virt)] + post;
    RunTranslates(m, st, p4, p3, p2, ops, k);
    FlatLast(Slot(st.ram, BootTree(p4, p3, p2), k), pre, Unmap(virt), post, k);
    ZeroIsAbsent();
  }

  // The window.

  lemma {:induction false} BootWindow(m: Machine, st: Vm, p4: nat, p3: nat, p2: nat)
    requires Boot(m, st, p4, p3, p2)
    ensures Window(st.ram, BootTree(p4, p3, p2))
  {
    BootInv(m, st, p4, p3, p2);
    hide Boot, Inv, Slot, Decode;
    forall i: nat | i < 512
      ensures Shows(Decode(Slot(st.ram, BootTree(p4, p3, p2), Page(511, 510, i))), i)
    {
      DirectMapEntry(i);
    }
  }

  /** After a run the kernel's accesses to a table reach it, exactly when the last operation naming its window
      page, if any, mapped it to its own frame. */
  lemma {:induction false} RunReachesExactly(m: Machine, st: Vm, p4: nat, p3: nat, p2: nat, ops: seq<Op>, n: nat)
    requires Boot(m, st, p4, p3, p2) && RunExact(m, p4, st, ops) && RunSpares(m, p4, st, ops)
    requires Run(m, p4, st, ops).Ok? && n < TABLES
    ensures Reached(Run(m, p4, st, ops).value.ram, p4, n)
            <==> Shows(Decode(Flat(0x20_0000 * (n / 512) + 0x83, ops, WindowPage(n))), n / 512)
  {
    hide Boot, Translate, Decode, Slot, Flat, Run, RunExact, RunSpares, Inv;
    BootInv(m, st, p4, p3, p2);
    RunTranslates(m, st, p4, p3, p2, ops, WindowPage(n));
  }

  /** In particular through every run that does not name the window page. */
  lemma {:induction false} RunReaches(m: Machine, st: Vm, p4: nat, p3: nat, p2: nat, ops: seq<Op>, n: nat)
    requires Boot(m, st, p4, p3, p2) && RunExact(m, p4, st, ops) && RunSpares(m, p4, st, ops) && Run(m, p4, st, ops).Ok?
    requires n < TABLES && forall op | op in ops :: Names(op, PageOf(TableAddr(n))) == None
    ensures Reached(Run(m, p4, st, ops).value.ram, p4, n)
  {
    hide PageOf, Boot, Decode, Run, RunExact, RunSpares, Reached;
    WindowPageIs(n);
    RunReachesExactly(m, st, p4, p3, p2, ops, n);
    FlatUnnamed(0x20_0000 * (n / 512) + 0x83, ops, WindowPage(n));
    DirectMapEntry(n / 512);
  }

  lemma {:induction false} BootReaches(m: Machine, st: Vm, p4: nat, p3: nat, p2: nat)
    requires Boot(m, st, p4, p3, p2)
    ensures forall n: nat | n < TABLES :: Reached(st.ram, p4, n)
  {
    hide Boot, Inv, Window, Reached;
    var tab := BootTree(p4, p3, p2);
    BootInv(m, st, p4, p3, p2);
    BootWindow(m, st, p4, p3, p2);
    InvParts(m, p4, st, tab, []);
    WindowReaches(st.ram, p4, tab);
  }

  lemma {:induction false} BootLinks(m: Machine, st: Vm, p4: nat, p3: nat, p2: nat)
    requires Boot(m, st, p4, p3, p2)
    ensures Wf(m, st) && p4 < TABLES && p3 < TABLES && p2 < TABLES
    ensures st.ram[p4][511] == Link(p3, TABLE_FLAGS) && st.ram[p3][510] == Link(p2, TABLE_FLAGS)
  {
    hide Link;
  }

  lemma {:induction false} UnmapReturns(m: Machine, st: Vm, p4: nat, p3: nat, p2: nat, n: nat)
    requires Boot(m, st, p4, p3, p2) && m.root == p4 && n < TABLES
    ensures MapPage(m, p4, st, 0, TableAddr(n), 0).Ok? && MapExact(m, p4, st, TableAddr(n))
  {
    hide Boot, Inv, PageOf, PageAlign, Leaf, Reached, TableAddr, NextLevel, Link, IsPresent, MapPage;
    BootReaches(m, st, p4, p3, p2);
    BootLinks(m, st, p4, p3, p2);
    WindowPageIs(n);
    PageOfAligned(TableAddr(n));
    LinkRecovers(p3);
    LinkRecovers(p2);
    PresentLevel(m, st, p4, 511, p3);
    PresentLevel(m, st, p3, 510, p2);
    MapPageIs(m, p4, st, 0, TableAddr(n), 0, st, p3, st, p2);
  }

  lemma {:induction false} UnmapWindow(m: Machine, st: Vm, p4: nat, p3: nat, p2: nat, n: nat)
      returns (tab1: map<Node, nat>, blocks1: seq<nat>)
    requires Boot(m, st, p4, p3, p2) && m.root == p4 && n < TABLES
    ensures MapPage(m, p4, st, 0, TableAddr(n), 0).Ok?
    ensures Inv(m, p4, MapPage(m, p4, st, 0, TableAddr(n), 0).value, tab1, blocks1)
    ensures !Reached(MapPage(m, p4, st, 0, TableAddr(n), 0).value.ram, p4, n)
  {
    hide PageOf, MapPage, Inv, Boot, Leaf, Slot, Decode, Reached, TableAddr;
    var tab, virt := BootTree(p4, p3, p2), TableAddr(n);
    BootInv(m, st, p4, p3, p2);
    UnmapReturns(m, st, p4, p3, p2, n);
    WindowPageIs(n);
    ZeroLeaf();
    tab1, blocks1 := MapPageOk(m, p4, st, tab, [], 0, virt, 0);
    var st1 := MapPage(m, p4, st, 0, virt, 0).value;
    InvParts(m, p4, st1, tab1, blocks1);
    ReachedIsSlot(st1.ram, p4, tab1, n);
    ZeroShowsNothing(n / 512);
  }

  lemma {:induction false} ZeroShowsNothing(f: nat)
    ensures !Shows(Decode(0), f)
  {
    ZeroIsAbsent();
  }

  /** A call that unmaps the window page of P4 returns, and the next map or unmap call stops: it has no
      way left to read P4. */
  lemma {:induction false} UnmapWindowStops(m: Machine, st: Vm, p4: nat, p3: nat, p2: nat, op: Op)
    requires Boot(m, st, p4, p3, p2) && m.root == p4 && (op.Map? || op.Unmap?)
    ensures Run(m, p4, st, [Unmap(TableAddr(p4))]).Ok?
    ensures Run(m, p4, st, [Unmap(TableAddr(p4)), op]).Halt?
  {
    var first := Unmap(TableAddr(p4));
    var tab1, blocks1 := UnmapWindow(m, st, p4, p3, p2, p4);
    assert [first][..0] == [] && [first, op][..1] == [first];
    hide Inv, Boot, MapPage, Reached;
    assert Run(m, p4, st, [first]) == MapPage(m, p4, st, 0, TableAddr(p4), 0);
    var st1 := MapPage(m, p4, st, 0, TableAddr(p4), 0).value;
    match op {
      case Map(phys, virt, flags) => MapStops(m, p4, st1, phys, virt, flags);
      case Unmap(virt) => MapStops(m, p4, st1, 0, virt, 0);
    }
  }

  lemma {:induction false} MapStops(m: Machine, p4: nat, st: Vm, phys: u64, virt: u64, flags: u32)
    requires Wf(m, st) && p4 < TABLES && !Reached(st.ram, m.root, p4)
    ensures MapPage(m, p4, st, phys, virt, flags).Halt?
  {
    hide PageOf, PageAlign, Reached, NewTable;
    PageOfIs(PageAlign(virt));
  }
}
