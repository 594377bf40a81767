/** The page-table mapper as functions on memory, and the tree it maintains. */
module PageTree {
  import opened Words
  import opened Bitmap
  import opened FrameSearch
  import opened FrameLedger
  import opened PageEntry
  import opened PageWalk

  function ZeroTable(): Table {
    seq(512, _ => 0)
  }

  /** The tables of the direct map, the frame bitmap, and the static pointer to the current
      `pt_alloc_t` block (0 before the first). */
  datatype Vm = Vm(ram: seq<Table>, words: seq<Word>, cur: u64)

  /** How the kernel was built: the frame allocator's choices, the bitmap words it manages, and the
      number of times one call of `new_page_table` increments `cur->idx`. As written the trace line
      increments it as well, so `step` is 2. `root` is the table CR3 holds. */
  datatype Machine = Machine(build: Build, mmEnd: nat, step: nat, root: nat)

  predicate Wf(m: Machine, st: Vm) {
    |st.ram| == TABLES && m.mmEnd <= |st.words| && 1 <= m.step <= 2 && m.root < TABLES
  }

  // Every part of a call that reads or writes a table does so through the window. It ends in `Halt`
  // when the window does not lead to that table.

  function Write(ram: seq<Table>, n: nat, i: nat, w: u64): (r: seq<Table>)
    requires n < |ram| && i < 512
    ensures |r| == |ram|
  {
    ram[n := ram[n][i := w]]
  }

  function ClearFrame(ram: seq<Table>, f: nat): (r: seq<Table>)
    ensures |r| == |ram|
  {
    seq(|ram|, n requires 0 <= n < |ram| => if n / 512 == f then ZeroTable() else ram[n])
  }

  /** `alloc_pt_block`: one frame, zeroed through the direct map. */
  function AllocBlock(m: Machine, st: Vm): (r: Outcome<(Vm, nat)>)
    requires Wf(m, st)
    ensures r.Ok? ==> Wf(m, r.value.0) && 512 * r.value.1 + 511 < TABLES
  {
    match Search(m.build.reset, st.words, m.mmEnd, 1)
    case None => Halt
    case Some(f) =>
      if f == 0 || 512 * f + 511 >= TABLES || f >= 64 * |st.words| || !Reached(st.ram, m.root, 512 * f) then Halt
      else Ok((Vm(ClearFrame(st.ram, f), MarkRun(st.words, f, 1), st.cur), f))
  }

  /** The table that holds a block's `idx`, `prev` and `next`: it follows the block's 511 tables. */
  function Control(cur: u64): (r: Option<nat>)
    ensures r.Some? ==> 511 <= r.value < TABLES
  {
    match TableAt(cur)
    case None => None
    case Some(c) => if c + 511 < TABLES then Some(c + 511) else None
  }

  function FirstBlock(m: Machine, st: Vm): (r: Outcome<Vm>)
    requires Wf(m, st)
    ensures r.Ok? ==> Wf(m, r.value)
  {
    if st.cur != 0 then Ok(st)
    else
      var (st1, f) :- AllocBlock(m, st);
      Ok(st1.(cur := TableAddr(512 * f)))
  }

  /** A full block gets a successor, linked both ways. */
  function NextBlock(m: Machine, st: Vm): (r: Outcome<Vm>)
    requires Wf(m, st)
    ensures r.Ok? ==> Wf(m, r.value)
  {
    match Control(st.cur)
    case None => Halt
    case Some(prev) =>
      if !Reached(st.ram, m.root, prev) then Halt
      else if st.ram[prev][0] < 511 then Ok(st)
      else
        var (st1, f) :- AllocBlock(m, st);
        var ram1 := Write(st1.ram, prev, 2, TableAddr(512 * f));
        var ram2 := Write(ram1, 512 * f + 511, 1, st.cur);
        Ok(Vm(ram2, st1.words, TableAddr(512 * f)))
  }

  /** `&cur->dirs[cur->idx++]`, with `step - 1` increments before it. */
  function Take(m: Machine, st: Vm): (r: Outcome<(Vm, nat)>)
    requires Wf(m, st)
    ensures r.Ok? ==> Wf(m, r.value.0) && r.value.1 < TABLES
  {
    match Control(st.cur)
    case None => Halt
    case Some(ctl) =>
      var idx := st.ram[ctl][0];
      if !Reached(st.ram, m.root, ctl) || idx + m.step > 512 then Halt
      else Ok((st.(ram := Write(st.ram, ctl, 0, idx + m.step)), ctl - 511 + (idx + m.step - 1)))
  }

  function NewTable(m: Machine, st: Vm): (r: Outcome<(Vm, nat)>)
    requires Wf(m, st)
    ensures r.Ok? ==> Wf(m, r.value.0) && r.value.1 < TABLES
  {
    var st1 :- FirstBlock(m, st);
    var st2 :- NextBlock(m, st1);
    Take(m, st2)
  }

  /** `virt_get_next_map_level` on entry `i` of table `n`. */
  function NextLevel(m: Machine, st: Vm, n: nat, i: nat): (r: Outcome<(Vm, nat)>)
    requires Wf(m, st) && n < TABLES && i < 512
    ensures r.Ok? ==> Wf(m, r.value.0) && r.value.1 < TABLES
  {
    var e := st.ram[n][i];
    if !Reached(st.ram, m.root, n) then Halt
    else if IsPresent(e) then
      match TableAt(NextTable(e))
      case None => Halt
      case Some(next) => Ok((st, next))
    else
      var (st1, next) :- NewTable(m, st);
      Ok((st1.(ram := Write(st1.ram, n, i, Link(next, TABLE_FLAGS))), next))
  }

  /** `virt_map_page`, for the table at `p4`. */
  function MapPage(m: Machine, p4: nat, st: Vm, phys: u64, virt: u64, flags: u32): (r: Outcome<Vm>)
    requires Wf(m, st) && p4 < TABLES
    ensures r.Ok? ==> Wf(m, r.value)
  {
    var page := PageOf(PageAlign(virt));
    PageOfIs(PageAlign(virt));
    var (st1, n3) :- NextLevel(m, st, p4, page.i4);
    var (st2, n2) :- NextLevel(m, st1, n3, page.i3);
    if !Reached(st2.ram, m.root, n2) then Halt
    else Ok(st2.(ram := Write(st2.ram, n2, page.i2, Leaf(PageAlign(phys), flags))))
  }

  // The tree of tables below P4.

  datatype Node = P4 | P3(i4: nat) | P2(i4: nat, i3: nat)

  function Child(r: Node, i: nat): Node
    requires !r.P2?
  {
    if r.P4? then P3(i) else P2(r.i4, i)
  }

  function Parent(r: Node): Node
    requires !r.P4?
  {
    if r.P3? then P4 else P3(r.i4)
  }

  predicate InRange(r: Node) {
    match r
    case P4 => true
    case P3(i4) => i4 < 512
    case P2(i4, i3) => i4 < 512 && i3 < 512
  }

  /** Entry `i` of the table of node `r` leads to the child's table, or to nothing. */
  predicate EntryOk(ram: seq<Table>, tab: map<Node, nat>, r: Node, i: nat)
    requires |ram| == TABLES && r in tab && tab[r] < TABLES && !r.P2? && i < 512
  {
    var c, e := Child(r, i), ram[tab[r]][i];
    if c in tab then tab[c] < TABLES && e == Link(tab[c], TABLE_FLAGS) else !IsPresent(e)
  }

  /** `tab` names the tables reachable from `p4`: a tree of depth three, each table referenced by the
      one slot that its place in the tree says. */
  ghost predicate Tree(ram: seq<Table>, p4: nat, tab: map<Node, nat>) {
    && |ram| == TABLES
    && P4 in tab && tab[P4] == p4
    && (forall r | r in tab :: InRange(r) && tab[r] < TABLES && (r.P4? || Parent(r) in tab))
    && (forall r, s | r in tab && s in tab && tab[r] == tab[s] :: r == s)
    && (forall r, i | r in tab && !r.P2? && 0 <= i < 512 :: EntryOk(ram, tab, r, i))
  }

  function Ctl(f: nat): nat {
    512 * f + 511
  }

  function BlockAddr(f: nat): u64
    requires Ctl(f) < TABLES
  {
    TableAddr(512 * f)
  }

  lemma {:induction false} BlockAddrIs(f: nat)
    requires Ctl(f) < TABLES
    ensures BlockAddr(f) == TableAddr(512 * f)
  {
  }

  predicate BlocksFit(blocks: seq<nat>) {
    && (forall j | 0 <= j < |blocks| :: 0 < blocks[j] && Ctl(blocks[j]) < TABLES)
    && (forall i, j | 0 <= i < j < |blocks| :: blocks[i] != blocks[j])
  }

  /** All tables of the tree and all blocks lie in frames in use. */
  ghost predicate Held(words: seq<Word>, tab: map<Node, nat>, blocks: seq<nat>) {
    && (forall r | r in tab :: tab[r] / 512 < 64 * |words| && Used(words, tab[r] / 512))
    && (forall j | 0 <= j < |blocks| :: blocks[j] < 64 * |words| && Used(words, blocks[j]))
  }

  function PrevOf(blocks: seq<nat>, j: nat): u64
    requires BlocksFit(blocks) && j < |blocks|
  {
    if j == 0 then 0 else BlockAddr(blocks[j - 1])
  }

  function NextOf(blocks: seq<nat>, j: nat): u64
    requires BlocksFit(blocks) && j < |blocks|
  {
    if j + 1 == |blocks| then 0 else BlockAddr(blocks[j + 1])
  }

  /** The blocks obtained so far, oldest first, form a doubly linked chain ending at `cur`. */
  ghost predicate Chain(ram: seq<Table>, cur: u64, blocks: seq<nat>) {
    && |ram| == TABLES && BlocksFit(blocks)
    && cur == (if blocks == [] then 0 else BlockAddr(blocks[|blocks| - 1]))
    && (forall j | 0 <= j < |blocks| ::
          && ram[Ctl(blocks[j])][1] == PrevOf(blocks, j)
          && ram[Ctl(blocks[j])][2] == NextOf(blocks, j))
  }

  predicate SpareTable(ram: seq<Table>, tab: map<Node, nat>, n: nat) {
    n < |ram| && n !in tab.Values && ram[n] == ZeroTable()
  }

  /** No control table is part of the tree; the tables of the current block that are still to be
      handed out are zero and not part of the tree either. */
  ghost predicate Spare(ram: seq<Table>, tab: map<Node, nat>, blocks: seq<nat>) {
    && |ram| == TABLES && BlocksFit(blocks)
    && (forall j | 0 <= j < |blocks| :: Ctl(blocks[j]) !in tab.Values)
    && (blocks != [] ==>
          var f := blocks[|blocks| - 1];
          && ram[Ctl(f)][0] <= 511
          && forall n: nat | 512 * f + ram[Ctl(f)][0] <= n < Ctl(f) :: SpareTable(ram, tab, n))
  }

  ghost predicate Inv(m: Machine, p4: nat, st: Vm, tab: map<Node, nat>, blocks: seq<nat>) {
    && Wf(m, st)
    && Tree(st.ram, p4, tab)
    && Held(st.words, tab, blocks)
    && Chain(st.ram, st.cur, blocks)
    && Spare(st.ram, tab, blocks)
  }

  lemma {:induction false} InvParts(m: Machine, p4: nat, st: Vm, tab: map<Node, nat>, blocks: seq<nat>)
    requires Inv(m, p4, st, tab, blocks)
    ensures Wf(m, st) && Tree(st.ram, p4, tab) && Held(st.words, tab, blocks)
    ensures Chain(st.ram, st.cur, blocks) && Spare(st.ram, tab, blocks) && BlocksFit(blocks)
    ensures P4 in tab && tab[P4] == p4
    ensures forall r | r in tab :: InRange(r) && tab[r] < TABLES && tab[r] in tab.Values
    ensures forall j | 0 <= j < |blocks| :: Ctl(blocks[j]) !in tab.Values
  {
  }

  lemma {:induction false} InvMade(m: Machine, p4: nat, st: Vm, tab: map<Node, nat>, blocks: seq<nat>)
    requires Wf(m, st) && Tree(st.ram, p4, tab) && Held(st.words, tab, blocks)
    requires Chain(st.ram, st.cur, blocks) && Spare(st.ram, tab, blocks)
    ensures Inv(m, p4, st, tab, blocks)
  {
  }

  /** The chain depends on the links in the control tables only. */
  lemma {:induction false} ChainKept(ram: seq<Table>, ram1: seq<Table>, cur: u64, blocks: seq<nat>)
    requires Chain(ram, cur, blocks) && |ram1| == TABLES
    requires forall j | 0 <= j < |blocks| && Ctl(blocks[j]) < TABLES ::
               ram1[Ctl(blocks[j])][1] == ram[Ctl(blocks[j])][1] && ram1[Ctl(blocks[j])][2] == ram[Ctl(blocks[j])][2]
    ensures Chain(ram1, cur, blocks)
  {
    hide BlockAddr, PrevOf, NextOf;
  }

  /** The next table handed out is not the block's control table. */
  predicate Room(m: Machine, st: Vm)
    requires Wf(m, st)
  {
    match Control(st.cur)
    case None => true
    case Some(ctl) => st.ram[ctl][0] >= 511 || st.ram[ctl][0] + m.step <= 511
  }

  // Obtaining a block.

  lemma {:induction false} AllocBlockFacts(m: Machine, p4: nat, st: Vm, tab: map<Node, nat>, blocks: seq<nat>)
    requires Inv(m, p4, st, tab, blocks) && AllocBlock(m, st).Ok?
    ensures var (st1, f) := AllocBlock(m, st).value;
            && st1.cur == st.cur && |st1.words| == |st.words|
            && BlocksFit(blocks + [f]) && f < 64 * |st.words|
            && (forall g: nat | g < 64 * |st.words| :: Used(st1.words, g) == (g == f || Used(st.words, g)))
            && (forall n: nat | 512 * f <= n <= Ctl(f) :: SpareTable(st1.ram, tab, n))
            && (forall n: nat | n < TABLES && n / 512 != f :: st1.ram[n] == st.ram[n])
            && (forall r | r in tab :: tab[r] / 512 != f)
  {
    hide AllocBlock, MarkRun, Used, ClearFrame, Search, Tree, Chain, Spare;
    AllocBlockIs(m, st);
    var (st1, f) := AllocBlock(m, st).value;
    forall g: nat | g < 64 * |st.words|
      ensures Used(st1.words, g) == (g == f || Used(st.words, g))
    {
      MarkRunUsed(st.words, f, 1, g);
    }
    NotHeld(st.words, tab, blocks, f);
    FrameCleared(st.ram, tab, f);
    ChainFits(st.ram, st.cur, blocks);
  }

  lemma {:induction false} AllocBlockIs(m: Machine, st: Vm)
    requires Wf(m, st) && AllocBlock(m, st).Ok?
    ensures var (st1, f) := AllocBlock(m, st).value;
            && 0 < f < 64 * |st.words| && Ctl(f) < TABLES && !Used(st.words, f)
            && st1 == Vm(ClearFrame(st.ram, f), MarkRun(st.words, f, 1), st.cur)
  {
    hide Used, ClearFrame, MarkRun;
    SearchIsFirstFit(m.build.reset, st.words, m.mmEnd, 1);
  }

  lemma {:induction false} ChainFits(ram: seq<Table>, cur: u64, blocks: seq<nat>)
    requires Chain(ram, cur, blocks)
    ensures BlocksFit(blocks)
  {
  }

  /** A frame that is not in use holds no table of the tree and no block. */
  lemma {:induction false} NotHeld(words: seq<Word>, tab: map<Node, nat>, blocks: seq<nat>, f: nat)
    requires Held(words, tab, blocks) && f < 64 * |words| && !Used(words, f)
    ensures forall r | r in tab :: tab[r] / 512 != f
    ensures forall j | 0 <= j < |blocks| :: blocks[j] != f
  {
  }

  lemma {:induction false} FrameCleared(ram: seq<Table>, tab: map<Node, nat>, f: nat)
    requires |ram| == TABLES && Ctl(f) < TABLES && forall r | r in tab :: tab[r] / 512 != f
    ensures forall n: nat | 512 * f <= n <= Ctl(f) :: SpareTable(ClearFrame(ram, f), tab, n)
    ensures forall n: nat | n < TABLES && n / 512 != f :: ClearFrame(ram, f)[n] == ram[n]
  {
    forall n: nat | 512 * f <= n <= Ctl(f)
      ensures SpareTable(ClearFrame(ram, f), tab, n)
    {
      assert n / 512 == f;
    }
  }

  /** The tree depends on the contents of its own tables only. */
  lemma {:induction false} TreeFrame(ram: seq<Table>, ram1: seq<Table>, p4: nat, tab: map<Node, nat>)
    requires Tree(ram, p4, tab) && |ram1| == TABLES
    requires forall r | r in tab :: ram1[tab[r]] == ram[tab[r]]
    ensures Tree(ram1, p4, tab)
  {
    forall r, i | r in tab && !r.P2? && 0 <= i < 512
      ensures EntryOk(ram1, tab, r, i)
    {
      assert EntryOk(ram, tab, r, i);
    }
  }

  /** A fresh frame `f` becomes the current block. */
  lemma {:induction false} BlockAdded(m: Machine, p4: nat, st: Vm, tab: map<Node, nat>, blocks: seq<nat>, st1: Vm,
      f: nat)
    requires Inv(m, p4, st, tab, blocks)
    requires Wf(m, st1) && |st1.words| == |st.words|
    requires BlocksFit(blocks + [f]) && f < 64 * |st.words|
    requires forall g: nat | g < 64 * |st.words| :: Used(st1.words, g) == (g == f || Used(st.words, g))
    requires forall n: nat | 512 * f <= n < Ctl(f) :: SpareTable(st1.ram, tab, n)
    requires Ctl(f) < TABLES && Ctl(f) !in tab.Values && st1.ram[Ctl(f)][0] == 0
    requires forall r | r in tab :: st1.ram[tab[r]] == st.ram[tab[r]]
    requires Chain(st1.ram, st1.cur, blocks + [f])
    ensures Inv(m, p4, st1, tab, blocks + [f])
  {
    hide Inv, Tree, Held, Chain, Spare;
    InvParts(m, p4, st, tab, blocks);
    TreeFrame(st.ram, st1.ram, p4, tab);
    HeldAdded(st.words, st1.words, tab, blocks, f);
    SpareAdded(st.ram, st1.ram, tab, blocks, f);
    InvMade(m, p4, st1, tab, blocks + [f]);
  }

  lemma {:induction false} HeldAdded(words: seq<Word>, words1: seq<Word>, tab: map<Node, nat>, blocks: seq<nat>, f: nat)
    requires Held(words, tab, blocks) && |words1| == |words| && f < 64 * |words|
    requires forall g: nat | g < 64 * |words| :: Used(words1, g) == (g == f || Used(words, g))
    ensures Held(words1, tab, blocks + [f])
  {
    hide Used;
  }

  lemma {:induction false} SpareAdded(ram: seq<Table>, ram1: seq<Table>, tab: map<Node, nat>, blocks: seq<nat>, f: nat)
    requires Spare(ram, tab, blocks) && |ram1| == TABLES && BlocksFit(blocks + [f])
    requires Ctl(f) < TABLES && Ctl(f) !in tab.Values && ram1[Ctl(f)][0] == 0
    requires forall n: nat | 512 * f <= n < Ctl(f) :: SpareTable(ram1, tab, n)
    ensures Spare(ram1, tab, blocks + [f])
  {
  }

  predicate SameTree(tab: map<Node, nat>, ram: seq<Table>, ram1: seq<Table>) {
    |ram| == |ram1| && forall r | r in tab :: tab[r] < |ram| && ram1[tab[r]] == ram[tab[r]]
  }

  lemma {:induction false} FirstBlockOk(m: Machine, p4: nat, st: Vm, tab: map<Node, nat>, blocks: seq<nat>)
      returns (blocks1: seq<nat>)
    requires Inv(m, p4, st, tab, blocks) && FirstBlock(m, st).Ok?
    ensures var st1 := FirstBlock(m, st).value;
            && Inv(m, p4, st1, tab, blocks1) && blocks1 != [] && SameTree(tab, st.ram, st1.ram)
            && (blocks != [] ==> st1 == st && blocks1 == blocks)
            && (blocks == [] ==> |blocks1| == 1 && st1.ram[Ctl(blocks1[0])][0] == 0)
            && (blocks == [] ==> AllocBlock(m, st).Ok? && blocks1 == [AllocBlock(m, st).value.1])
  {
    hide AllocBlock, FirstBlock, Tree, Held, Spare, Chain, Inv, BlockAddr;
    InvParts(m, p4, st, tab, blocks);
    ChainEnd(st.ram, st.cur, blocks);
    FirstBlockIs(m, st);
    blocks1 := blocks;
    if blocks == [] {
      AllocBlockFacts(m, p4, st, tab, blocks);
      var f := AllocBlock(m, st).value.1;
      var st1 := FirstBlock(m, st).value;
      blocks1 := [f];
      assert blocks + [f] == blocks1;
      assert SpareTable(st1.ram, tab, Ctl(f));
      FirstChain(st1.ram, f);
      BlockAdded(m, p4, st, tab, blocks, st1, f);
    }
  }

  lemma {:induction false} ChainEnd(ram: seq<Table>, cur: u64, blocks: seq<nat>)
    requires Chain(ram, cur, blocks)
    ensures cur == 0 <==> blocks == []
  {
  }

  lemma {:induction false} FirstBlockIs(m: Machine, st: Vm)
    requires Wf(m, st) && FirstBlock(m, st).Ok?
    ensures st.cur != 0 ==> FirstBlock(m, st).value == st
    ensures st.cur == 0 ==>
              && AllocBlock(m, st).Ok?
              && FirstBlock(m, st).value == AllocBlock(m, st).value.0.(cur := BlockAddr(AllocBlock(m, st).value.1))
  {
    hide AllocBlock;
  }

  lemma {:induction false} FirstChain(ram: seq<Table>, f: nat)
    requires |ram| == TABLES && BlocksFit([f]) && Ctl(f) < TABLES && ram[Ctl(f)] == ZeroTable()
    ensures Chain(ram, BlockAddr(f), [f])
  {
    hide BlockAddr;
  }

  lemma {:induction false} CurrentControl(m: Machine, p4: nat, st: Vm, tab: map<Node, nat>, blocks: seq<nat>)
    requires Inv(m, p4, st, tab, blocks) && blocks != []
    ensures Control(st.cur) == Some(Ctl(blocks[|blocks| - 1])) && st.cur != 0
  {
    TableAtAddr(512 * blocks[|blocks| - 1]);
  }

  lemma {:induction false} NextBlockOk(m: Machine, p4: nat, st: Vm, tab: map<Node, nat>, blocks: seq<nat>)
      returns (blocks1: seq<nat>)
    requires Inv(m, p4, st, tab, blocks) && blocks != [] && NextBlock(m, st).Ok?
    ensures var st1 := NextBlock(m, st).value;
            && Inv(m, p4, st1, tab, blocks1) && blocks1 != [] && SameTree(tab, st.ram, st1.ram)
            && st1.ram[Ctl(blocks1[|blocks1| - 1])][0] < 511
            && (st.ram[Ctl(blocks[|blocks| - 1])][0] < 511 ==> st1 == st && blocks1 == blocks)
            && (st.ram[Ctl(blocks[|blocks| - 1])][0] >= 511 ==> st1.ram[Ctl(blocks1[|blocks1| - 1])][0] == 0)
            && (st.ram[Ctl(blocks[|blocks| - 1])][0] >= 511 ==>
                  AllocBlock(m, st).Ok? && blocks1 == blocks + [AllocBlock(m, st).value.1])
  {
    CurrentControl(m, p4, st, tab, blocks);
    blocks1 := blocks;
    if st.ram[Ctl(blocks[|blocks| - 1])][0] >= 511 {
      NextBlockAdded(m, p4, st, tab, blocks);
      blocks1 := blocks + [AllocBlock(m, st).value.1];
    }
  }

  lemma {:induction false} NextBlockAdded(m: Machine, p4: nat, st: Vm, tab: map<Node, nat>, blocks: seq<nat>)
    requires Inv(m, p4, st, tab, blocks) && blocks != [] && NextBlock(m, st).Ok?
    requires Control(st.cur) == Some(Ctl(blocks[|blocks| - 1]))
    requires st.ram[Ctl(blocks[|blocks| - 1])][0] >= 511
    ensures AllocBlock(m, st).Ok?
    ensures var f := AllocBlock(m, st).value.1;
            var st2 := NextBlock(m, st).value;
            && Inv(m, p4, st2, tab, blocks + [f]) && SameTree(tab, st.ram, st2.ram)
            && Ctl(f) < TABLES && st2.ram[Ctl(f)][0] == 0
  {
    hide AllocBlock, NextBlock, Held, BlockAddr, TableAddr, Inv, Tree, Chain, Spare, Control;
    var last := blocks[|blocks| - 1];
    InvParts(m, p4, st, tab, blocks);
    NextBlockIs(m, st, Ctl(last));
    AllocBlockFacts(m, p4, st, tab, blocks);
    var (st1, f) := AllocBlock(m, st).value;
    var st2 := NextBlock(m, st).value;
    BlockAddrIs(f);
    assert SpareTable(st1.ram, tab, Ctl(f));
    NextBlockLinked(st.ram, st.cur, blocks, f, st1.ram, st2.ram);
    ChainExtended(st.ram, st.cur, blocks, f, st2.ram);
    forall r | r in tab
      ensures st2.ram[tab[r]] == st.ram[tab[r]]
    {
      assert tab[r] in tab.Values;
    }
    forall n: nat | 512 * f <= n < Ctl(f)
      ensures SpareTable(st2.ram, tab, n)
    {
      assert SpareTable(st1.ram, tab, n);
    }
    BlockAdded(m, p4, st, tab, blocks, st2, f);
  }

  lemma {:induction false} NextBlockIs(m: Machine, st: Vm, ctl: nat)
    requires Wf(m, st) && Control(st.cur) == Some(ctl) && st.ram[ctl][0] >= 511 && NextBlock(m, st).Ok?
    ensures AllocBlock(m, st).Ok?
    ensures var (st1, f) := AllocBlock(m, st).value;
            NextBlock(m, st).value
            == Vm(Write(Write(st1.ram, ctl, 2, TableAddr(512 * f)), 512 * f + 511, 1, st.cur), st1.words,
                  TableAddr(512 * f))
  {
  }

  lemma {:induction false} NextBlockLinked(ram: seq<Table>, cur: u64, blocks: seq<nat>, f: nat, ram1: seq<Table>,
      ram2: seq<Table>)
    requires blocks != [] && BlocksFit(blocks) && BlocksFit(blocks + [f]) && |ram| == |ram1| == TABLES
    requires Ctl(f) < TABLES && ram1[Ctl(f)] == ZeroTable()
    requires forall n: nat | n < TABLES && n / 512 != f :: ram1[n] == ram[n]
    requires ram2 == Write(Write(ram1, Ctl(blocks[|blocks| - 1]), 2, BlockAddr(f)), Ctl(f), 1, cur)
    ensures Linked(ram, blocks, f, cur, ram2)
    ensures forall n: nat | n < TABLES && n != Ctl(blocks[|blocks| - 1]) && n != Ctl(f) :: ram2[n] == ram1[n]
  {
    hide BlockAddr;
    var last := |blocks| - 1;
    assert (blocks + [f])[last] != (blocks + [f])[|blocks|];
    forall j | 0 <= j < |blocks|
      ensures ram1[Ctl(blocks[j])] == ram[Ctl(blocks[j])]
      ensures ram2[Ctl(blocks[j])] == if j == last then ram[Ctl(blocks[j])][2 := BlockAddr(f)] else ram[Ctl(blocks[j])]
    {
      assert (blocks + [f])[j] == blocks[j];
      assert Ctl(blocks[j]) / 512 == blocks[j];
    }
  }

  /** Both links of the new block written: `ram2` differs from `ram` in the two control tables. */
  ghost predicate Linked(ram: seq<Table>, blocks: seq<nat>, f: nat, cur: u64, ram2: seq<Table>) {
    && blocks != [] && BlocksFit(blocks + [f]) && |ram| == |ram2| == TABLES
    && Ctl(f) < TABLES && ram2[Ctl(f)] == ZeroTable()[1 := cur]
    && forall j | 0 <= j < |blocks| ::
         Ctl(blocks[j]) < TABLES
         && ram2[Ctl(blocks[j])]
            == if j == |blocks| - 1 then ram[Ctl(blocks[j])][2 := BlockAddr(f)] else ram[Ctl(blocks[j])]
  }

  lemma {:induction false} ChainExtended(ram: seq<Table>, cur: u64, blocks: seq<nat>, f: nat, ram2: seq<Table>)
    requires Chain(ram, cur, blocks) && Linked(ram, blocks, f, cur, ram2)
    ensures Chain(ram2, BlockAddr(f), blocks + [f])
  {
    hide BlockAddr, PrevOf, NextOf;
    var blocks1 := blocks + [f];
    forall j | 0 <= j < |blocks1|
      ensures ram2[Ctl(blocks1[j])][1] == PrevOf(blocks1, j)
      ensures ram2[Ctl(blocks1[j])][2] == NextOf(blocks1, j)
    {
      LinksExtended(blocks, f, j);
    }
  }

  lemma {:induction false} LinksExtended(blocks: seq<nat>, f: nat, j: nat)
    requires BlocksFit(blocks) && BlocksFit(blocks + [f]) && Ctl(f) < TABLES && j <= |blocks| && blocks != []
    ensures PrevOf(blocks + [f], j) == if j == |blocks| then BlockAddr(blocks[j - 1]) else PrevOf(blocks, j)
    ensures NextOf(blocks + [f], j)
            == if j == |blocks| then 0 else if j == |blocks| - 1 then BlockAddr(f) else NextOf(blocks, j)
    ensures (blocks + [f])[j] == if j == |blocks| then f else blocks[j]
  {
    hide BlockAddr;
    assert forall i | 0 <= i < |blocks| :: (blocks + [f])[i] == blocks[i];
  }

  // Handing out a table.

  /** Table `n` was handed out of the current block: zero, in a frame in use, outside the tree and the
      control tables, and below the tables still to be handed out. */
  ghost predicate Fresh(st: Vm, tab: map<Node, nat>, blocks: seq<nat>, n: nat) {
    && |st.ram| == TABLES && BlocksFit(blocks) && blocks != []
    && SpareTable(st.ram, tab, n)
    && n / 512 < 64 * |st.words| && Used(st.words, n / 512)
    && (forall j | 0 <= j < |blocks| :: n != Ctl(blocks[j]))
    && n / 512 == blocks[|blocks| - 1]
    && n < 512 * blocks[|blocks| - 1] + st.ram[Ctl(blocks[|blocks| - 1])][0]
  }

  lemma {:induction false} TakeOk(m: Machine, p4: nat, st: Vm, tab: map<Node, nat>, blocks: seq<nat>)
    requires Inv(m, p4, st, tab, blocks) && blocks != []
    requires st.ram[Ctl(blocks[|blocks| - 1])][0] + m.step <= 511
    requires Reached(st.ram, m.root, Ctl(blocks[|blocks| - 1]))
    ensures Take(m, st).Ok?
    ensures var (st1, n) := Take(m, st).value;
            && Inv(m, p4, st1, tab, blocks) && Fresh(st1, tab, blocks, n) && SameTree(tab, st.ram, st1.ram)
            && st1.ram[Ctl(blocks[|blocks| - 1])][0] == st.ram[Ctl(blocks[|blocks| - 1])][0] + m.step
  {
    hide Take, BlockAddr, Inv, Tree, Chain, Spare, Held, Control, Fresh, Reached;
    CurrentControl(m, p4, st, tab, blocks);
    InvParts(m, p4, st, tab, blocks);
    TakeIs(m, st, Ctl(blocks[|blocks| - 1]));
    var (st1, n) := Take(m, st).value;
    NextSpare(st.ram, tab, blocks, n);
    ControlWritten(st.ram, st.cur, tab, blocks, st1.ram, m.step);
    TreeFrame(st.ram, st1.ram, p4, tab);
    InvMade(m, p4, st1, tab, blocks);
    BlockHeld(st.words, tab, blocks);
    FreshMade(st1, tab, blocks, n);
  }

  lemma {:induction false} FreshMade(st: Vm, tab: map<Node, nat>, blocks: seq<nat>, n: nat)
    requires |st.ram| == TABLES && BlocksFit(blocks) && blocks != []
    requires SpareTable(st.ram, tab, n)
    requires var f := blocks[|blocks| - 1];
             && 512 * f <= n < Ctl(f) && n < 512 * f + st.ram[Ctl(f)][0]
             && f < 64 * |st.words| && Used(st.words, f)
    ensures Fresh(st, tab, blocks, n)
  {
    var f := blocks[|blocks| - 1];
    assert n / 512 == f && n % 512 != 511;
    forall j | 0 <= j < |blocks|
      ensures n != Ctl(blocks[j])
    {
      assert Ctl(blocks[j]) % 512 == 511;
    }
  }

  lemma {:induction false} TakeIs(m: Machine, st: Vm, ctl: nat)
    requires Wf(m, st) && Control(st.cur) == Some(ctl) && st.ram[ctl][0] + m.step <= 511
    requires Reached(st.ram, m.root, ctl)
    ensures Take(m, st) == Ok((st.(ram := Write(st.ram, ctl, 0, st.ram[ctl][0] + m.step)),
      ctl - 511 + st.ram[ctl][0] + m.step - 1))
  {
  }

  lemma {:induction false} TakeReaches(m: Machine, st: Vm)
    requires Wf(m, st) && Take(m, st).Ok?
    ensures Control(st.cur).Some? && Reached(st.ram, m.root, Control(st.cur).value)
  {
    hide Reached;
  }

  lemma {:induction false} NextSpare(ram: seq<Table>, tab: map<Node, nat>, blocks: seq<nat>, n: nat)
    requires Spare(ram, tab, blocks) && blocks != []
    requires var f := blocks[|blocks| - 1];
             512 * f + ram[Ctl(f)][0] <= n < Ctl(f)
    ensures SpareTable(ram, tab, n)
  {
  }

  lemma {:induction false} BlockHeld(words: seq<Word>, tab: map<Node, nat>, blocks: seq<nat>)
    requires Held(words, tab, blocks)
    ensures forall j | 0 <= j < |blocks| :: blocks[j] < 64 * |words| && Used(words, blocks[j])
  {
  }

  lemma {:induction false} ControlWritten(ram: seq<Table>, cur: u64, tab: map<Node, nat>, blocks: seq<nat>,
      ram1: seq<Table>, step: nat)
    requires Chain(ram, cur, blocks) && Spare(ram, tab, blocks) && blocks != []
    requires ram[Ctl(blocks[|blocks| - 1])][0] + step <= 511
    requires var ctl := Ctl(blocks[|blocks| - 1]);
             ctl < TABLES && ram1 == Write(ram, ctl, 0, ram[ctl][0] + step)
    ensures Chain(ram1, cur, blocks) && Spare(ram1, tab, blocks)
    ensures forall r | r in tab && tab[r] < TABLES :: ram1[tab[r]] == ram[tab[r]]
  {
    hide BlockAddr;
    var f := blocks[|blocks| - 1];
    forall n: nat | 512 * f + ram1[Ctl(f)][0] <= n < Ctl(f)
      ensures SpareTable(ram1, tab, n)
    {
      assert SpareTable(ram, tab, n);
    }
    forall r | r in tab && tab[r] < TABLES
      ensures ram1[tab[r]] == ram[tab[r]]
    {
      assert tab[r] in tab.Values;
    }
  }

  /** Before a table is taken: a current block exists, and when there was room it has a table left. */
  lemma {:induction false} ReadyBlock(m: Machine, p4: nat, st: Vm, tab: map<Node, nat>, blocks: seq<nat>)
      returns (blocks1: seq<nat>)
    requires Inv(m, p4, st, tab, blocks) && Room(m, st)
    requires FirstBlock(m, st).Ok? && NextBlock(m, FirstBlock(m, st).value).Ok?
    ensures var st2 := NextBlock(m, FirstBlock(m, st).value).value;
            && Inv(m, p4, st2, tab, blocks1) && SameTree(tab, st.ram, st2.ram) && blocks1 != []
            && st2.ram[Ctl(blocks1[|blocks1| - 1])][0] + m.step <= 511
  {
    hide FirstBlock, NextBlock, Tree, Held, Chain, Spare, Inv, Control;
    InvParts(m, p4, st, tab, blocks);
    var b1 := FirstBlockOk(m, p4, st, tab, blocks);
    var st1 := FirstBlock(m, st).value;
    if blocks != [] {
      CurrentControl(m, p4, st, tab, blocks);
    }
    blocks1 := NextBlockOk(m, p4, st1, tab, b1);
  }

  /** One call of `new_page_table`, when the table it returns is not the control table: the invariant
      holds on, and the table is fresh. */
  lemma {:induction false} NewTableOk(m: Machine, p4: nat, st: Vm, tab: map<Node, nat>, blocks: seq<nat>)
      returns (blocks1: seq<nat>)
    requires Inv(m, p4, st, tab, blocks) && Room(m, st) && NewTable(m, st).Ok?
    ensures var (st1, n) := NewTable(m, st).value;
            && Inv(m, p4, st1, tab, blocks1) && Fresh(st1, tab, blocks1, n) && SameTree(tab, st.ram, st1.ram)
  {
    blocks1 := ReadyBlock(m, p4, st, tab, blocks);
    var st2 := NextBlock(m, FirstBlock(m, st).value).value;
    CurrentControl(m, p4, st2, tab, blocks1);
    TakeReaches(m, st2);
    hide FirstBlock, NextBlock, Take, Inv, Fresh, Room, Reached;
    TakeOk(m, p4, st2, tab, blocks1);
  }

  /** The table `new_page_table` returns is zero and not its block's control table exactly when the
      block has room: with two increments per call the 256th table of a block is the control table. */
  lemma {:induction false} NewTableIsClear(m: Machine, p4: nat, st: Vm, tab: map<Node, nat>, blocks: seq<nat>)
    requires Inv(m, p4, st, tab, blocks) && NewTable(m, st).Ok?
    ensures var (st1, n) := NewTable(m, st).value;
            (st1.ram[n] == ZeroTable() && Control(st1.cur) != Some(n)) <==> Room(m, st)
  {
    if Room(m, st) {
      var blocks1 := NewTableOk(m, p4, st, tab, blocks);
      CurrentControl(m, p4, NewTable(m, st).value.0, tab, blocks1);
    }
  }
}
