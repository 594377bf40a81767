/** Runs of the heap as written, with the reuse of freed blocks and the writes of its clients. */
module HeapReuse {
  import opened Words
  import opened Bytes
  import opened HeapBlocks
  import opened HeapLayout
  import opened HeapRuns
  import opened OrderedArray

  /** What the path that reuses a block adds to its header. */
  const AS_WRITTEN: nat := 8

  // A client's write at a reused address.

  lemma {:induction false} LoadZero(mem: seq<byte>, a: nat, n: nat)
    requires a + n <= |mem| && Load(mem, a, n) == 0
    ensures forall i | a <= i < a + n :: mem[i] == 0
    decreases n
  {
    if n == 0 {
    } else {
      LoadZero(mem, a + 1, n - 1);
    }
  }

  /** Sizes take three bytes of their field. */
  lemma {:induction false} HighBytes(mem: seq<byte>, a: nat)
    requires a + 8 <= |mem| && Load(mem, a, 8) < 0x100_0000
    ensures forall i | a + 3 <= i < a + 8 :: mem[i] == 0
  {
    Widths();
    LoadSplit(mem, a, 3, 5);
    hide Load, Pow256;
    LoadZero(mem, a + 3, 5);
  }

  lemma {:induction false} SizeBytesZero(mem: seq<byte>, b: Block, o: nat)
    requires BlockOk(mem, b) && o < 5
    ensures mem[b.hdr + 8 + o] == 0
  {
    hide Load;
    HighBytes(mem, b.hdr + 5);
  }

  lemma {:induction false} BlockOfHeader(hp: Heap, blocks: seq<Block>, h: u64) returns (j: nat)
    requires Inv(hp, blocks) && h in hp.index
    ensures j < |blocks| && HeaderAddr(blocks[j]) == h && BlockOk(hp.mem, blocks[j])
  {
    hide Tiled, BlockOk, Headers, Ordered, SizeGreater;
    IndexMembers(hp.index, blocks);
    j :| 0 <= j < |blocks| && h == HeaderAddr(blocks[j]);
  }

  lemma {:induction false} HeaderInIndex(hp: Heap, blocks: seq<Block>, k: nat)
    requires Inv(hp, blocks) && k < |blocks|
    ensures HeaderAddr(blocks[k]) in hp.index
  {
    hide Inv;
    var i := IndexOf(hp, blocks, k);
  }

  /** A byte written `o` bytes from a reused address leaves a heap with some layout, exactly when it falls
      behind the header or is zero: the first five bytes are the upper ones of the block's size. */
  lemma {:induction false} ReusedWrite(hp: Heap, blocks: seq<Block>, k: nat, o: nat, v: byte)
    requires Inv(hp, blocks) && k < |blocks| && o < blocks[k].size
    ensures blocks[k].hdr + AS_WRITTEN + o < |hp.mem|
    ensures HasLayout(hp.(mem := hp.mem[blocks[k].hdr + AS_WRITTEN + o := v])) <==> o >= 5 || v == 0
    ensures o >= 5 || v == 0 ==> Inv(hp.(mem := hp.mem[blocks[k].hdr + AS_WRITTEN + o := v]), blocks)
  {
    hide Inv, BlockOk;
    var b := blocks[k];
    BlockIsOk(hp, blocks, k);
    BlockBounds(hp.mem, b);
    var hp1 := hp.(mem := hp.mem[b.hdr + AS_WRITTEN + o := v]);
    if o >= 5 {
      PayloadWritten(hp, blocks, k, o - 5, v);
      assert Payload(b) + (o - 5) == b.hdr + AS_WRITTEN + o;
    } else if v == 0 {
      SizeBytesZero(hp.mem, b, o);
      assert hp1.mem == hp.mem;
      assert Inv(hp1, blocks);
    } else {
      HeaderInIndex(hp, blocks, k);
      forall blocks1
        ensures !Inv(hp1, blocks1)
      {
        if Inv(hp1, blocks1) {
          var j := BlockOfHeader(hp1, blocks1, HeaderAddr(b));
          SizeBytesZero(hp1.mem, blocks1[j], o);
        }
      }
    }
  }

  // Whole runs.

  /** `p` is the payload of block `b`, or what the path that reuses it returns. */
  predicate HeldAt(b: Block, p: u64) {
    !b.avail && (p == HEAP_BASE + Payload(b) || p == HeaderAddr(b) + AS_WRITTEN)
  }

  ghost predicate HeldIn(blocks: seq<Block>, p: u64, size: nat) {
    exists k | 0 <= k < |blocks| :: HeldAt(blocks[k], p) && size <= blocks[k].size
  }

  ghost predicate OneHolder(live: map<u64, nat>, b: Block) {
    forall p, q | p in live && q in live && HeldAt(b, p) && HeldAt(b, q) :: p == q
  }

  /** Live addresses are held in blocks in use, each large enough and none held twice. */
  ghost predicate Held(live: map<u64, nat>, blocks: seq<Block>) {
    && (forall p | p in live :: HeldIn(blocks, p, live[p]))
    && (forall k | 0 <= k < |blocks| :: OneHolder(live, blocks[k]))
  }

  ghost predicate ReuseInv(st: State, blocks: seq<Block>) {
    Inv(st.hp, blocks) && Held(st.live, blocks)
  }

  /** The path that reuses a block returned `p`: eight bytes before it a block begins. */
  predicate Reused(hp: Heap, p: u64) {
    p - AS_WRITTEN in hp.index
  }

  /** An allocation whose total does not wrap, a free, or a client's write that leaves the size of a
      reused block as it is. */
  predicate Harmless(st: State, op: Op) {
    match op
    case Alloc(size) => size + HEADER + FOOTER < TWO_64
    case Release(_) => true
    case Put(p, o, v) => p in st.live && o < st.live[p] && Reused(st.hp, p) && o < 5 ==> v == 0
  }

  lemma {:induction false} Holder(live: map<u64, nat>, blocks: seq<Block>, p: u64) returns (k: nat)
    requires Held(live, blocks) && p in live
    ensures k < |blocks| && HeldAt(blocks[k], p) && live[p] <= blocks[k].size && OneHolder(live, blocks[k])
  {
    hide HeldAt, OneHolder;
    assert HeldIn(blocks, p, live[p]);
    k :| 0 <= k < |blocks| && HeldAt(blocks[k], p) && live[p] <= blocks[k].size;
  }

  lemma {:induction false} FarApart(blocks: seq<Block>, i: nat, j: nat)
    requires Apart(blocks) && i < |blocks| && j < |blocks|
    ensures i == j || End(blocks[i]) <= blocks[j].hdr || End(blocks[j]) <= blocks[i].hdr
  {
  }

  /** Blocks lie apart, so an address is held in one block only. */
  lemma {:induction false} OneBlock(blocks: seq<Block>, i: nat, j: nat, p: u64)
    requires Apart(blocks) && i < |blocks| && j < |blocks| && HeldAt(blocks[i], p) && HeldAt(blocks[j], p)
    ensures i == j
  {
    hide Apart;
    FarApart(blocks, i, j);
  }

  /** The test on the index tells a reused address from a payload. */
  lemma {:induction false} ReusedIs(hp: Heap, blocks: seq<Block>, k: nat, p: u64)
    requires Inv(hp, blocks) && k < |blocks| && HeldAt(blocks[k], p)
    ensures Reused(hp, p) <==> p == HeaderAddr(blocks[k]) + AS_WRITTEN
  {
    hide Inv, Apart;
    InvParts(hp, blocks);
    HeaderInIndex(hp, blocks, k);
    if p == HEAP_BASE + Payload(blocks[k]) && Reused(hp, p) {
      var j := BlockOfHeader(hp, blocks, p - AS_WRITTEN);
      FarApart(blocks, j, k);
    }
  }

  /** The blocks differ at `k` only, or `k` is new. */
  predicate OnlyAt(blocks: seq<Block>, blocks1: seq<Block>, k: nat) {
    forall j | 0 <= j < |blocks1| && j != k :: j < |blocks| && blocks1[j] == blocks[j]
  }

  lemma {:induction false} OnlyAtMade(blocks: seq<Block>, blocks1: seq<Block>, k: nat)
    requires
      || (k == |blocks| && k < |blocks1| && blocks1 == blocks + [blocks1[k]])
      || (k < |blocks| == |blocks1| && blocks1 == blocks[k := blocks1[k]])
    ensures OnlyAt(blocks, blocks1, k)
  {
  }

  /** Block `k` of `blocks1` is new or was available before; it now holds `p`. */
  lemma {:induction false} HeldAfterAlloc(live: map<u64, nat>, blocks: seq<Block>, blocks1: seq<Block>, k: nat,
      p: u64, size: nat)
    requires Held(live, blocks) && Apart(blocks1) && |blocks| <= |blocks1|
    requires k < |blocks1| && HeldAt(blocks1[k], p) && size <= blocks1[k].size
    requires k < |blocks| ==> blocks[k].avail
    requires OnlyAt(blocks, blocks1, k)
    ensures Held(live[p := size], blocks1)
  {
    var live1 := live[p := size];
    hide Held, HeldAt, Apart, OneHolder, OnlyAt;
    forall q | q in live1
      ensures HeldIn(blocks1, q, live1[q])
    {
      if q != p {
        var j := OtherHolder(live, blocks, blocks1, k, q);
      }
    }
    forall j | 0 <= j < |blocks1|
      ensures OneHolder(live1, blocks1[j])
    {
      OneHolderAfter(live, blocks, blocks1, k, p, size, j);
    }
    HeldMade(live1, blocks1);
  }

  lemma {:induction false} HeldMade(live: map<u64, nat>, blocks: seq<Block>)
    requires forall p | p in live :: HeldIn(blocks, p, live[p])
    requires forall k | 0 <= k < |blocks| :: OneHolder(live, blocks[k])
    ensures Held(live, blocks)
  {
    hide HeldIn, OneHolder;
  }

  lemma {:induction false} InUse(b: Block, p: u64)
    requires HeldAt(b, p)
    ensures !b.avail
  {
  }

  lemma {:induction false} OtherHolder(live: map<u64, nat>, blocks: seq<Block>, blocks1: seq<Block>, k: nat, q: u64)
    returns (j: nat)
    requires Held(live, blocks) && q in live && |blocks| <= |blocks1| && k < |blocks1|
    requires k < |blocks| ==> blocks[k].avail
    requires OnlyAt(blocks, blocks1, k)
    ensures j < |blocks1| && j != k && HeldAt(blocks1[j], q) && live[q] <= blocks1[j].size
  {
    hide Held, HeldAt;
    j := Holder(live, blocks, q);
    InUse(blocks[j], q);
  }

  lemma {:induction false} OneHolderAfter(live: map<u64, nat>, blocks: seq<Block>, blocks1: seq<Block>, k: nat,
      p: u64, size: nat, j: nat)
    requires Held(live, blocks) && Apart(blocks1) && |blocks| <= |blocks1|
    requires k < |blocks1| && HeldAt(blocks1[k], p) && j < |blocks1|
    requires k < |blocks| ==> blocks[k].avail
    requires OnlyAt(blocks, blocks1, k)
    ensures OneHolder(live[p := size], blocks1[j])
  {
    hide Held, HeldAt, Apart, OnlyAt;
    var live1 := live[p := size];
    forall q, r | q in live1 && r in live1 && HeldAt(blocks1[j], q) && HeldAt(blocks1[j], r)
      ensures q == r
    {
      if q != p {
        var i := OtherHolder(live, blocks, blocks1, k, q);
        OneBlock(blocks1, i, j, q);
      }
      if r != p {
        var i := OtherHolder(live, blocks, blocks1, k, r);
        OneBlock(blocks1, i, j, r);
      }
      if q == p || r == p {
        OneBlock(blocks1, k, j, p);
      } else {
        KeptBlock(blocks, blocks1, k, j);
        BothHeld(live, blocks, j, q, r);
      }
    }
    OneHolderMade(live1, blocks1[j]);
  }

  lemma {:induction false} OneHolderMade(live: map<u64, nat>, b: Block)
    requires forall q, r | q in live && r in live && HeldAt(b, q) && HeldAt(b, r) :: q == r
    ensures OneHolder(live, b)
  {
    hide HeldAt;
  }

  lemma {:induction false} KeptBlock(blocks: seq<Block>, blocks1: seq<Block>, k: nat, j: nat)
    requires OnlyAt(blocks, blocks1, k) && j < |blocks1| && j != k
    ensures j < |blocks| && blocks1[j] == blocks[j]
  {
    var b := blocks1[j];
  }

  lemma {:induction false} BothHeld(live: map<u64, nat>, blocks: seq<Block>, j: nat, q: u64, r: u64)
    requires Held(live, blocks) && j < |blocks| && q in live && r in live
    requires HeldAt(blocks[j], q) && HeldAt(blocks[j], r)
    ensures q == r
  {
    hide HeldAt;
    assert OneHolder(live, blocks[j]);
  }

  lemma {:induction false} HeldAfterRelease(live: map<u64, nat>, blocks: seq<Block>, k: nat, p: u64)
    requires Held(live, blocks) && p in live && k < |blocks| && HeldAt(blocks[k], p)
    ensures Held(live - {p}, blocks[k := blocks[k].(avail := true)])
  {
    hide Held, HeldAt;
    var blocks1, live1 := blocks[k := blocks[k].(avail := true)], live - {p};
    forall q | q in live1
      ensures HeldIn(blocks1, q, live1[q])
    {
      var j := Holder(live, blocks, q);
      if j == k {
        BothHeld(live, blocks, k, p, q);
      }
      assert HeldAt(blocks1[j], q) && live1[q] <= blocks1[j].size;
    }
    forall j | 0 <= j < |blocks1|
      ensures OneHolder(live1, blocks1[j])
    {
      forall q, r | q in live1 && r in live1 && HeldAt(blocks1[j], q) && HeldAt(blocks1[j], r)
        ensures q == r
      {
        InUse(blocks1[j], q);
        BothHeld(live, blocks, j, q, r);
      }
    }
    HeldMade(live1, blocks1);
  }

  // Steps.

  lemma {:induction false} AllocHarmless(st: State, blocks: seq<Block>, size: u64) returns (blocks1: seq<Block>)
    requires ReuseInv(st, blocks) && Ready(AS_WRITTEN, st)
    requires size + HEADER + FOOTER < TWO_64 && Malloc(AS_WRITTEN, st.hp, size).Ok?
    ensures var (hp1, p) := Malloc(AS_WRITTEN, st.hp, size).value;
            ReuseInv(State(hp1, st.live[p := size]), blocks1)
  {
    hide Malloc, Inv, FindFrom, Held, Apart, TotalSize, Fits, OnlyAt;
    var k;
    blocks1, k := MallocOk(AS_WRITTEN, st.hp, blocks, size);
    var (hp1, p) := Malloc(AS_WRITTEN, st.hp, size).value;
    InvParts(hp1, blocks1);
    OnlyAtMade(blocks, blocks1, k);
    if k < |blocks| {
      FitsHolds(blocks[k], size);
    }
    HeldAfterAlloc(st.live, blocks, blocks1, k, p, size);
  }

  /** A free of a live address either stops the kernel, as it does for every reused one, or keeps the layout. */
  lemma {:induction false} ReleaseHarmless(st: State, blocks: seq<Block>, p: u64) returns (blocks1: seq<Block>)
    requires ReuseInv(st, blocks) && Wf(st.hp) && p in st.live
    ensures Free(st.hp, p).Halt? <==> Reused(st.hp, p)
    ensures Free(st.hp, p).Ok? ==> ReuseInv(State(Free(st.hp, p).value, st.live - {p}), blocks1)
  {
    hide Free, Inv, Held, Reused;
    var k := Holder(st.live, blocks, p);
    ReusedIs(st.hp, blocks, k, p);
    blocks1 := blocks[k := blocks[k].(avail := true)];
    if Reused(st.hp, p) {
      FreeOfReusedHalts(st.hp, blocks, k);
    } else {
      FreeOk(st.hp, blocks, k);
      HeldAfterRelease(st.live, blocks, k, p);
    }
  }

  /** A client's write inside what it asked for leaves some layout exactly when it is harmless. */
  lemma {:induction false} PutHarmless(st: State, blocks: seq<Block>, p: u64, o: nat, v: byte)
    requires ReuseInv(st, blocks) && Wf(st.hp) && p in st.live && o < st.live[p]
    ensures InHeap(p + o, 1)
    ensures HasLayout(st.hp.(mem := st.hp.mem[p + o - HEAP_BASE := v])) <==> Harmless(st, Put(p, o, v))
    ensures Harmless(st, Put(p, o, v)) ==> Inv(st.hp.(mem := st.hp.mem[p + o - HEAP_BASE := v]), blocks)
  {
    hide Inv, Held, Reused, HasLayout;
    var k := Holder(st.live, blocks, p);
    ReusedIs(st.hp, blocks, k, p);
    BlockIsOk(st.hp, blocks, k);
    if Reused(st.hp, p) {
      ReusedWrite(st.hp, blocks, k, o, v);
      assert p + o - HEAP_BASE == blocks[k].hdr + AS_WRITTEN + o;
    } else {
      PayloadWritten(st.hp, blocks, k, o, v);
      assert p + o - HEAP_BASE == Payload(blocks[k]) + o;
      LayoutFrom(st.hp.(mem := st.hp.mem[p + o - HEAP_BASE := v]), blocks);
    }
  }

  lemma {:induction false} LayoutFrom(hp: Heap, blocks: seq<Block>)
    requires Inv(hp, blocks)
    ensures HasLayout(hp)
  {
  }

  /** As written, a step that returns keeps the layout exactly when it is harmless. */
  lemma {:induction false} HarmlessIsExact(st: State, blocks: seq<Block>, op: Op) returns (blocks1: seq<Block>)
    requires ReuseInv(st, blocks) && Ready(AS_WRITTEN, st) && Step(AS_WRITTEN, st, op).Ok?
    ensures HasLayout(Step(AS_WRITTEN, st, op).value.hp) <==> Harmless(st, op)
    ensures Harmless(st, op) ==> ReuseInv(Step(AS_WRITTEN, st, op).value, blocks1)
  {
    hide Inv, Held, Malloc, Free, InHeap, Reused, HasLayout;
    blocks1 := blocks;
    match op {
      case Alloc(size) =>
        MallocKeepsLayout(AS_WRITTEN, st.hp, blocks, size);
        if size + HEADER + FOOTER < TWO_64 {
          blocks1 := AllocHarmless(st, blocks, size);
        }
      case Release(p) =>
        if p in st.live {
          blocks1 := ReleaseHarmless(st, blocks, p);
        }
        LayoutFrom(Step(AS_WRITTEN, st, op).value.hp, blocks1);
      case Put(p, o, v) =>
        if p in st.live && o < st.live[p] {
          PutHarmless(st, blocks, p, o, v);
        } else {
          LayoutFrom(st.hp, blocks);
        }
    }
  }

  /** `st` leads to `st1` by `ops` as written, and no step does harm. */
  ghost predicate HarmlessRun(st: State, ops: seq<Op>, st1: State)
    decreases |ops|
  {
    if ops == [] then st1 == st
    else
      && Ready(AS_WRITTEN, st) && Harmless(st, ops[0])
      && Step(AS_WRITTEN, st, ops[0]).Ok?
      && HarmlessRun(Step(AS_WRITTEN, st, ops[0]).value, ops[1..], st1)
  }

  /** As written, every run whose clients leave the sizes of reused blocks as they are keeps the layout, with
      every live address held in a block of its own. */
  lemma {:induction false} HarmlessRunsKeepInv(st: State, blocks: seq<Block>, ops: seq<Op>, st1: State)
    returns (blocks1: seq<Block>)
    requires ReuseInv(st, blocks) && HarmlessRun(st, ops, st1)
    ensures ReuseInv(st1, blocks1)
    decreases |ops|
  {
    hide ReuseInv, Harmless;
    if ops == [] {
      blocks1 := blocks;
    } else {
      var b := HarmlessIsExact(st, blocks, ops[0]);
      blocks1 := HarmlessRunsKeepInv(Step(AS_WRITTEN, st, ops[0]).value, b, ops[1..], st1);
    }
  }

  lemma {:induction false} EmptyHeapHeld(mem: seq<byte>)
    requires |mem| == HEAP_SIZE
    ensures ReuseInv(State(Heap(mem, DATA_START, []), map[]), [])
  {
    EmptyHeap(mem);
  }

  /** Even then what clients asked for lies in the heap, apart from each other, from every footer and from the
      first eight bytes of every header. */
  lemma {:induction false} HeldIsSeparate(st: State, blocks: seq<Block>)
    requires ReuseInv(st, blocks)
    ensures forall p | p in st.live :: HEAP_BASE + DATA_START <= p && p + st.live[p] <= HEAP_BASE + st.hp.top
    ensures forall p, q | p in st.live && q in st.live && p != q :: Separate(p, st.live[p], q, st.live[q])
    ensures forall p, k | p in st.live && 0 <= k < |blocks| ::
              && Separate(p, st.live[p], HeaderAddr(blocks[k]), AS_WRITTEN)
              && Separate(p, st.live[p], HEAP_BASE + FooterAt(blocks[k]), FOOTER)
  {
    hide Inv, Held, HeldAt, Separate, Apart;
    InvParts(st.hp, blocks);
    forall p | p in st.live
      ensures HEAP_BASE + DATA_START <= p && p + st.live[p] <= HEAP_BASE + st.hp.top
    {
      var j := Holder(st.live, blocks, p);
      HeldBounds(blocks[j], p, st.live[p]);
    }
    forall p, k | p in st.live && 0 <= k < |blocks|
      ensures Separate(p, st.live[p], HeaderAddr(blocks[k]), AS_WRITTEN)
      ensures Separate(p, st.live[p], HEAP_BASE + FooterAt(blocks[k]), FOOTER)
    {
      var j := Holder(st.live, blocks, p);
      HeldBounds(blocks[j], p, st.live[p]);
      FarApart(blocks, j, k);
      WithinBlock(blocks[j], p, st.live[p], blocks[k]);
    }
    forall p, q | p in st.live && q in st.live && p != q
      ensures Separate(p, st.live[p], q, st.live[q])
    {
      var i := Holder(st.live, blocks, p);
      var j := Holder(st.live, blocks, q);
      HeldBounds(blocks[i], p, st.live[p]);
      HeldBounds(blocks[j], q, st.live[q]);
      if i == j {
        BothHeld(st.live, blocks, i, p, q);
      }
      FarApart(blocks, i, j);
      BlocksApart(blocks[i], p, st.live[p], blocks[j], q, st.live[q]);
    }
  }

  lemma {:induction false} HeldBounds(b: Block, p: u64, size: nat)
    requires HeldAt(b, p) && size <= b.size
    ensures HeaderAddr(b) + AS_WRITTEN <= p && p + size <= HEAP_BASE + FooterAt(b)
  {
  }

  lemma {:induction false} WithinBlock(b: Block, p: u64, size: nat, c: Block)
    requires HeaderAddr(b) + AS_WRITTEN <= p && p + size <= HEAP_BASE + FooterAt(b)
    requires b == c || End(b) <= c.hdr || End(c) <= b.hdr
    ensures Separate(p, size, HeaderAddr(c), AS_WRITTEN) && Separate(p, size, HEAP_BASE + FooterAt(c), FOOTER)
  {
  }

  lemma {:induction false} BlocksApart(b: Block, p: u64, m: nat, c: Block, q: u64, n: nat)
    requires HeaderAddr(b) + AS_WRITTEN <= p && p + m <= HEAP_BASE + FooterAt(b)
    requires HeaderAddr(c) + AS_WRITTEN <= q && q + n <= HEAP_BASE + FooterAt(c)
    requires End(b) <= c.hdr || End(c) <= b.hdr
    ensures Separate(p, m, q, n)
  {
  }

  // Witnesses.

  lemma {:induction false} NoBlocksNoFit(hp: Heap, size: u64)
    requires Inv(hp, [])
    ensures FindFrom(hp.mem, hp.index, size, 0) == None
  {
    hide Inv;
    var k := FindIsBestFit(hp, [], size);
  }

  /** With a single block that fits, the reuse path takes it. */
  lemma {:induction false} SingleBlockReused(hp: Heap, b: Block, size: u64)
    requires Inv(hp, [b]) && Ready(AS_WRITTEN, State(hp, map[])) && Fits(b, size)
    ensures Malloc(AS_WRITTEN, hp, size).Ok?
    ensures Malloc(AS_WRITTEN, hp, size).value.1 == HeaderAddr(b) + AS_WRITTEN
    ensures Inv(Malloc(AS_WRITTEN, hp, size).value.0, [b.(avail := false)])
  {
    hide Inv, Malloc, Fits;
    var j := FindIsBestFit(hp, [b], size);
    assert Fits([b][0], size);
    var blocks1, k := MallocOk(AS_WRITTEN, hp, [b], size);
    assert [b][0 := b.(avail := false)] == [b.(avail := false)];
  }

  /** Allocating, freeing and allocating no more than that again, as the kernel does at boot, reuses the block,
      at 8 bytes from its header. A free of that address stops the kernel, and a client that writes a one
      there leaves no layout. */
  lemma {:induction false} ReuseHappens(mem: seq<byte>, size: nat, size1: nat)
    returns (st: State, ops: seq<Op>, p: u64)
    requires |mem| == HEAP_SIZE && 0 < size1 <= size && DATA_START + HEADER + size + FOOTER <= HEAP_SIZE
    ensures HarmlessRun(State(Heap(mem, DATA_START, []), map[]), ops, st)
    ensures st.live == map[p := size1] && p == HEAP_BASE + DATA_START + AS_WRITTEN && Reused(st.hp, p)
    ensures Ready(AS_WRITTEN, st) && Step(AS_WRITTEN, st, Release(p)).Halt?
    ensures Step(AS_WRITTEN, st, Put(p, 0, 1)).Ok? && !HasLayout(Step(AS_WRITTEN, st, Put(p, 0, 1)).value.hp)
  {
    hide Inv, Malloc, Free, Fits, HasLayout, HeldAt, Held;
    var st0 := State(Heap(mem, DATA_START, []), map[]);
    var b := Block(DATA_START, size, false);
    var q := HEAP_BASE + Payload(b);
    var st2 := AllocAndFree(mem, size);
    var c := b.(avail := true);
    InvIsReady(AS_WRITTEN, State(st2.hp, map[]), [c]);
    FitsMade(c, size1);
    SingleBlockReused(st2.hp, c, size1);
    st := Step(AS_WRITTEN, st2, Alloc(size1)).value;
    p := HeaderAddr(b) + AS_WRITTEN;
    ops := [Alloc(size), Release(q), Alloc(size1)];
    assert HarmlessRun(st, [], st);
    assert [Alloc(size1)][1..] == [] && HarmlessRun(st2, [Alloc(size1)], st);
    assert ops == [Alloc(size), Release(q)] + [Alloc(size1)];
    HarmlessRunsJoin(st0, [Alloc(size), Release(q)], st2, [Alloc(size1)], st);
    InvIsReady(AS_WRITTEN, st, [b]);
    FreeOfReusedHalts(st.hp, [b], 0);
    ReusedWrite(st.hp, [b], 0, 0, 1);
    HeaderInIndex(st.hp, [b], 0);
    assert Reused(st.hp, p);
  }

  /** The empty heap, one block allocated and freed. */
  lemma {:induction false} AllocAndFree(mem: seq<byte>, size: nat) returns (st: State)
    requires |mem| == HEAP_SIZE && DATA_START + HEADER + size + FOOTER <= HEAP_SIZE
    ensures var b := Block(DATA_START, size, true);
            && HarmlessRun(State(Heap(mem, DATA_START, []), map[]),
                           [Alloc(size), Release(HEAP_BASE + Payload(b))], st)
            && Inv(st.hp, [b]) && st.live == map[] && Ready(AS_WRITTEN, st)
  {
    hide Inv, Malloc, Free, HasLayout;
    var st0 := State(Heap(mem, DATA_START, []), map[]);
    EmptyHeap(mem);
    InvIsReady(AS_WRITTEN, st0, []);
    NoBlocksNoFit(st0.hp, size);
    TotalSizeIs(size);
    var blocks1, k := MallocOk(AS_WRITTEN, st0.hp, [], size);
    var b := Block(DATA_START, size, false);
    assert blocks1 == [b];
    var st1 := Step(AS_WRITTEN, st0, Alloc(size)).value;
    var q := HEAP_BASE + Payload(b);
    InvIsReady(AS_WRITTEN, st1, [b]);
    FreeOk(st1.hp, [b], 0);
    assert [b][0 := b.(avail := true)] == [b.(avail := true)];
    st := Step(AS_WRITTEN, st1, Release(q)).value;
    InvIsReady(AS_WRITTEN, st, [b.(avail := true)]);
    assert st1.live == map[q := size] && st.live == map[];
    assert HarmlessRun(st, [], st);
    assert [Release(q)][1..] == [] && HarmlessRun(st1, [Release(q)], st);
    assert [Alloc(size), Release(q)][1..] == [Release(q)];
  }

  lemma {:induction false} HarmlessRunsJoin(st: State, ops: seq<Op>, st1: State, more: seq<Op>, st2: State)
    requires HarmlessRun(st, ops, st1) && HarmlessRun(st1, more, st2)
    ensures HarmlessRun(st, ops + more, st2)
    decreases |ops|
  {
    hide Ready, Harmless, Step;
    if ops == [] {
      assert ops + more == more;
    } else {
      HarmlessRunsJoin(Step(AS_WRITTEN, st, ops[0]).value, ops[1..], st1, more, st2);
      assert (ops + more)[1..] == ops[1..] + more;
    }
  }

  lemma {:induction false} FitsMade(b: Block, size: u64)
    requires b.avail && b.size >= size
    ensures Fits(b, size)
  {
  }
}
