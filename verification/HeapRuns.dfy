/** Runs of allocations, frees and client writes. */
module HeapRuns {
  import opened Words
  import opened Bytes
  import opened HeapBlocks
  import opened HeapLayout
  import opened OrderedArray

  /** The heap and what its clients hold: each live address with the size asked for. */
  datatype State = State(hp: Heap, live: map<u64, nat>)

  /** `Put` is a client's write of one byte at an offset it asked for. */
  datatype Op = Alloc(size: u64) | Release(p: u64) | Put(p: u64, o: nat, v: byte)

  predicate Ready(reuse: nat, st: State) {
    Wf(st.hp) && reuse <= HEADER && forall h | h in st.hp.index :: h + reuse < TWO_64
  }

  function Step(reuse: nat, st: State, op: Op): Outcome<State>
    requires Ready(reuse, st)
  {
    match op
    case Alloc(size) =>
      var (hp1, p) :- Malloc(reuse, st.hp, size);
      Ok(State(hp1, st.live[p := size]))
    case Release(p) =>
      if p !in st.live then Ok(st)
      else
        var hp1 :- Free(st.hp, p);
        Ok(State(hp1, st.live - {p}))
    case Put(p, o, v) =>
      if p !in st.live || o >= st.live[p] || !InHeap(p + o, 1) then Ok(st)
      else Ok(st.(hp := st.hp.(mem := st.hp.mem[p + o - HEAP_BASE := v])))
  }

  /** The block whose payload a live address is. */
  predicate Backs(b: Block, p: u64, size: nat) {
    p == HEAP_BASE + Payload(b) && !b.avail && size <= b.size
  }

  /** Live addresses are payloads of blocks in use, each large enough, and every block in use is
      held by a client. */
  ghost predicate LiveOk(live: map<u64, nat>, blocks: seq<Block>) {
    && (forall p | p in live :: exists k | 0 <= k < |blocks| :: Backs(blocks[k], p, live[p]))
    && (forall k | 0 <= k < |blocks| && !blocks[k].avail :: HEAP_BASE + Payload(blocks[k]) in live)
  }

  ghost predicate RunInv(st: State, blocks: seq<Block>) {
    Inv(st.hp, blocks) && LiveOk(st.live, blocks)
  }

  /** An allocation whose size with header and footer is a 64-bit number, and that makes a new block
      or is made by a build that adds the full header when it reuses one. */
  predicate StepExact(reuse: nat, st: State, op: Op)
    requires Wf(st.hp)
  {
    op.Alloc? ==>
      && op.size + HEADER + FOOTER < TWO_64
      && (reuse == HEADER || FindFrom(st.hp.mem, st.hp.index, op.size, 0) == None)
  }

  lemma {:induction false} InvIsReady(reuse: nat, st: State, blocks: seq<Block>)
    requires Inv(st.hp, blocks) && reuse <= HEADER
    ensures Ready(reuse, st)
  {
    InvParts(st.hp, blocks);
    IndexMembers(st.hp.index, blocks);
    hide Inv, Headers, Permutes, Tiled, BlockOk;
  }

  lemma {:induction false} BackedBy(live: map<u64, nat>, blocks: seq<Block>, p: u64) returns (k: nat)
    requires LiveOk(live, blocks) && p in live
    ensures k < |blocks| && Backs(blocks[k], p, live[p])
  {
    k :| 0 <= k < |blocks| && Backs(blocks[k], p, live[p]);
  }

  /** Block `k` of `blocks1` is new or was available before; it now backs `p`. */
  lemma {:induction false} LiveAfterAlloc(live: map<u64, nat>, blocks: seq<Block>, blocks1: seq<Block>, k: nat,
      p: u64, size: nat)
    requires LiveOk(live, blocks) && Apart(blocks1)
    requires k < |blocks1| && Backs(blocks1[k], p, size) && |blocks| <= |blocks1|
    requires k < |blocks| ==> blocks[k].avail
    requires forall j | 0 <= j < |blocks1| && j != k :: j < |blocks| && blocks1[j] == blocks[j]
    ensures p !in live && LiveOk(live[p := size], blocks1)
  {
    hide LiveOk, Apart;
    forall q | q in live
      ensures q != p && BackedIn(blocks1, q, live[q])
    {
      var j := BackedBy(live, blocks, q);
      BackedInUse(blocks[j], q, live[q]);
      if j != k {
        PayloadsDiffer(blocks1, j, k);
      }
    }
    var live1 := live[p := size];
    forall j | 0 <= j < |blocks1| && !blocks1[j].avail
      ensures HEAP_BASE + Payload(blocks1[j]) in live1
    {
      if j == k {
        BackedInUse(blocks1[k], p, size);
      } else {
        HeldByClient(live, blocks, j);
      }
    }
    assert BackedIn(blocks1, p, size);
    LiveMade(live1, blocks1);
  }

  predicate BackedIn(blocks: seq<Block>, p: u64, size: nat) {
    exists k | 0 <= k < |blocks| :: Backs(blocks[k], p, size)
  }

  lemma {:induction false} LiveMade(live: map<u64, nat>, blocks: seq<Block>)
    requires forall p | p in live :: BackedIn(blocks, p, live[p])
    requires forall k | 0 <= k < |blocks| && !blocks[k].avail :: HEAP_BASE + Payload(blocks[k]) in live
    ensures LiveOk(live, blocks)
  {
    hide Backs;
  }

  lemma {:induction false} BackedInUse(b: Block, p: u64, size: nat)
    requires Backs(b, p, size)
    ensures !b.avail && p == HEAP_BASE + Payload(b)
  {
  }

  lemma {:induction false} HeldByClient(live: map<u64, nat>, blocks: seq<Block>, j: nat)
    requires LiveOk(live, blocks) && j < |blocks| && !blocks[j].avail
    ensures HEAP_BASE + Payload(blocks[j]) in live
  {
  }

  lemma {:induction false} PayloadsDiffer(blocks: seq<Block>, i: nat, j: nat)
    requires Apart(blocks) && i < |blocks| && j < |blocks| && i != j
    ensures Payload(blocks[i]) != Payload(blocks[j])
  {
    assert i < j ==> End(blocks[i]) <= blocks[j].hdr;
    assert j < i ==> End(blocks[j]) <= blocks[i].hdr;
  }

  lemma {:induction false} LiveAfterRelease(live: map<u64, nat>, blocks: seq<Block>, k: nat, p: u64)
    requires LiveOk(live, blocks) && Apart(blocks)
    requires p in live && k < |blocks| && Backs(blocks[k], p, live[p])
    ensures LiveOk(live - {p}, blocks[k := blocks[k].(avail := true)])
  {
    hide LiveOk, Apart;
    var blocks1 := blocks[k := blocks[k].(avail := true)];
    var live1 := live - {p};
    BackedInUse(blocks[k], p, live[p]);
    forall q | q in live1
      ensures BackedIn(blocks1, q, live1[q])
    {
      var j := BackedBy(live, blocks, q);
      BackedInUse(blocks[j], q, live[q]);
      assert blocks1[j] == blocks[j];
    }
    forall j | 0 <= j < |blocks1| && !blocks1[j].avail
      ensures HEAP_BASE + Payload(blocks1[j]) in live1
    {
      HeldByClient(live, blocks, j);
      PayloadsDiffer(blocks, j, k);
    }
    LiveMade(live1, blocks1);
  }

  lemma {:induction false} AllocKeeps(reuse: nat, st: State, blocks: seq<Block>, size: u64)
      returns (blocks1: seq<Block>)
    requires RunInv(st, blocks) && Ready(reuse, st)
    requires StepExact(reuse, st, Alloc(size)) && Malloc(reuse, st.hp, size).Ok?
    ensures var (hp1, p) := Malloc(reuse, st.hp, size).value;
            p !in st.live && RunInv(State(hp1, st.live[p := size]), blocks1)
  {
    hide Malloc, Inv, FindFrom, LiveOk;
    var k;
    blocks1, k := MallocOk(reuse, st.hp, blocks, size);
    var (hp1, p) := Malloc(reuse, st.hp, size).value;
    InvParts(hp1, blocks1);
    if k < |blocks| {
      FitsHolds(blocks[k], size);
    }
    LiveAfterAlloc(st.live, blocks, blocks1, k, p, size);
  }

  lemma {:induction false} ReleaseKeeps(st: State, blocks: seq<Block>, p: u64) returns (blocks1: seq<Block>)
    requires RunInv(st, blocks) && Wf(st.hp) && p in st.live
    ensures Free(st.hp, p).Ok? && RunInv(State(Free(st.hp, p).value, st.live - {p}), blocks1)
  {
    hide Free, Inv, LiveOk;
    var k := BackedBy(st.live, blocks, p);
    InvParts(st.hp, blocks);
    FreeOk(st.hp, blocks, k);
    blocks1 := blocks[k := blocks[k].(avail := true)];
    LiveAfterRelease(st.live, blocks, k, p);
  }

  lemma {:induction false} PutKeeps(st: State, blocks: seq<Block>, p: u64, o: nat, v: byte)
    requires RunInv(st, blocks) && Wf(st.hp) && p in st.live && o < st.live[p]
    ensures InHeap(p + o, 1)
    ensures RunInv(st.(hp := st.hp.(mem := st.hp.mem[p + o - HEAP_BASE := v])), blocks)
  {
    hide Inv, LiveOk;
    var k := BackedBy(st.live, blocks, p);
    InvParts(st.hp, blocks);
    PayloadWritten(st.hp, blocks, k, o, v);
  }

  lemma {:induction false} StepKeeps(reuse: nat, st: State, blocks: seq<Block>, op: Op) returns (blocks1: seq<Block>)
    requires RunInv(st, blocks) && Ready(reuse, st)
    requires StepExact(reuse, st, op) && Step(reuse, st, op).Ok?
    ensures RunInv(Step(reuse, st, op).value, blocks1)
  {
    hide RunInv, Malloc, Free, InHeap;
    blocks1 := blocks;
    match op {
      case Alloc(size) => blocks1 := AllocKeeps(reuse, st, blocks, size);
      case Release(p) =>
        if p in st.live {
          blocks1 := ReleaseKeeps(st, blocks, p);
        }
      case Put(p, o, v) =>
        if p in st.live && o < st.live[p] {
          PutKeeps(st, blocks, p, o, v);
        }
    }
  }

  /** A step that returns keeps the layout, with every live address a payload, exactly when it does not
      depart. */
  lemma {:induction false} StepKeepsInv(reuse: nat, st: State, blocks: seq<Block>, op: Op)
    requires RunInv(st, blocks) && Ready(reuse, st) && Step(reuse, st, op).Ok?
    ensures (exists blocks1 :: RunInv(Step(reuse, st, op).value, blocks1)) <==> StepExact(reuse, st, op)
  {
    hide RunInv, Malloc;
    if StepExact(reuse, st, op) {
      var blocks1 := StepKeeps(reuse, st, blocks, op);
    } else {
      forall blocks1
        ensures !RunInv(Step(reuse, st, op).value, blocks1)
      {
        AllocBreaks(reuse, st, blocks, op.size, blocks1);
      }
    }
  }

  /** A heap has one layout only: its index and headers say where the blocks are and what they hold. */
  lemma {:induction false} SameBlock(hp: Heap, blocks: seq<Block>, blocks1: seq<Block>, k: nat) returns (j: nat)
    requires Inv(hp, blocks) && Inv(hp, blocks1) && k < |blocks|
    ensures j < |blocks1| && blocks1[j] == blocks[k]
  {
    hide Inv, Load;
    var i := IndexOf(hp, blocks, k);
    j := BlockAt(hp, blocks1, i);
    BlockIsOk(hp, blocks, k);
    BlockIsOk(hp, blocks1, j);
  }

  lemma {:induction false} AllocBreaks(reuse: nat, st: State, blocks: seq<Block>, size: u64, blocks1: seq<Block>)
    requires RunInv(st, blocks) && Ready(reuse, st)
    requires !StepExact(reuse, st, Alloc(size)) && Malloc(reuse, st.hp, size).Ok?
    ensures var (hp1, p) := Malloc(reuse, st.hp, size).value;
            !RunInv(State(hp1, st.live[p := size]), blocks1)
  {
    hide Malloc, Inv, LiveOk, FindFrom, Backs;
    var (hp1, p) := Malloc(reuse, st.hp, size).value;
    if RunInv(State(hp1, st.live[p := size]), blocks1) {
      MallocKeepsLayout(reuse, st.hp, blocks, size);
      var b := ReturnsPayload(reuse, st.hp, blocks, size);
      var k := BackedBy(st.live[p := size], blocks1, p);
      var j := SameBlock(hp1, blocks1, b, k);
    }
  }

  /** `st` leads to `st1` by `ops`, and no step departs. */
  ghost predicate Runs(reuse: nat, st: State, ops: seq<Op>, st1: State)
    decreases |ops|
  {
    if ops == [] then st1 == st
    else
      && Ready(reuse, st) && StepExact(reuse, st, ops[0])
      && Step(reuse, st, ops[0]).Ok?
      && Runs(reuse, Step(reuse, st, ops[0]).value, ops[1..], st1)
  }

  /** Every run without a departing step keeps the layout and backs every live address by a block in use. What
      the code as written does when it reuses a block is in `HeapReuse`. */
  lemma {:induction false} RunsKeepInv(reuse: nat, st: State, blocks: seq<Block>, ops: seq<Op>, st1: State)
    returns (blocks1: seq<Block>)
    requires RunInv(st, blocks) && Runs(reuse, st, ops, st1)
    ensures RunInv(st1, blocks1)
    decreases |ops|
  {
    hide RunInv;
    if ops == [] {
      blocks1 := blocks;
    } else {
      var b := StepKeeps(reuse, st, blocks, ops[0]);
      blocks1 := RunsKeepInv(reuse, Step(reuse, st, ops[0]).value, b, ops[1..], st1);
    }
  }

  lemma {:induction false} EmptyHeap(mem: seq<byte>)
    requires |mem| == HEAP_SIZE
    ensures RunInv(State(Heap(mem, DATA_START, []), map[]), [])
  {
  }

  predicate Separate(a: int, n: nat, b: int, m: nat) {
    a + n <= b || b + m <= a
  }

  /** Payloads of live allocations lie in the heap above the index, are disjoint from each other and
      from every header and footer. */
  lemma {:induction false} LiveIsSeparate(st: State, blocks: seq<Block>)
    requires RunInv(st, blocks)
    ensures forall p | p in st.live :: HEAP_BASE + DATA_START <= p && p + st.live[p] <= HEAP_BASE + st.hp.top
    ensures forall p, q | p in st.live && q in st.live && p != q :: Separate(p, st.live[p], q, st.live[q])
    ensures forall p, k | p in st.live && 0 <= k < |blocks| ::
              && Separate(p, st.live[p], HeaderAddr(blocks[k]), HEADER)
              && Separate(p, st.live[p], HEAP_BASE + FooterAt(blocks[k]), FOOTER)
  {
    hide Inv, LiveOk, Separate, Backs, Apart, Tiled, BlockOk, BlocksOk, Permutes;
    InvParts(st.hp, blocks);
    forall p | p in st.live
      ensures HEAP_BASE + DATA_START <= p && p + st.live[p] <= HEAP_BASE + st.hp.top
    {
      var j := BackedBy(st.live, blocks, p);
      BackedBounds(blocks[j], p, st.live[p]);
    }
    forall p, k | p in st.live && 0 <= k < |blocks|
      ensures Separate(p, st.live[p], HeaderAddr(blocks[k]), HEADER)
      ensures Separate(p, st.live[p], HEAP_BASE + FooterAt(blocks[k]), FOOTER)
    {
      var j := BackedBy(st.live, blocks, p);
      BackedBounds(blocks[j], p, st.live[p]);
      BlocksSeparate(blocks, j, k, st.live[p]);
    }
    forall p, q | p in st.live && q in st.live && p != q
      ensures Separate(p, st.live[p], q, st.live[q])
    {
      var i := BackedBy(st.live, blocks, p);
      var j := BackedBy(st.live, blocks, q);
      BackedBounds(blocks[i], p, st.live[p]);
      BackedBounds(blocks[j], q, st.live[q]);
      PayloadsSeparate(blocks, i, j, st.live[p], st.live[q]);
    }
  }

  lemma {:induction false} BackedBounds(b: Block, p: u64, size: nat)
    requires Backs(b, p, size)
    ensures p == HEAP_BASE + Payload(b) && size <= b.size
  {
  }

  lemma {:induction false} BlocksSeparate(blocks: seq<Block>, j: nat, k: nat, n: nat)
    requires Apart(blocks) && j < |blocks| && k < |blocks| && n <= blocks[j].size
    ensures Separate(HEAP_BASE + Payload(blocks[j]), n, HeaderAddr(blocks[k]), HEADER)
    ensures Separate(HEAP_BASE + Payload(blocks[j]), n, HEAP_BASE + FooterAt(blocks[k]), FOOTER)
  {
    assert j < k ==> End(blocks[j]) <= blocks[k].hdr;
    assert k < j ==> End(blocks[k]) <= blocks[j].hdr;
  }

  lemma {:induction false} PayloadsSeparate(blocks: seq<Block>, i: nat, j: nat, n: nat, m: nat)
    requires Apart(blocks) && i < |blocks| && j < |blocks| && i != j
    requires n <= blocks[i].size && m <= blocks[j].size
    ensures Separate(HEAP_BASE + Payload(blocks[i]), n, HEAP_BASE + Payload(blocks[j]), m)
  {
    assert i < j ==> End(blocks[i]) <= blocks[j].hdr;
    assert j < i ==> End(blocks[j]) <= blocks[i].hdr;
  }

  // The path that reuses a block, as written.

  /** `_malloc` returns the payload of a block in use exactly when it makes a new block or adds the
      full header size to the reused one. */
  lemma {:induction false} ReturnsPayload(reuse: nat, hp: Heap, blocks: seq<Block>, size: u64)
      returns (blocks1: seq<Block>)
    requires Inv(hp, blocks) && Ready(reuse, State(hp, map[]))
    requires size + HEADER + FOOTER < TWO_64 && Malloc(reuse, hp, size).Ok?
    ensures Inv(Malloc(reuse, hp, size).value.0, blocks1)
    ensures (exists k | 0 <= k < |blocks1| :: Backs(blocks1[k], Malloc(reuse, hp, size).value.1, size))
            <==> reuse == HEADER || FindFrom(hp.mem, hp.index, size, 0) == None
  {
    hide Malloc, Inv, FindFrom, Backs, Apart, TotalSize, Fits;
    var k;
    blocks1, k := MallocOk(reuse, hp, blocks, size);
    var (hp1, p) := Malloc(reuse, hp, size).value;
    InvParts(hp1, blocks1);
    if k < |blocks| {
      FitsHolds(blocks[k], size);
    }
    BacksOnlyPayload(blocks1, k, p, size);
  }

  /** An address between a block's header and its payload is no other block's payload. */
  lemma {:induction false} BacksOnlyPayload(blocks: seq<Block>, k: nat, p: u64, size: nat)
    requires Apart(blocks) && k < |blocks| && !blocks[k].avail && size <= blocks[k].size
    requires HEAP_BASE + blocks[k].hdr <= p <= HEAP_BASE + Payload(blocks[k])
    ensures (exists j | 0 <= j < |blocks| :: Backs(blocks[j], p, size)) <==> p == HEAP_BASE + Payload(blocks[k])
  {
    if p == HEAP_BASE + Payload(blocks[k]) {
      assert Backs(blocks[k], p, size);
    }
    forall j | 0 <= j < |blocks| && j != k
      ensures !Backs(blocks[j], p, size)
    {
      assert j < k ==> End(blocks[j]) <= blocks[k].hdr;
      assert k < j ==> End(blocks[k]) <= blocks[j].hdr;
    }
  }

  /** As written, freeing the address the reuse path returned stops the kernel. For any block but the
      first, the bytes taken for the header's crc belong to the footer of the block before it; for the
      first, the bytes taken for its size begin with the crc and put the footer outside the heap. */
  lemma {:induction false} FreeOfReusedHalts(hp: Heap, blocks: seq<Block>, k: nat)
    requires Inv(hp, blocks) && k < |blocks|
    ensures Free(hp, HEAP_BASE + blocks[k].hdr + 8).Halt?
  {
    if k == 0 {
      FirstReusedHalts(hp, blocks);
    } else {
      LaterReusedHalts(hp, blocks, k);
    }
  }

  lemma {:induction false} LaterReusedHalts(hp: Heap, blocks: seq<Block>, k: nat)
    requires Inv(hp, blocks) && 0 < k < |blocks|
    ensures Free(hp, HEAP_BASE + blocks[k].hdr + 8).Halt?
  {
    hide Inv, Load, Tiled, Pow256, BlockOk;
    var b, c := blocks[k - 1], blocks[k];
    InvParts(hp, blocks);
    BlockIsOk(hp, blocks, k - 1);
    TiledNext(blocks, hp.top, k);
    BackLink(hp.mem, b);
    var f := FooterAt(b) + 4;
    assert f + 3 == c.hdr - 5;
    LoadMiddle(hp.mem, f, 3, 4, 1);
    Widths();
    assert (HEAP_BASE + b.hdr) / 0x100_0000 == 0xFF_FFFF_FFB0;
    assert Field(hp.mem, HEAP_BASE + c.hdr + 8 - HEADER, 4) == 0xFFFF_FFB0;
  }

  lemma {:induction false} BackLink(mem: seq<byte>, b: Block)
    requires BlockOk(mem, b)
    ensures Load(mem, FooterAt(b) + 4, 8) == HEAP_BASE + b.hdr
  {
    hide Load;
  }

  lemma {:induction false} FirstReusedHalts(hp: Heap, blocks: seq<Block>)
    requires Inv(hp, blocks) && blocks != []
    ensures Free(hp, HEAP_BASE + blocks[0].hdr + 8).Halt?
  {
    hide Inv, Load, Tiled, BlockOk;
    var b := blocks[0];
    InvParts(hp, blocks);
    BlockIsOk(hp, blocks, 0);
    var v := SizeFromCrc(hp.mem, b);
    FooterOutside(b.hdr, v);
  }

  /** The eight bytes from the header's start, read as a size. */
  lemma {:induction false} SizeFromCrc(mem: seq<byte>, b: Block) returns (v: nat)
    requires BlockOk(mem, b) && b.hdr >= DATA_START
    ensures v == BlockSize(mem, HEAP_BASE + b.hdr - 5) && HEAP_CRC <= v < 0x8000_0000_0000_0000
  {
    hide Load, Pow256;
    v := Load(mem, b.hdr, 8);
    Widths();
    LoadSplit(mem, b.hdr, 4, 4);
    LoadSplit(mem, b.hdr + 4, 1, 3);
    LoadMiddle(mem, b.hdr + 5, 0, 3, 5);
    PowZero();
    SizeBytes(b.size + FOOTER);
  }

  lemma {:induction false} PowZero()
    ensures Pow256(0) == 1
  {
  }

  lemma {:induction false} SizeBytes(x: nat)
    requires x <= HEAP_SIZE
    ensures x % 0x100_0000 == x
  {
  }

  /** The footer that size leads to lies outside the heap. */
  lemma {:induction false} FooterOutside(hdr: Offset, v: nat)
    requires HEAP_CRC <= v < 0x8000_0000_0000_0000
    ensures !InHeap((HEAP_BASE + hdr + 8 + v - FOOTER) % TWO_64, FOOTER)
  {
  }

  /** As written, freeing what `_malloc` returned succeeds exactly when it made a new block (for sizes
      whose total does not wrap), and stops the kernel whenever it reused one. */
  lemma {:induction false} FreeAfterMalloc(hp: Heap, blocks: seq<Block>, size: u64)
    requires Inv(hp, blocks) && Ready(8, State(hp, map[])) && Malloc(8, hp, size).Ok?
    ensures var (hp1, p) := Malloc(8, hp, size).value;
            && (FindFrom(hp.mem, hp.index, size, 0).Some? ==> Free(hp1, p).Halt?)
            && (size + HEADER + FOOTER < TWO_64 ==> (Free(hp1, p).Ok? <==> FindFrom(hp.mem, hp.index, size, 0) == None))
  {
    hide Malloc, Free, Inv, FindFrom, Tiled, BlockOk, TotalSize;
    var blocks1, k := MallocOk(8, hp, blocks, size);
    var (hp1, p) := Malloc(8, hp, size).value;
    if FindFrom(hp.mem, hp.index, size, 0).Some? {
      FreeOfReusedHalts(hp1, blocks1, k);
    } else if size + HEADER + FOOTER < TWO_64 {
      FreeOk(hp1, blocks1, k);
    }
  }

  lemma {:induction false} TiledNext(blocks: seq<Block>, top: nat, k: nat)
    requires Tiled(blocks, top) && 0 < k < |blocks|
    ensures blocks[k].hdr == End(blocks[k - 1])
    decreases |blocks|
  {
    var last := |blocks| - 1;
    if k < last {
      TiledNext(blocks[..last], blocks[last].hdr, k);
    } else {
      assert Tiled(blocks[..last], blocks[last].hdr);
      assert blocks[..last][last - 1] == blocks[k - 1];
    }
  }

  /** An allocation that succeeds keeps the layout exactly when the size with header and footer is a
      64-bit number. One whose total wraps passes the check for space, and its block overlaps what
      the bump pointer hands out next. */
  lemma {:induction false} MallocKeepsLayout(reuse: nat, hp: Heap, blocks: seq<Block>, size: u64)
    requires Inv(hp, blocks) && Ready(reuse, State(hp, map[])) && Malloc(reuse, hp, size).Ok?
    ensures HasLayout(Malloc(reuse, hp, size).value.0) <==> size + HEADER + FOOTER < TWO_64
  {
    hide Inv, FindFrom, NewBlock, Insert, TotalSize, SizeGreater;
    if size + HEADER + FOOTER < TWO_64 {
      var blocks1, k := MallocOk(reuse, hp, blocks, size);
      assert Inv(Malloc(reuse, hp, size).value.0, blocks1);
    } else {
      NothingFitsHuge(hp, blocks, size);
      var hp1 := Malloc(reuse, hp, size).value.0;
      WrappedTotal(size);
      InsertHolds(hp.index, HEAP_BASE + hp.top, SizeGreater(hp1.mem));
      forall blocks1
        ensures !Inv(hp1, blocks1)
      {
        if Inv(hp1, blocks1) {
          NoBlockAtTop(hp1, blocks1, hp.top);
        }
      }
    }
  }

  /** Such a request on the empty heap: it succeeds and leaves no layout. */
  lemma {:induction false} WrappedSucceeds(mem: seq<byte>)
    requires |mem| == HEAP_SIZE
    ensures var hp := Heap(mem, DATA_START, []);
            && Malloc(8, hp, TWO_64 - 25).Ok?
            && !HasLayout(Malloc(8, hp, TWO_64 - 25).value.0)
  {
    hide Inv;
    var hp := Heap(mem, DATA_START, []);
    EmptyHeap(mem);
    InvIsReady(8, State(hp, map[]), []);
    assert Malloc(8, hp, TWO_64 - 25).Ok?;
    MallocKeepsLayout(8, hp, [], TWO_64 - 25);
  }

  lemma {:induction false} WrappedTotal(size: u64)
    requires size + HEADER + FOOTER >= TWO_64
    ensures TotalSize(size) < HEADER + FOOTER
  {
  }

  lemma {:induction false} NothingFitsHuge(hp: Heap, blocks: seq<Block>, size: u64)
    requires Inv(hp, blocks) && size > HEAP_SIZE
    ensures FindFrom(hp.mem, hp.index, size, 0) == None
  {
    var k := FindIsBestFit(hp, blocks, size);
    InvParts(hp, blocks);
    hide Inv, Tiled, BlockOk;
  }

  lemma {:induction false} NoBlockAtTop(hp: Heap, blocks: seq<Block>, h: Offset)
    requires Inv(hp, blocks) && hp.top < h + HEADER + FOOTER
    ensures HEAP_BASE + h !in hp.index
  {
    InvParts(hp, blocks);
    IndexMembers(hp.index, blocks);
    hide Inv, Tiled, BlockOk, Permutes;
    forall k | 0 <= k < |blocks|
      ensures HEAP_BASE + h != HeaderAddr(blocks[k])
    {
      assert End(blocks[k]) <= hp.top;
    }
  }
}
