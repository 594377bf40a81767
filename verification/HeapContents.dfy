/** What clients have written stays: no call changes a byte inside a live allocation. */
module HeapContents {
  import opened Words
  import opened Bytes
  import opened HeapBlocks
  import opened HeapLayout
  import opened HeapRuns
  import opened HeapReuse
  import opened OrderedArray

  /** `_free` changes the flag of the header and nothing else. */
  lemma {:induction false} FreeChanges(hp: Heap, addr: u64, j: nat)
    requires Wf(hp) && Free(hp, addr).Ok? && j < HEAP_SIZE
    requires addr != 0 ==> j != addr - HEAP_BASE - 9
    ensures Free(hp, addr).value.mem[j] == hp.mem[j]
  {
    hide Store, Field, BlockSize;
    if addr != 0 {
      StoreFrame(hp.mem, addr - HEADER - HEAP_BASE + 4, 1, HEAD_AVAILABLE);
    }
  }

  /** The path that reuses a block changes the flag of its header and nothing else. */
  lemma {:induction false} ReuseChanges(reuse: nat, hp: Heap, size: u64, i: nat, j: nat)
    requires Wf(hp) && reuse <= HEADER && (forall h | h in hp.index :: h + reuse < TWO_64)
    requires Malloc(reuse, hp, size).Ok? && FindFrom(hp.mem, hp.index, size, 0) == Some(i)
    requires j < HEAP_SIZE && j != hp.index[i] - HEAP_BASE + 4
    ensures Malloc(reuse, hp, size).value.0.mem[j] == hp.mem[j]
    ensures Malloc(reuse, hp, size).value.1 == hp.index[i] + reuse
  {
    hide Store, Field, FindFrom, NewBlock;
    StoreFrame(hp.mem, hp.index[i] - HEAP_BASE + 4, 1, HEAD_IN_USE);
  }

  /** The path that makes a block changes its header and footer and nothing else. */
  lemma {:induction false} NewChanges(reuse: nat, hp: Heap, size: u64, j: nat)
    requires Wf(hp) && reuse <= HEADER && (forall h | h in hp.index :: h + reuse < TWO_64)
    requires Malloc(reuse, hp, size).Ok? && FindFrom(hp.mem, hp.index, size, 0) == None
    requires size + HEADER + FOOTER < TWO_64 && j < HEAP_SIZE
    requires j < hp.top || hp.top + HEADER <= j < hp.top + HEADER + size || hp.top + HEADER + size + FOOTER <= j
    ensures Malloc(reuse, hp, size).value.0.mem[j] == hp.mem[j]
    ensures Malloc(reuse, hp, size).value.1 == HEAP_BASE + hp.top + HEADER
  {
    TotalSizeIs(size);
    hide Store, FindFrom, TotalSize, Insert;
    var h := hp.top;
    var f := h + HEADER + size;
    var m1 := Store(hp.mem, h, 4, HEAP_CRC);
    var m2 := Store(m1, h + 4, 1, HEAD_IN_USE);
    var m3 := Store(m2, f, 4, HEAP_CRC);
    var m4 := Store(m3, f + 4, 8, HEAP_BASE + h);
    StoreFrame(hp.mem, h, 4, HEAP_CRC);
    StoreFrame(m1, h + 4, 1, HEAD_IN_USE);
    StoreFrame(m2, f, 4, HEAP_CRC);
    StoreFrame(m3, f + 4, 8, HEAP_BASE + h);
    StoreFrame(m4, h + 5, 8, size + FOOTER);
  }

  /** Where a live byte lies in its block. */
  lemma {:induction false} LiveByte(st: State, blocks: seq<Block>, q: u64, o: nat) returns (k: nat, j: nat)
    requires Inv(st.hp, blocks) && Held(st.live, blocks) && q in st.live && o < st.live[q]
    ensures k < |blocks| && HeldAt(blocks[k], q) && j == q + o - HEAP_BASE < HEAP_SIZE && !blocks[k].avail
    ensures blocks[k].hdr + AS_WRITTEN <= j < FooterAt(blocks[k]) && End(blocks[k]) <= st.hp.top
  {
    hide Inv, Held;
    InvParts(st.hp, blocks);
    k := Holder(st.live, blocks, q);
    HeldBounds(blocks[k], q, st.live[q]);
    j := q + o - HEAP_BASE;
  }

  lemma {:induction false} AllocKeepsByte(reuse: nat, st: State, blocks: seq<Block>, size: u64, q: u64, o: nat)
    requires Inv(st.hp, blocks) && Held(st.live, blocks) && Ready(reuse, st) && q in st.live && o < st.live[q]
    requires size + HEADER + FOOTER < TWO_64 && Malloc(reuse, st.hp, size).Ok?
    ensures 0 <= q + o - HEAP_BASE < HEAP_SIZE
    ensures Malloc(reuse, st.hp, size).value.0.mem[q + o - HEAP_BASE] == st.hp.mem[q + o - HEAP_BASE]
    ensures Malloc(reuse, st.hp, size).value.1 != q
  {
    hide Inv, Held, Malloc, FindFrom, Apart;
    InvParts(st.hp, blocks);
    var k, j := LiveByte(st, blocks, q, o);
    var n := FindIsBestFit(st.hp, blocks, size);
    match FindFrom(st.hp.mem, st.hp.index, size, 0) {
      case None => NewChanges(reuse, st.hp, size, j);
      case Some(i) =>
        FitsHolds(blocks[n], size);
        FarApart(blocks, k, n);
        ReuseChanges(reuse, st.hp, size, i, j);
    }
  }

  lemma {:induction false} ReleaseKeepsByte(st: State, blocks: seq<Block>, p: u64, q: u64, o: nat)
    requires Inv(st.hp, blocks) && Held(st.live, blocks) && Wf(st.hp) && q in st.live && o < st.live[q]
    requires p in st.live && p != q && Free(st.hp, p).Ok?
    ensures 0 <= q + o - HEAP_BASE < HEAP_SIZE
    ensures Free(st.hp, p).value.mem[q + o - HEAP_BASE] == st.hp.mem[q + o - HEAP_BASE]
  {
    hide Inv, Held, Free, Reused, Apart;
    InvParts(st.hp, blocks);
    var k, j := LiveByte(st, blocks, q, o);
    var n := Holder(st.live, blocks, p);
    var blocks1 := ReleaseHarmless(st, blocks, p);
    ReusedIs(st.hp, blocks, n, p);
    if k == n {
      BothHeld(st.live, blocks, k, p, q);
    }
    FarApart(blocks, k, n);
    FreeChanges(st.hp, p, j);
  }

  /** A call keeps every byte of every allocation that stays live, but for the byte a client writes. */
  lemma {:induction false} StepKeepsContents(reuse: nat, st: State, blocks: seq<Block>, op: Op, q: u64, o: nat)
    requires Inv(st.hp, blocks) && Held(st.live, blocks) && Ready(reuse, st) && Step(reuse, st, op).Ok?
    requires q in st.live && o < st.live[q] && op != Release(q)
    requires op.Alloc? ==> op.size + HEADER + FOOTER < TWO_64
    ensures var st1 := Step(reuse, st, op).value;
            && q in st1.live && st1.live[q] == st.live[q] && 0 <= q + o - HEAP_BASE < HEAP_SIZE == |st1.hp.mem|
            && st1.hp.mem[q + o - HEAP_BASE]
               == if op.Put? && op.p == q && op.o == o then op.v else st.hp.mem[q + o - HEAP_BASE]
  {
    hide Inv, Held, Malloc, Free;
    InvParts(st.hp, blocks);
    var k, j := LiveByte(st, blocks, q, o);
    match op {
      case Alloc(size) => AllocKeepsByte(reuse, st, blocks, size, q, o);
      case Release(p) =>
        if p in st.live {
          ReleaseKeepsByte(st, blocks, p, q, o);
        }
      case Put(p, o1, v) =>
        if p in st.live && o1 < st.live[p] {
          var n, i := LiveByte(st, blocks, p, o1);
          if p != q {
            BytesDiffer(st, blocks, p, o1, q, o);
          }
        }
    }
  }

  lemma {:induction false} BytesDiffer(st: State, blocks: seq<Block>, p: u64, o1: nat, q: u64, o: nat)
    requires Inv(st.hp, blocks) && Held(st.live, blocks) && p in st.live && q in st.live && p != q
    requires o1 < st.live[p] && o < st.live[q]
    ensures p + o1 != q + o
  {
    hide Inv, Held;
    HeldIsSeparate(st, blocks);
    assert Separate(p, st.live[p], q, st.live[q]);
  }

  /** The value of a byte after a run: what was put there last, or what it was. */
  function Last(ops: seq<Op>, q: u64, o: nat, v: byte): byte {
    if ops == [] then v
    else Last(ops[1..], q, o, if ops[0].Put? && ops[0].p == q && ops[0].o == o then ops[0].v else v)
  }

  /** As written, through every run that does no harm and does not free an allocation, each of its bytes is what
      the client wrote last. */
  lemma {:induction false} HarmlessRunsKeepContents(st: State, blocks: seq<Block>, ops: seq<Op>, st1: State,
      q: u64, o: nat)
    requires ReuseInv(st, blocks) && HarmlessRun(st, ops, st1)
    requires q in st.live && o < st.live[q] && Release(q) !in ops
    ensures q in st1.live && st1.live[q] == st.live[q] && 0 <= q + o - HEAP_BASE < HEAP_SIZE
    ensures |st.hp.mem| == |st1.hp.mem| == HEAP_SIZE
    ensures st1.hp.mem[q + o - HEAP_BASE] == Last(ops, q, o, st.hp.mem[q + o - HEAP_BASE])
    decreases |ops|
  {
    hide Inv, Held;
    var k, j := LiveByte(st, blocks, q, o);
    InvParts(st.hp, blocks);
    if ops == [] {
    } else {
      hide Step;
      StepKeepsContents(AS_WRITTEN, st, blocks, ops[0], q, o);
      var b := HarmlessIsExact(st, blocks, ops[0]);
      assert Release(q) !in ops[1..];
      HarmlessRunsKeepContents(Step(AS_WRITTEN, st, ops[0]).value, b, ops[1..], st1, q, o);
    }
  }

  /** Payload addresses are held as well. */
  lemma {:induction false} LiveIsHeld(live: map<u64, nat>, blocks: seq<Block>)
    requires LiveOk(live, blocks) && Apart(blocks)
    ensures Held(live, blocks)
  {
    hide LiveOk, Apart;
    forall p | p in live
      ensures HeldIn(blocks, p, live[p])
    {
      var k := BackedBy(live, blocks, p);
      assert HeldAt(blocks[k], p) && live[p] <= blocks[k].size;
    }
    forall k | 0 <= k < |blocks|
      ensures OneHolder(live, blocks[k])
    {
      forall p, q | p in live && q in live && HeldAt(blocks[k], p) && HeldAt(blocks[k], q)
        ensures p == q
      {
        var i := BackedBy(live, blocks, p);
        var j := BackedBy(live, blocks, q);
        OneBlock(blocks, i, k, p);
        OneBlock(blocks, j, k, q);
      }
    }
  }

  /** The same for the runs without a departing step, with any build. */
  lemma {:induction false} RunsKeepContents(reuse: nat, st: State, blocks: seq<Block>, ops: seq<Op>, st1: State,
      q: u64, o: nat)
    requires RunInv(st, blocks) && Runs(reuse, st, ops, st1)
    requires q in st.live && o < st.live[q] && Release(q) !in ops
    ensures q in st1.live && st1.live[q] == st.live[q] && 0 <= q + o - HEAP_BASE < HEAP_SIZE
    ensures |st.hp.mem| == |st1.hp.mem| == HEAP_SIZE
    ensures st1.hp.mem[q + o - HEAP_BASE] == Last(ops, q, o, st.hp.mem[q + o - HEAP_BASE])
    decreases |ops|
  {
    hide Inv, Held, LiveOk, Apart, Step, FindFrom;
    InvParts(st.hp, blocks);
    LiveIsHeld(st.live, blocks);
    var k, j := LiveByte(st, blocks, q, o);
    if ops == [] {
    } else {
      StepKeepsContents(reuse, st, blocks, ops[0], q, o);
      var b := StepKeeps(reuse, st, blocks, ops[0]);
      assert Release(q) !in ops[1..];
      RunsKeepContents(reuse, Step(reuse, st, ops[0]).value, b, ops[1..], st1, q, o);
    }
  }

  // The first allocation, byte by byte.

  /** The bytes of a block's marker. */
  predicate Marked(mem: seq<byte>, a: nat) {
    a + 4 <= |mem| && mem[a] == 0xAD && mem[a + 1] == 0xDE && mem[a + 2] == 0x15 && mem[a + 3] == 0xD5
  }

  lemma {:induction false} MarkerBytes(mem: seq<byte>, a: nat)
    requires a + 4 <= |mem| && Load(mem, a, 4) == HEAP_CRC
    ensures Marked(mem, a)
  {
    hide Load;
    LoadFour(mem, a);
  }

  /** On the empty heap a request of at most 6 MiB less 25 bytes, and no other that does not wrap, is granted the
      address 13 bytes behind the page of the index. Its block begins with the marker, a zero flag and the
      size with the footer, and ends with the marker and its own address; a free sets the flag to 0xFF. */
  lemma {:induction false} FirstAllocation(mem: seq<byte>, size: u64)
    requires |mem| == 0x80_0000 && size <= TWO_64 - 26
    ensures var r := Malloc(8, Heap(mem, 0x20_0000, []), size);
            && (r.Ok? <==> size <= 0x5F_FFE7)
            && (r.Ok? ==>
                  var (hp1, p) := r.value;
                  && p == 0xFFFF_FFFF_B020_000D && hp1.top == 0x20_0019 + size
                  && Marked(hp1.mem, 0x20_0000) && hp1.mem[0x20_0004] == 0
                  && Load(hp1.mem, 0x20_0005, 8) == size + 12
                  && Marked(hp1.mem, 0x20_000D + size)
                  && Load(hp1.mem, 0x20_0011 + size, 8) == 0xFFFF_FFFF_B020_0000
                  && Free(hp1, p).Ok? && Free(hp1, p).value.mem[0x20_0004] == 0xFF)
  {
    var hp := Heap(mem, DATA_START, []);
    EmptyHeap(mem);
    InvIsReady(8, State(hp, map[]), []);
    NoBlocksNoFit(hp, size);
    TotalSizeIs(size);
    hide Inv, Malloc, Free, Load, Store, BlockOk, FindFrom, Marked, TotalSize;
    var blocks1, k := MallocOk(8, hp, [], size);
    if size <= 0x5F_FFE7 {
      var (hp1, p) := Malloc(8, hp, size).value;
      var b := Block(DATA_START, size, false);
      assert blocks1 == [b];
      BlockIsOk(hp1, [b], 0);
      FirstBytes(hp1.mem, b);
      FreeOk(hp1, [b], 0);
      var hp2 := Free(hp1, p).value;
      assert [b][0 := b.(avail := true)] == [b.(avail := true)];
      BlockIsOk(hp2, [b.(avail := true)], 0);
      FirstBytes(hp2.mem, b.(avail := true));
    }
  }

  lemma {:induction false} FirstBytes(mem: seq<byte>, b: Block)
    requires BlockOk(mem, b) && b.hdr == DATA_START
    ensures Marked(mem, 0x20_0000) && mem[0x20_0004] == (if b.avail then 0xFF else 0)
    ensures Load(mem, 0x20_0005, 8) == b.size + 12 && Marked(mem, 0x20_000D + b.size)
    ensures Load(mem, 0x20_0011 + b.size, 8) == 0xFFFF_FFFF_B020_0000
  {
    LoadNext(mem, 0x20_0004, 1);
    assert Load(mem, 0x20_0005, 0) == 0;
    hide Load;
    MarkerBytes(mem, 0x20_0000);
    MarkerBytes(mem, 0x20_000D + b.size);
  }
}
