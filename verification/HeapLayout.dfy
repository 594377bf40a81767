/** What `_malloc`, `_free` and client writes do to the heap's layout. */
module HeapLayout {
  import opened Words
  import opened Bytes
  import opened OrderedArray
  import opened HeapBlocks

  lemma {:induction false} InvParts(hp: Heap, blocks: seq<Block>)
    requires Inv(hp, blocks)
    ensures Wf(hp) && Tiled(blocks, hp.top) && BlocksOk(hp.mem, blocks)
    ensures Permutes(hp.index, blocks) && Ordered(hp.index, SizeGreater(hp.mem))
    ensures DATA_START + 25 * |blocks| <= hp.top
    ensures forall i | 0 <= i < |blocks| :: DATA_START <= blocks[i].hdr && End(blocks[i]) <= hp.top
    ensures Apart(blocks)
  {
    TiledBounds(blocks, hp.top);
  }

  lemma {:induction false} InvMade(hp: Heap, blocks: seq<Block>)
    requires Wf(hp) && Tiled(blocks, hp.top) && BlocksOk(hp.mem, blocks)
    requires Permutes(hp.index, blocks) && Ordered(hp.index, SizeGreater(hp.mem))
    ensures Inv(hp, blocks)
  {
  }

  /** Header and footer of `b` read the same from both memories. */
  predicate SameFrame(mem: seq<byte>, mem1: seq<byte>, b: Block) {
    && Agree(mem, mem1, b.hdr, b.hdr + HEADER)
    && Agree(mem, mem1, FooterAt(b), FooterAt(b) + FOOTER)
  }

  lemma {:induction false} BlockKept(mem: seq<byte>, mem1: seq<byte>, b: Block)
    requires BlockOk(mem, b) && SameFrame(mem, mem1, b)
    ensures BlockOk(mem1, b)
  {
    LoadFrame(mem, mem1, b.hdr, 4);
    LoadFrame(mem, mem1, b.hdr + 4, 1);
    LoadFrame(mem, mem1, b.hdr + 5, 8);
    LoadFrame(mem, mem1, FooterAt(b), 4);
    LoadFrame(mem, mem1, FooterAt(b) + 4, 8);
  }

  // The index.

  /** Every entry of the index is the header of a block and every block has one. */
  lemma {:induction false} IndexMembers(index: seq<u64>, blocks: seq<Block>)
    requires Permutes(index, blocks)
    ensures |index| == |blocks|
    ensures forall x | x in index :: exists k | 0 <= k < |blocks| :: x == HeaderAddr(blocks[k])
    ensures forall k | 0 <= k < |blocks| :: HeaderAddr(blocks[k]) in index
  {
    assert |multiset(index)| == |multiset(Headers(blocks))|;
    forall x | x in index
      ensures exists k | 0 <= k < |blocks| :: x == HeaderAddr(blocks[k])
    {
      assert x in multiset(index);
      assert x in Headers(blocks);
    }
    forall k | 0 <= k < |blocks|
      ensures HeaderAddr(blocks[k]) in index
    {
      assert Headers(blocks)[k] in multiset(Headers(blocks));
      assert HeaderAddr(blocks[k]) in multiset(index);
    }
  }

  lemma {:induction false} FieldsOfBlock(mem: seq<byte>, b: Block)
    requires BlockOk(mem, b)
    ensures InHeap(HeaderAddr(b), HEADER)
    ensures Field(mem, HeaderAddr(b), 4) == HEAP_CRC
    ensures Field(mem, HeaderAddr(b) as int + 4, 1) == (if b.avail then HEAD_AVAILABLE else HEAD_IN_USE)
    ensures BlockSize(mem, HeaderAddr(b)) == b.size + FOOTER
  {
  }

  lemma {:induction false} SizesCompare(mem: seq<byte>)
    requires |mem| == HEAP_SIZE
    ensures Comparison(SizeGreater(mem))
  {
  }

  predicate Fits(b: Block, size: u64) {
    b.avail && b.size >= size
  }

  predicate Hit(mem: seq<byte>, index: seq<u64>, size: u64, j: nat)
    requires |mem| == HEAP_SIZE
  {
    && j < |index|
    && Field(mem, index[j] as int + 4, 1) == HEAD_AVAILABLE
    && (BlockSize(mem, index[j]) - FOOTER) % TWO_64 >= size
  }

  lemma {:induction false} FindFromIsFirst(mem: seq<byte>, index: seq<u64>, size: u64, i: nat)
    requires |mem| == HEAP_SIZE
    ensures match FindFrom(mem, index, size, i)
            case None => forall j: nat | i <= j :: !Hit(mem, index, size, j)
            case Some(r) => Hit(mem, index, size, r) && forall j: nat | i <= j < r :: !Hit(mem, index, size, j)
    decreases |index| - i
  {
    hide Field, BlockSize;
    if i >= |index| {
    } else {
      FindFromIsFirst(mem, index, size, i + 1);
    }
  }

  lemma {:induction false} HitIsFit(mem: seq<byte>, index: seq<u64>, size: u64, j: nat, b: Block)
    requires BlockOk(mem, b) && j < |index| && index[j] == HeaderAddr(b)
    ensures Hit(mem, index, size, j) == Fits(b, size)
    ensures BlockSize(mem, index[j]) == b.size + FOOTER
  {
    FieldsOfBlock(mem, b);
    BlockBounds(mem, b);
    SmallMod(b.size);
    hide Field, BlockSize, BlockOk;
  }

  lemma {:induction false} SmallMod(x: nat)
    requires x < TWO_64
    ensures x % TWO_64 == x
  {
  }

  /** Where the index has each block's header. */
  lemma {:induction false} IndexOf(hp: Heap, blocks: seq<Block>, k: nat) returns (i: nat)
    requires Inv(hp, blocks) && k < |blocks|
    ensures i < |hp.index| && hp.index[i] == HeaderAddr(blocks[k])
  {
    IndexMembers(hp.index, blocks);
    i :| 0 <= i < |hp.index| && hp.index[i] == HeaderAddr(blocks[k]);
  }

  lemma {:induction false} BlockAt(hp: Heap, blocks: seq<Block>, i: nat) returns (k: nat)
    requires Inv(hp, blocks) && i < |hp.index|
    ensures k < |blocks| && hp.index[i] == HeaderAddr(blocks[k])
  {
    IndexMembers(hp.index, blocks);
    assert hp.index[i] in hp.index;
    k :| 0 <= k < |blocks| && hp.index[i] == HeaderAddr(blocks[k]);
  }

  /** The scan takes the first fit of a list sorted by size, which is a best fit: an available block
      that holds `size` bytes and is smallest among all that do; none is returned only if none fits. */
  lemma {:induction false} FindIsBestFit(hp: Heap, blocks: seq<Block>, size: u64) returns (k: nat)
    requires Inv(hp, blocks)
    ensures match FindFrom(hp.mem, hp.index, size, 0)
            case None => forall j | 0 <= j < |blocks| :: !Fits(blocks[j], size)
            case Some(i) =>
              && k < |blocks| && hp.index[i] == HeaderAddr(blocks[k]) && Fits(blocks[k], size)
              && forall j | 0 <= j < |blocks| && Fits(blocks[j], size) :: blocks[k].size <= blocks[j].size
  {
    k := 0;
    FindFromIsFirst(hp.mem, hp.index, size, 0);
    hide FindFrom, Hit, Fits, BlockOk, BlockSize, Tiled;
    match FindFrom(hp.mem, hp.index, size, 0) {
      case None =>
        forall j | 0 <= j < |blocks|
          ensures !Fits(blocks[j], size)
        {
          var i' := IndexOf(hp, blocks, j);
          HitIsFit(hp.mem, hp.index, size, i', blocks[j]);
        }
      case Some(i) =>
        k := BlockAt(hp, blocks, i);
        HitIsFit(hp.mem, hp.index, size, i, blocks[k]);
        forall j | 0 <= j < |blocks| && Fits(blocks[j], size)
          ensures blocks[k].size <= blocks[j].size
        {
          var i' := IndexOf(hp, blocks, j);
          HitIsFit(hp.mem, hp.index, size, i', blocks[j]);
          assert i < i' ==> !SizeGreater(hp.mem)(hp.index[i], hp.index[i']);
        }
    }
  }

  // A flag write: one block's availability changes, all else stays.

  lemma {:induction false} FlagWritten(hp: Heap, blocks: seq<Block>, k: nat, avail: bool)
    requires Inv(hp, blocks) && k < |blocks|
    ensures blocks[k].hdr + 5 <= HEAP_SIZE
    ensures Inv(hp.(mem := Store(hp.mem, blocks[k].hdr + 4, 1, if avail then HEAD_AVAILABLE else HEAD_IN_USE)),
                blocks[k := blocks[k].(avail := avail)])
  {
    hide Inv, Store, BlockOk, Agree;
    BlockIsOk(hp, blocks, k);
    var b := blocks[k];
    var flag := if avail then HEAD_AVAILABLE else HEAD_IN_USE;
    FlagAgrees(hp.mem, b, flag);
    FlagOfBlock(hp.mem, b, avail);
    BlockChanged(hp, blocks, k, b.(avail := avail), Store(hp.mem, b.hdr + 4, 1, flag));
  }

  lemma {:induction false} FlagAgrees(mem: seq<byte>, b: Block, flag: nat)
    requires |mem| == HEAP_SIZE && End(b) <= HEAP_SIZE
    ensures var mem1 := Store(mem, b.hdr + 4, 1, flag);
            && Agree(mem, mem1, 0, b.hdr) && Agree(mem, mem1, End(b), HEAP_SIZE)
            && Agree(mem, mem1, b.hdr + 5, b.hdr + HEADER)
  {
    hide Store;
    StoreFrame(mem, b.hdr + 4, 1, flag);
  }

  /** Memory written inside block `k` only, outside its size field: the other blocks, the tiling and
      the index are as before. */
  lemma {:induction false} BlockChanged(hp: Heap, blocks: seq<Block>, k: nat, b: Block, mem1: seq<byte>)
    requires Inv(hp, blocks) && k < |blocks| && b == blocks[k].(avail := b.avail)
    requires BlockOk(mem1, b)
    requires Agree(hp.mem, mem1, 0, b.hdr) && End(b) <= HEAP_SIZE && Agree(hp.mem, mem1, End(b), HEAP_SIZE)
    requires Agree(hp.mem, mem1, b.hdr + 5, b.hdr + HEADER)
    ensures Inv(hp.(mem := mem1), blocks[k := b])
  {
    hide Inv, Tiled, BlockOk, SizeGreater, Headers, Agree, Ordered, Permutes, BlocksOk;
    InvParts(hp, blocks);
    BlockBounds(mem1, b);
    TiledUpdate(blocks, hp.top, k, b.avail);
    SameHeaders(hp.index, blocks, k, b);
    OthersKept(hp.mem, mem1, blocks, k, b);
    SizesKept(hp.mem, mem1, hp.index, blocks);
    InvMade(hp.(mem := mem1), blocks[k := b]);
  }

  predicate Apart(blocks: seq<Block>) {
    forall i, j | 0 <= i < j < |blocks| :: End(blocks[i]) <= blocks[j].hdr
  }

  predicate SizeFieldsKept(mem: seq<byte>, mem1: seq<byte>, blocks: seq<Block>) {
    forall j | 0 <= j < |blocks| :: Agree(mem, mem1, blocks[j].hdr + 5, blocks[j].hdr + HEADER)
  }

  lemma {:induction false} OthersKept(mem: seq<byte>, mem1: seq<byte>, blocks: seq<Block>, k: nat, b: Block)
    requires BlocksOk(mem, blocks) && Apart(blocks) && k < |blocks| && b == blocks[k].(avail := b.avail)
    requires BlockOk(mem1, b)
    requires Agree(mem, mem1, 0, b.hdr) && End(b) <= HEAP_SIZE && Agree(mem, mem1, End(b), HEAP_SIZE)
    requires Agree(mem, mem1, b.hdr + 5, b.hdr + HEADER)
    ensures BlocksOk(mem1, blocks[k := b]) && SizeFieldsKept(mem, mem1, blocks)
  {
    hide BlockOk, Agree;
    forall j | 0 <= j < |blocks| && j != k
      ensures BlockOk(mem1, blocks[j]) && Agree(mem, mem1, blocks[j].hdr + 5, blocks[j].hdr + HEADER)
    {
      OtherBlockKept(mem, mem1, blocks[j], b);
    }
  }

  lemma {:induction false} SameHeaders(index: seq<u64>, blocks: seq<Block>, k: nat, b: Block)
    requires k < |blocks| && b == blocks[k].(avail := b.avail) && Permutes(index, blocks)
    ensures Permutes(index, blocks[k := b])
  {
    assert Headers(blocks[k := b]) == Headers(blocks);
  }

  lemma {:induction false} OtherBlockKept(mem: seq<byte>, mem1: seq<byte>, c: Block, b: Block)
    requires BlockOk(mem, c) && (End(c) <= b.hdr || End(b) <= c.hdr)
    requires Agree(mem, mem1, 0, b.hdr) && End(b) <= HEAP_SIZE && Agree(mem, mem1, End(b), HEAP_SIZE)
    ensures BlockOk(mem1, c) && Agree(mem, mem1, c.hdr + 5, c.hdr + HEADER)
  {
    BlockBounds(mem, c);
    hide BlockOk;
    BlockKept(mem, mem1, c);
  }

  lemma {:induction false} BlockBounds(mem: seq<byte>, b: Block)
    requires BlockOk(mem, b)
    ensures |mem| == HEAP_SIZE && End(b) <= HEAP_SIZE
  {
  }

  lemma {:induction false} FlagOfBlock(mem: seq<byte>, b: Block, avail: bool)
    requires BlockOk(mem, b)
    ensures BlockOk(Store(mem, b.hdr + 4, 1, if avail then HEAD_AVAILABLE else HEAD_IN_USE), b.(avail := avail))
  {
    var flag := if avail then HEAD_AVAILABLE else HEAD_IN_USE;
    Widths();
    hide Load, Store, Pow256;
    LoadStored(mem, b.hdr + 4, 1, flag);
    LoadAfterStore(mem, b.hdr, 4, b.hdr + 4, 1, flag);
    LoadAfterStore(mem, b.hdr + 5, 8, b.hdr + 4, 1, flag);
    LoadAfterStore(mem, FooterAt(b), 4, b.hdr + 4, 1, flag);
    LoadAfterStore(mem, FooterAt(b) + 4, 8, b.hdr + 4, 1, flag);
  }

  /** The order of the index depends on the size fields of its blocks only. */
  lemma {:induction false} SizesKept(mem: seq<byte>, mem1: seq<byte>, index: seq<u64>, blocks: seq<Block>)
    requires |mem| == |mem1| == HEAP_SIZE && BlocksOk(mem, blocks)
    requires Permutes(index, blocks) && Ordered(index, SizeGreater(mem))
    requires SizeFieldsKept(mem, mem1, blocks)
    ensures Ordered(index, SizeGreater(mem1))
  {
    IndexMembers(index, blocks);
    hide Headers, Agree, Load, BlockOk, Permutes;
    forall x | x in index
      ensures BlockSize(mem1, x) == BlockSize(mem, x)
    {
      var j :| 0 <= j < |blocks| && x == HeaderAddr(blocks[j]);
      BlockBounds(mem, blocks[j]);
      SizeKept(mem, mem1, blocks[j]);
    }
  }

  lemma {:induction false} SizeKept(mem: seq<byte>, mem1: seq<byte>, b: Block)
    requires |mem| == |mem1| == HEAP_SIZE && End(b) <= HEAP_SIZE
    requires Agree(mem, mem1, b.hdr + 5, b.hdr + HEADER)
    ensures BlockSize(mem1, HeaderAddr(b)) == BlockSize(mem, HeaderAddr(b))
  {
    LoadFrame(mem, mem1, b.hdr + 5, 8);
  }

  /** A client's byte written inside a block's payload. */
  lemma {:induction false} PayloadWritten(hp: Heap, blocks: seq<Block>, k: nat, o: nat, v: byte)
    requires Inv(hp, blocks) && k < |blocks| && o < blocks[k].size
    ensures Payload(blocks[k]) + o < HEAP_SIZE
    ensures Inv(hp.(mem := hp.mem[Payload(blocks[k]) + o := v]), blocks)
  {
    hide BlockOk, Inv, Agree;
    var b := blocks[k];
    BlockIsOk(hp, blocks, k);
    ByteWritten(hp.mem, b, o, v);
    BlockChanged(hp, blocks, k, b, hp.mem[Payload(b) + o := v]);
    assert blocks[k := b] == blocks;
  }

  lemma {:induction false} ByteWritten(mem: seq<byte>, b: Block, o: nat, v: byte)
    requires BlockOk(mem, b) && End(b) <= HEAP_SIZE && o < b.size
    ensures var mem1 := mem[Payload(b) + o := v];
            && BlockOk(mem1, b)
            && Agree(mem, mem1, 0, b.hdr) && Agree(mem, mem1, End(b), HEAP_SIZE)
            && Agree(mem, mem1, b.hdr + 5, b.hdr + HEADER)
  {
    BlockBounds(mem, b);
    hide BlockOk;
    BlockKept(mem, mem[Payload(b) + o := v], b);
  }

  // A new block.

  /** A size whose total does not wrap. */
  lemma {:induction false} TotalSizeIs(size: u64)
    ensures TotalSize(size) == size + HEADER + FOOTER <==> size + HEADER + FOOTER < TWO_64
    ensures size + HEADER + FOOTER < TWO_64 ==> (size + FOOTER) % TWO_64 == size + FOOTER
  {
  }

  lemma {:induction false} NewBlockOk(mem: seq<byte>, h: Offset, size: nat)
    requires |mem| == HEAP_SIZE && FOOTER <= h && h + HEADER + size + FOOTER <= HEAP_SIZE
    ensures HasPlace(h, size) && BlockOk(NewBlock(mem, h, size), Block(h, size, false))
    ensures Agree(mem, NewBlock(mem, h, size), 0, h)
  {
    TotalSizeIs(size);
    hide TotalSize;
    var f := h + HEADER + size;
    var m1 := Store(mem, h, 4, HEAP_CRC);
    var m2 := Store(m1, h + 4, 1, HEAD_IN_USE);
    var m3 := Store(m2, f, 4, HEAP_CRC);
    var m4 := Store(m3, f + 4, 8, HEAP_BASE + h);
    hide Load, Store, Pow256;
    StoreFrame(mem, h, 4, HEAP_CRC);
    StoreFrame(m1, h + 4, 1, HEAD_IN_USE);
    StoreFrame(m2, f, 4, HEAP_CRC);
    StoreFrame(m3, f + 4, 8, HEAP_BASE + h);
    StoreFrame(m4, h + 5, 8, size + FOOTER);
    HeaderStored(mem, h);
    FooterStored(m2, h, f);
    SizeStored(m4, h, f, size);
  }

  /** The footer stores leave the header's fields as they were. */
  lemma {:induction false} FooterStored(m2: seq<byte>, h: Offset, f: nat)
    requires |m2| == HEAP_SIZE && h + HEADER <= f && f + FOOTER <= HEAP_SIZE
    ensures var m4 := Store(Store(m2, f, 4, HEAP_CRC), f + 4, 8, HEAP_BASE + h);
            && Load(m4, f, 4) == HEAP_CRC && Load(m4, f + 4, 8) == HEAP_BASE + h
            && Load(m4, h, 4) == Load(m2, h, 4) && Load(m4, h + 4, 1) == Load(m2, h + 4, 1)
  {
    var m3 := Store(m2, f, 4, HEAP_CRC);
    Widths();
    hide Load, Store, Pow256;
    LoadStored(m2, f, 4, HEAP_CRC);
    LoadStored(m3, f + 4, 8, HEAP_BASE + h);
    LoadAfterStore(m2, h, 4, f, 4, HEAP_CRC);
    LoadAfterStore(m2, h + 4, 1, f, 4, HEAP_CRC);
    LoadAfterStore(m3, h, 4, f + 4, 8, HEAP_BASE + h);
    LoadAfterStore(m3, h + 4, 1, f + 4, 8, HEAP_BASE + h);
    LoadAfterStore(m3, f, 4, f + 4, 8, HEAP_BASE + h);
  }

  lemma {:induction false} SizeStored(m4: seq<byte>, h: Offset, f: nat, size: nat)
    requires |m4| == HEAP_SIZE && h + HEADER <= f && f + FOOTER <= HEAP_SIZE && size <= HEAP_SIZE
    ensures var m5 := Store(m4, h + 5, 8, size + FOOTER);
            && Load(m5, h + 5, 8) == size + FOOTER
            && Load(m5, h, 4) == Load(m4, h, 4) && Load(m5, h + 4, 1) == Load(m4, h + 4, 1)
            && Load(m5, f, 4) == Load(m4, f, 4) && Load(m5, f + 4, 8) == Load(m4, f + 4, 8)
  {
    Widths();
    hide Load, Store, Pow256;
    LoadStored(m4, h + 5, 8, size + FOOTER);
    LoadAfterStore(m4, h, 4, h + 5, 8, size + FOOTER);
    LoadAfterStore(m4, h + 4, 1, h + 5, 8, size + FOOTER);
    LoadAfterStore(m4, f, 4, h + 5, 8, size + FOOTER);
    LoadAfterStore(m4, f + 4, 8, h + 5, 8, size + FOOTER);
  }

  lemma {:induction false} Widths()
    ensures Pow256(1) == 0x100 && Pow256(4) == 0x1_0000_0000 && Pow256(8) == TWO_64 && Pow256(3) == 0x100_0000
  {
    assert Pow256(2) == 0x1_0000;
    assert Pow256(6) == 0x1_0000_0000_0000;
  }

  lemma {:induction false} HeaderStored(mem: seq<byte>, h: nat)
    requires |mem| == HEAP_SIZE && h + HEADER <= HEAP_SIZE
    ensures var m2 := Store(Store(mem, h, 4, HEAP_CRC), h + 4, 1, HEAD_IN_USE);
            Load(m2, h, 4) == HEAP_CRC && Load(m2, h + 4, 1) == HEAD_IN_USE
  {
    var m1 := Store(mem, h, 4, HEAP_CRC);
    Widths();
    LoadStored(mem, h, 4, HEAP_CRC);
    LoadStored(m1, h + 4, 1, HEAD_IN_USE);
    LoadAfterStore(m1, h, 4, h + 4, 1, HEAD_IN_USE);
  }

  lemma {:induction false} BlockAppended(hp: Heap, blocks: seq<Block>, size: nat)
    requires Inv(hp, blocks) && hp.top + HEADER + size + FOOTER <= HEAP_SIZE
    ensures HasPlace(hp.top, size)
    ensures var mem1 := NewBlock(hp.mem, hp.top, size);
            Inv(Heap(mem1, hp.top + HEADER + size + FOOTER, Insert(hp.index, HEAP_BASE + hp.top, SizeGreater(mem1))),
                blocks + [Block(hp.top, size, false)])
  {
    NewBlockOk(hp.mem, hp.top, size);
    var mem1 := NewBlock(hp.mem, hp.top, size);
    hide NewBlock;
    MemoryAppended(hp, blocks, size, mem1);
  }

  lemma {:induction false} MemoryAppended(hp: Heap, blocks: seq<Block>, size: nat, mem1: seq<byte>)
    requires Inv(hp, blocks) && hp.top + HEADER + size + FOOTER <= HEAP_SIZE
    requires BlockOk(mem1, Block(hp.top, size, false)) && Agree(hp.mem, mem1, 0, hp.top)
    ensures Inv(Heap(mem1, hp.top + HEADER + size + FOOTER, Insert(hp.index, HEAP_BASE + hp.top, SizeGreater(mem1))),
                blocks + [Block(hp.top, size, false)])
  {
    hide Inv, Insert, Tiled, BlockOk, SizeGreater, Comparison, Ordered, Headers, Agree, Permutes, BlocksOk;
    InvParts(hp, blocks);
    var b := Block(hp.top, size, false);
    BlockBounds(mem1, b);
    var index1 := Insert(hp.index, HEAP_BASE + hp.top, SizeGreater(mem1));
    TiledAppend(blocks, b);
    BlocksBelowKept(hp.mem, mem1, blocks, hp.top);
    BlocksAppend(mem1, blocks, b);
    SizesKept(hp.mem, mem1, hp.index, blocks);
    SizesCompare(mem1);
    InsertKeepsOrder(hp.index, HEAP_BASE + hp.top, SizeGreater(mem1));
    HeadersAppend(hp.index, blocks, b, index1);
    InvMade(Heap(mem1, hp.top + HEADER + size + FOOTER, index1), blocks + [b]);
  }

  lemma {:induction false} BlocksAppend(mem: seq<byte>, blocks: seq<Block>, b: Block)
    requires BlocksOk(mem, blocks) && BlockOk(mem, b)
    ensures BlocksOk(mem, blocks + [b])
  {
    hide BlockOk;
  }

  lemma {:induction false} BlocksBelowKept(mem: seq<byte>, mem1: seq<byte>, blocks: seq<Block>, h: nat)
    requires BlocksOk(mem, blocks) && Agree(mem, mem1, 0, h)
    requires forall j | 0 <= j < |blocks| :: End(blocks[j]) <= h
    ensures BlocksOk(mem1, blocks) && SizeFieldsKept(mem, mem1, blocks)
  {
    hide BlockOk, Agree;
    forall j | 0 <= j < |blocks|
      ensures BlockOk(mem1, blocks[j]) && Agree(mem, mem1, blocks[j].hdr + 5, blocks[j].hdr + HEADER)
    {
      BlockBelowKept(mem, mem1, blocks[j], h);
    }
  }

  lemma {:induction false} BlockBelowKept(mem: seq<byte>, mem1: seq<byte>, c: Block, h: nat)
    requires BlockOk(mem, c) && End(c) <= h && Agree(mem, mem1, 0, h)
    ensures BlockOk(mem1, c) && Agree(mem, mem1, c.hdr + 5, c.hdr + HEADER)
  {
    hide BlockOk;
    BlockKept(mem, mem1, c);
  }

  lemma {:induction false} TiledAppend(blocks: seq<Block>, b: Block)
    requires Tiled(blocks, b.hdr)
    ensures Tiled(blocks + [b], End(b))
  {
    assert (blocks + [b])[..|blocks|] == blocks;
  }

  lemma {:induction false} HeadersAppend(index: seq<u64>, blocks: seq<Block>, b: Block, index1: seq<u64>)
    requires Permutes(index, blocks) && multiset(index1) == multiset(index) + multiset{HeaderAddr(b)}
    ensures Permutes(index1, blocks + [b])
  {
    assert Headers(blocks + [b]) == Headers(blocks) + [HeaderAddr(b)];
  }

  // The two operations.

  /** `_malloc` stops the kernel exactly when no available block fits and the block it would make has no
      place: the index never fills and no assertion fails. Otherwise it appends a block, or reuses a
      smallest one that fits; a block whose total size wraps is left to `HeapRuns`. */
  lemma {:induction false} MallocOk(reuse: nat, hp: Heap, blocks: seq<Block>, size: u64)
      returns (blocks1: seq<Block>, k: nat)
    requires Inv(hp, blocks) && reuse <= HEADER
    requires forall h | h in hp.index :: h + reuse < TWO_64
    ensures Malloc(reuse, hp, size).Halt? <==>
              (forall j | 0 <= j < |blocks| :: !Fits(blocks[j], size)) && !HasPlace(hp.top, size)
    ensures size + HEADER + FOOTER < TWO_64 ==>
              (HasPlace(hp.top, size) <==> size + HEADER + FOOTER <= HEAP_SIZE - hp.top)
    ensures Malloc(reuse, hp, size).Ok? && FindFrom(hp.mem, hp.index, size, 0) == None &&
            size + HEADER + FOOTER < TWO_64 ==>
              var (hp1, p) := Malloc(reuse, hp, size).value;
              && Inv(hp1, blocks1) && blocks1 == blocks + [Block(hp.top, size, false)] && k == |blocks|
              && p == HEAP_BASE + Payload(blocks1[k])
    ensures FindFrom(hp.mem, hp.index, size, 0).Some? ==>
              && Malloc(reuse, hp, size).Ok?
              && var (hp1, p) := Malloc(reuse, hp, size).value;
              && Inv(hp1, blocks1) && k < |blocks| && Fits(blocks[k], size)
              && blocks1 == blocks[k := blocks[k].(avail := false)]
              && (forall j | 0 <= j < |blocks| && Fits(blocks[j], size) :: blocks[k].size <= blocks[j].size)
              && p == HeaderAddr(blocks[k]) + reuse
  {
    TotalSizeIs(size);
    hide Inv, FindFrom, Tiled, BlockOk, Field, NewBlock, Insert, Store, SizeGreater, Headers, Fits, Ordered,
      Permutes, TotalSize;
    blocks1 := blocks;
    k := FindIsBestFit(hp, blocks, size);
    InvParts(hp, blocks);
    IndexMembers(hp.index, blocks);
    match FindFrom(hp.mem, hp.index, size, 0) {
      case None =>
        if size + HEADER + FOOTER <= HEAP_SIZE - hp.top {
          BlockAppended(hp, blocks, size);
          blocks1, k := blocks + [Block(hp.top, size, false)], |blocks|;
        }
      case Some(i) =>
        BlockIsOk(hp, blocks, k);
        FieldsOfBlock(hp.mem, blocks[k]);
        FitsHolds(blocks[k], size);
        FlagWritten(hp, blocks, k, false);
        blocks1 := blocks[k := blocks[k].(avail := false)];
    }
  }

  lemma {:induction false} FitsHolds(b: Block, size: u64)
    requires Fits(b, size)
    ensures b.avail && b.size >= size
  {
  }

  /** `_free` of the null address returns and does nothing. */
  lemma {:induction false} FreeOfNull(hp: Heap)
    requires Wf(hp)
    ensures Free(hp, 0) == Ok(hp)
  {
  }

  /** `_free` of a block's payload address passes every check and marks exactly that block. */
  lemma {:induction false} FreeOk(hp: Heap, blocks: seq<Block>, k: nat)
    requires Inv(hp, blocks) && k < |blocks|
    ensures Payload(blocks[k]) <= HEAP_SIZE
    ensures Free(hp, HEAP_BASE + Payload(blocks[k])).Ok?
    ensures Inv(Free(hp, HEAP_BASE + Payload(blocks[k])).value, blocks[k := blocks[k].(avail := true)])
  {
    hide Inv, BlockOk, Field, BlockSize, Store;
    var b := blocks[k];
    BlockIsOk(hp, blocks, k);
    FieldsOfBlock(hp.mem, b);
    FooterOfBlock(hp.mem, b);
    FlagWritten(hp, blocks, k, true);
    var addr := HEAP_BASE + Payload(b);
    assert addr - HEADER == HeaderAddr(b);
    SmallMod(HEAP_BASE + FooterAt(b));
    assert addr + BlockSize(hp.mem, HeaderAddr(b)) - FOOTER == HEAP_BASE + FooterAt(b);
  }

  lemma {:induction false} BlockIsOk(hp: Heap, blocks: seq<Block>, k: nat)
    requires Inv(hp, blocks) && k < |blocks|
    ensures BlockOk(hp.mem, blocks[k]) && End(blocks[k]) <= HEAP_SIZE
  {
  }

  lemma {:induction false} FooterOfBlock(mem: seq<byte>, b: Block)
    requires BlockOk(mem, b)
    ensures InHeap(HEAP_BASE + FooterAt(b), FOOTER)
    ensures Field(mem, HEAP_BASE + FooterAt(b), 4) == HEAP_CRC
    ensures Field(mem, HEAP_BASE + FooterAt(b) + 4, 8) == HeaderAddr(b)
  {
  }
}
