/** The kernel heap as functions on its bytes, and the layout they keep. */
module HeapBlocks {
  import opened Words
  import opened Bytes
  import opened OrderedArray

  const HEAP_BASE: u64 := 0xFFFF_FFFF_B000_0000
  const HEAP_SIZE: nat := 0x80_0000

  /** Where blocks begin: the index takes one 2 MiB page from the bump pointer first. */
  const DATA_START: nat := 0x20_0000
  const INDEX_SLOTS: nat := 262138

  /** Offsets into the heap. */
  type Offset = x: int | 0 <= x <= HEAP_SIZE

  const HEADER: nat := 13
  const FOOTER: nat := 12
  const HEAP_CRC: nat := 0xD515_DEAD
  const HEAD_AVAILABLE: nat := 0xFF
  const HEAD_IN_USE: nat := 0

  /** The heap's bytes, the bump pointer as an offset into them, and the index of headers. */
  datatype Heap = Heap(mem: seq<byte>, top: Offset, index: seq<u64>)

  predicate Wf(hp: Heap) {
    |hp.mem| == HEAP_SIZE && DATA_START <= hp.top <= HEAP_SIZE
  }

  /** `n` bytes at address `a` lie in the heap. */
  predicate InHeap(a: int, n: nat) {
    HEAP_BASE <= a && a - HEAP_BASE + n <= HEAP_SIZE
  }

  function Field(mem: seq<byte>, a: int, n: nat): nat
    requires |mem| == HEAP_SIZE
  {
    if InHeap(a, n) then Load(mem, a - HEAP_BASE, n) else 0
  }

  function BlockSize(mem: seq<byte>, header: int): nat
    requires |mem| == HEAP_SIZE
  {
    Field(mem, header + 5, 8)
  }

  /** `alloc_greater` */
  function SizeGreater(mem: seq<byte>): Greater
    requires |mem| == HEAP_SIZE
  {
    (a, b) => BlockSize(mem, a) > BlockSize(mem, b)
  }

  /** The first position at or after `i` whose block is available and holds `size` bytes. */
  function FindFrom(mem: seq<byte>, index: seq<u64>, size: u64, i: nat): (r: Option<nat>)
    requires |mem| == HEAP_SIZE
    ensures r.Some? ==> i <= r.value < |index|
    decreases |index| - i
  {
    if i >= |index| then None
    else if Field(mem, index[i] as int + 4, 1) == HEAD_AVAILABLE
      && (BlockSize(mem, index[i]) - FOOTER) % TWO_64 >= size then Some(i)
    else FindFrom(mem, index, size, i + 1)
  }

  /** `get_total_block_size`, which wraps for sizes in the last 25 bytes below 2^64. */
  function TotalSize(size: u64): u64 {
    (size + HEADER + FOOTER) % TWO_64
  }

  /** Header and total size lie in the heap, and so does a footer at the end of the total size. */
  predicate HasPlace(h: int, size: u64) {
    FOOTER <= h && h + HEADER <= HEAP_SIZE && h + TotalSize(size) <= HEAP_SIZE
  }

  /** `create_heap_block` at offset `h`. */
  function NewBlock(mem: seq<byte>, h: int, size: u64): (r: seq<byte>)
    requires |mem| == HEAP_SIZE && HasPlace(h, size)
    ensures |r| == HEAP_SIZE
  {
    var f := h + TotalSize(size) - FOOTER;
    var m1 := Store(mem, h, 4, HEAP_CRC);
    var m2 := Store(m1, h + 4, 1, HEAD_IN_USE);
    var m3 := Store(m2, f, 4, HEAP_CRC);
    var m4 := Store(m3, f + 4, 8, HEAP_BASE + h);
    Store(m4, h + 5, 8, (size + FOOTER) % TWO_64)
  }

  /** `_malloc`. `reuse` is what the path that reuses a freed block adds to its header: 8 as written
      (`sizeof` of the pointer), 13 for the payload. The footer assertion of `create_heap_block` is
      part of the outcome. */
  function Malloc(reuse: nat, hp: Heap, size: u64): (r: Outcome<(Heap, u64)>)
    requires Wf(hp) && reuse <= HEADER
    requires forall h | h in hp.index :: h + reuse < TWO_64
    ensures r.Ok? ==> Wf(r.value.0)
  {
    match FindFrom(hp.mem, hp.index, size, 0)
    case None =>
      var total := TotalSize(size);
      if total > HEAP_SIZE - hp.top then Halt
      else if hp.top + total - FOOTER >= HEAP_SIZE || hp.top + HEADER > HEAP_SIZE then Halt
      else
        var header := HEAP_BASE + hp.top;
        var mem1 := NewBlock(hp.mem, hp.top, size);
        if |hp.index| >= INDEX_SLOTS then Halt
        else Ok((Heap(mem1, hp.top + total, Insert(hp.index, header, SizeGreater(mem1))), header + HEADER))
    case Some(i) =>
      var header := hp.index[i];
      if !InHeap(header, HEADER) || Field(hp.mem, header, 4) != HEAP_CRC then Halt
      else Ok((hp.(mem := Store(hp.mem, header - HEAP_BASE + 4, 1, HEAD_IN_USE)), header + reuse))
  }

  /** `_free`; an address whose header or footer lies outside the heap also ends in `Halt`. */
  function Free(hp: Heap, addr: u64): (r: Outcome<Heap>)
    requires Wf(hp)
    ensures r.Ok? ==> Wf(r.value)
  {
    if addr == 0 then Ok(hp)
    else
      var header := addr - HEADER;
      if !InHeap(header, HEADER) then Halt
      else
        var footer := (addr + BlockSize(hp.mem, header) - FOOTER) % TWO_64;
        if !InHeap(footer, FOOTER) then Halt
        else if !(Field(hp.mem, header, 4) == Field(hp.mem, footer, 4) == HEAP_CRC) then Halt
        else if Field(hp.mem, footer + 4, 8) != header then Halt
        else Ok(hp.(mem := Store(hp.mem, header - HEAP_BASE + 4, 1, HEAD_AVAILABLE)))
  }

  // The layout.

  /** A block: header at offset `hdr`, then `size` payload bytes, then the footer. */
  datatype Block = Block(hdr: Offset, size: nat, avail: bool)

  function End(b: Block): nat {
    b.hdr + HEADER + b.size + FOOTER
  }

  function Payload(b: Block): nat {
    b.hdr + HEADER
  }

  function FooterAt(b: Block): nat {
    b.hdr + HEADER + b.size
  }

  /** The blocks, in order of creation, fill the range from `DATA_START` to `top` without gaps. */
  predicate Tiled(blocks: seq<Block>, top: nat) {
    if blocks == [] then top == DATA_START
    else
      var b := blocks[|blocks| - 1];
      End(b) == top && Tiled(blocks[..|blocks| - 1], b.hdr)
  }

  predicate BlockOk(mem: seq<byte>, b: Block) {
    && |mem| == HEAP_SIZE && End(b) <= HEAP_SIZE
    && Load(mem, b.hdr, 4) == HEAP_CRC
    && Load(mem, b.hdr + 4, 1) == (if b.avail then HEAD_AVAILABLE else HEAD_IN_USE)
    && Load(mem, b.hdr + 5, 8) == b.size + FOOTER
    && Load(mem, FooterAt(b), 4) == HEAP_CRC
    && Load(mem, FooterAt(b) + 4, 8) == HEAP_BASE + b.hdr
  }

  predicate BlocksOk(mem: seq<byte>, blocks: seq<Block>) {
    forall i | 0 <= i < |blocks| :: BlockOk(mem, blocks[i])
  }

  function HeaderAddr(b: Block): u64 {
    HEAP_BASE + b.hdr
  }

  function Headers(blocks: seq<Block>): seq<u64> {
    seq(|blocks|, i requires 0 <= i < |blocks| => HeaderAddr(blocks[i]))
  }

  ghost predicate Permutes(index: seq<u64>, blocks: seq<Block>) {
    multiset(index) == multiset(Headers(blocks))
  }

  /** At every reachable state: blocks tile the heap, every header and footer is intact, and the index
      is a permutation of the headers in ascending order of block size. */
  ghost predicate Inv(hp: Heap, blocks: seq<Block>) {
    && Wf(hp)
    && Tiled(blocks, hp.top)
    && BlocksOk(hp.mem, blocks)
    && Permutes(hp.index, blocks)
    && Ordered(hp.index, SizeGreater(hp.mem))
  }

  ghost predicate HasLayout(hp: Heap) {
    exists blocks :: Inv(hp, blocks)
  }

  lemma {:induction false} TiledBounds(blocks: seq<Block>, top: nat)
    requires Tiled(blocks, top)
    ensures DATA_START + 25 * |blocks| <= top
    ensures forall i | 0 <= i < |blocks| :: DATA_START <= blocks[i].hdr && End(blocks[i]) <= top
    ensures forall i, j | 0 <= i < j < |blocks| :: End(blocks[i]) <= blocks[j].hdr
  {
    if blocks == [] {
    } else {
      var n := |blocks| - 1;
      var front := blocks[..n];
      TiledBounds(front, blocks[n].hdr);
      hide Tiled;
      forall i | 0 <= i < n
        ensures front[i] == blocks[i]
      {
      }
    }
  }

  lemma {:induction false} TiledUpdate(blocks: seq<Block>, top: nat, k: nat, avail: bool)
    requires Tiled(blocks, top) && k < |blocks|
    ensures Tiled(blocks[k := blocks[k].(avail := avail)], top)
  {
    var last := |blocks| - 1;
    var blocks1 := blocks[k := blocks[k].(avail := avail)];
    if k < last {
      TiledUpdate(blocks[..last], blocks[last].hdr, k, avail);
      assert blocks1[..last] == blocks[..last][k := blocks[k].(avail := avail)];
    } else {
      assert blocks1[..last] == blocks[..last];
    }
  }
}
