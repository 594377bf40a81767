/** The kernel heap, editing its bytes and its index. */
module KHeap {
  import opened Words
  import opened Bytes
  import opened OrderedArray
  import opened HeapBlocks

  class KernelHeap {
    const mem: array<byte>
    const allocs: OArray
    const reuse: nat
    var top: Offset

    ghost predicate Ready()
      reads this, allocs
    {
      && mem.Length == HEAP_SIZE && DATA_START <= top
      && allocs.Valid() && allocs.items.Length == INDEX_SLOTS
      && reuse <= HEADER
    }

    ghost function State(): Heap
      requires allocs.Valid()
      reads this, mem, allocs, allocs.items
    {
      Heap(mem[..], top, allocs.Contents())
    }

    /** `kalloc_init`: the index is bootstrapped from the bump pointer, then stays empty. */
    constructor (mem: array<byte>, reuse: nat)
      requires mem.Length == HEAP_SIZE && reuse <= HEADER
      ensures Ready() && this.mem == mem && this.reuse == reuse
      ensures State() == Heap(mem[..], DATA_START, [])
      ensures fresh(allocs) && fresh(allocs.items)
    {
      this.mem := mem;
      this.reuse := reuse;
      top := DATA_START;
      allocs := new OArray(INDEX_SLOTS);
    }

    /** Stores the low `n` bytes of `v`. */
    method Put(a: nat, n: nat, v: nat)
      requires a + n <= mem.Length
      modifies mem
      ensures mem[..] == Store(old(mem[..]), a, n, v)
    {
      ghost var goal := Store(mem[..], a, n, v);
      var i, rest := 0, v;
      while i < n
        invariant i <= n
        invariant Store(mem[..], a + i, n - i, rest) == goal
      {
        mem[a + i] := rest % 256;
        rest := rest / 256;
        i := i + 1;
      }
    }

    method CreateHeapBlock(addr: Offset, memSize: u64) returns (ok: bool, end: nat)
      requires mem.Length == HEAP_SIZE && HasPlace(addr, memSize)
      modifies mem
      ensures ok && end == addr + TotalSize(memSize)
      ensures mem[..] == NewBlock(old(mem[..]), addr, memSize)
    {
      hide Store;
      Put(addr, 4, HEAP_CRC);
      Put(addr + 4, 1, HEAD_IN_USE);
      var footer := (HEAP_BASE + addr + memSize + HEADER) % TWO_64 - HEAP_BASE;
      FooterPlace(addr, memSize);
      ok := footer < HEAP_SIZE;
      Put(footer, 4, HEAP_CRC);
      Put(footer + 4, 8, HEAP_BASE + addr);
      Put(addr + 5, 8, (memSize + FOOTER) % TWO_64);
      end := footer + FOOTER;
    }

    method FindBestFreeSpace(size: u64) returns (space: Option<nat>)
      requires Ready()
      ensures space == FindFrom(mem[..], allocs.Contents(), size, 0)
    {
      ghost var bytes, index := mem[..], allocs.Contents();
      var itr := 0;
      while itr < allocs.idx
        invariant itr <= allocs.idx
        invariant FindFrom(bytes, index, size, itr) == FindFrom(bytes, index, size, 0)
      {
        var header := allocs.Get(itr, 0); // below the count, so not the word behind the storage
        assert header == index[itr];
        if Field(mem[..], header as int + 4, 1) == HEAD_AVAILABLE {
          if (BlockSize(mem[..], header) - FOOTER) % TWO_64 >= size {
            return Some(itr);
          }
        }
        itr := itr + 1;
      }
      return None;
    }

    /** `ok` is false when the kernel panics or an assertion fails. */
    method KMalloc(size: u64) returns (ok: bool, p: u64)
      requires Ready()
      requires forall h | h in allocs.Contents() :: h + reuse < TWO_64
      modifies this, mem, allocs, allocs.items
      ensures Ready()
      ensures match Malloc(reuse, old(State()), size)
              case Halt => !ok
              case Ok((hp1, q)) => ok && p == q && State() == hp1
    {
      p := 0;
      var space := FindBestFreeSpace(size);
      if space == None {
        ok, p := NewAllocation(size);
      } else {
        ok, p := Reuse(space.value);
      }
    }

    method NewAllocation(size: u64) returns (ok: bool, p: u64)
      requires Ready()
      requires forall h | h in allocs.Contents() :: h + reuse < TWO_64
      requires FindFrom(mem[..], allocs.Contents(), size, 0) == None
      modifies this, mem, allocs, allocs.items
      ensures Ready()
      ensures match Malloc(reuse, old(State()), size)
              case Halt => !ok
              case Ok((hp1, q)) => ok && p == q && State() == hp1
    {
      hide FindFrom, NewBlock, Insert;
      p := 0;
      var totalSize := TotalSize(size);
      if totalSize > HEAP_SIZE - top || top + HEADER > HEAP_SIZE {
        return false, 0;
      }
      var header := HEAP_BASE + top;
      var newTop;
      ok, newTop := CreateHeapBlock(top, size);
      top := newTop;
      var r := allocs.InsertElement(header, SizeGreater(mem[..]));
      ok := r == header;
      p := header + HEADER;
    }

    method Reuse(space: nat) returns (ok: bool, p: u64)
      requires Ready() && space < allocs.idx
      requires forall h | h in allocs.Contents() :: h + reuse < TWO_64
      modifies mem
      ensures var hp, header := old(State()), old(allocs.Contents()[space]);
              ok == (InHeap(header, HEADER) && Field(hp.mem, header, 4) == HEAP_CRC)
              && (ok ==> p == header + reuse
                         && State() == hp.(mem := Store(hp.mem, header - HEAP_BASE + 4, 1, HEAD_IN_USE)))
    {
      hide Store;
      var header := allocs.Get(space, 0);
      assert header in allocs.Contents();
      ok, p := InHeap(header, HEADER) && Field(mem[..], header, 4) == HEAP_CRC, 0;
      if ok {
        Put(header - HEAP_BASE + 4, 1, HEAD_IN_USE);
        p := header + reuse;
      }
    }

    method KFree(addr: u64) returns (ok: bool)
      requires Ready()
      modifies mem
      ensures Ready()
      ensures match Free(old(State()), addr)
              case Halt => !ok
              case Ok(hp1) => ok && State() == hp1
    {
      hide Store;
      if addr == 0 {
        return true;
      }
      var header := addr - HEADER;
      if !InHeap(header, HEADER) {
        return false;
      }
      var footer := (addr + BlockSize(mem[..], header) - FOOTER) % TWO_64;
      if !InHeap(footer, FOOTER) {
        return false;
      }
      if !(Field(mem[..], header, 4) == Field(mem[..], footer, 4) == HEAP_CRC)
        || Field(mem[..], footer + 4, 8) != header {
        return false;
      }
      Put(header - HEAP_BASE + 4, 1, HEAD_AVAILABLE);
      return true;
    }
  }

  /** The machine's address of the footer is the end of the total size less the footer, also where
      both sums wrap. */
  lemma {:induction false} FooterPlace(addr: Offset, memSize: u64)
    requires HasPlace(addr, memSize)
    ensures (HEAP_BASE + addr + memSize + HEADER) % TWO_64 - HEAP_BASE == addr + TotalSize(memSize) - FOOTER
  {
  }
}
