/** The frames under the kernel heap, which nothing reserves in the frame bitmap. */
module HeapFrames {
  import opened Words
  import opened Bitmap
  import opened FrameSearch
  import opened FrameLedger
  import PageEntry
  import HeapBlocks

  const HEAP_FRAME: nat := 384
  const HEAP_FRAMES: nat := HeapBlocks.HEAP_SIZE / 0x20_0000

  predicate UnderHeap(h: nat) {
    HEAP_FRAME <= h < HEAP_FRAME + HEAP_FRAMES
  }

  /** The heap lies in the kernel's window: its byte `o` is in the window page of frame 384 and on. */
  lemma {:induction false} HeapIsInWindow(o: nat)
    requires o < HeapBlocks.HEAP_SIZE
    ensures var page := PageEntry.PageOf(HeapBlocks.HEAP_BASE + o);
            page == PageEntry.Page(511, 510, HEAP_FRAME + o / 0x20_0000) && UnderHeap(page.i2)
  {
    hide PageEntry.PageOf;
    PageEntry.DirectMapPage(0x3000_0000 + o);
  }

  ghost function FreeUpTo(words: seq<Word>, h: nat): set<nat> {
    set f: nat | f <= h && f < 64 * |words| && !Used(words, f)
  }

  ghost predicate Holds(st: Ledger, h: nat) {
    exists a | a in st.live :: Covers(a, h)
  }

  /** A request for one byte takes the lowest free frame. */
  lemma {:induction false} TakeLowest(words0: seq<Word>, b: Build, mmEnd: nat, st: Ledger, h: nat) returns (s: nat)
    requires Inv(words0, mmEnd, st) && h < 64 * mmEnd && !Used(st.words, h)
    ensures s <= h && !Used(st.words, s) && StepExact(b, mmEnd, st, Malloc(1))
    ensures Step(b, mmEnd, st, Malloc(1)) == Ledger(MarkRun(st.words, s, 1), st.live + [Alloc(s, 1)])
  {
    hide Used, Search, Visited, NoSkippedWord, MarkRun;
    SearchIsFirstFit(b.reset, st.words, mmEnd, 1);
    assert RunFree(st.words, h, 1);
    s := Search(b.reset, st.words, mmEnd, 1).value;
    assert RunFree(st.words, s, 1);
  }

  lemma {:induction false} TakenFrame(words: seq<Word>, s: nat, h: nat)
    requires s < h < 64 * |words| && !Used(words, s) && !Used(words, h)
    ensures !Used(MarkRun(words, s, 1), h)
    ensures FreeUpTo(MarkRun(words, s, 1), h) < FreeUpTo(words, h)
  {
    hide Used, MarkRun;
    forall f: nat | f < 64 * |words|
      ensures Used(MarkRun(words, s, 1), f) == (f == s || Used(words, f))
    {
      MarkRunUsed(words, s, 1, f);
    }
    assert s in FreeUpTo(words, h) && s !in FreeUpTo(MarkRun(words, s, 1), h);
  }

  /** Every free managed frame is handed out by some run. */
  lemma {:induction false} ReachFrame(words0: seq<Word>, b: Build, mmEnd: nat, st: Ledger, h: nat)
      returns (ops: seq<Op>)
    requires Inv(words0, mmEnd, st) && h < 64 * mmEnd && !Used(st.words, h)
    ensures RunExact(b, mmEnd, st, ops) && Holds(Run(b, mmEnd, st, ops), h)
    decreases FreeUpTo(st.words, h)
  {
    var s := TakeLowest(words0, b, mmEnd, st, h);
    var st1 := Step(b, mmEnd, st, Malloc(1));
    MallocKeepsInv(words0, b, mmEnd, st, 1);
    hide Inv, Used, StepExact, Step, MarkRun;
    if s == h {
      ops := [Malloc(1)];
      assert ops[1..] == [];
      assert Alloc(s, 1) in st1.live && Covers(Alloc(s, 1), h);
    } else {
      TakenFrame(st.words, s, h);
      var rest := ReachFrame(words0, b, mmEnd, st1, h);
      ops := [Malloc(1)] + rest;
      assert ops[1..] == rest;
    }
  }

  /** Some run is granted a frame under the heap, exactly when such a frame is managed and free at the start. */
  lemma {:induction false} HeapCanBeGranted(words0: seq<Word>, b: Build, mmEnd: nat)
    requires mmEnd <= |words0|
    ensures (exists ops, h: nat :: UnderHeap(h) && RunExact(b, mmEnd, Ledger(words0, []), ops)
                                   && Holds(Run(b, mmEnd, Ledger(words0, []), ops), h))
            <==> exists h: nat :: UnderHeap(h) && h < 64 * mmEnd && !Used(words0, h)
  {
    var st := Ledger(words0, []);
    StartsInv(words0, mmEnd);
    hide Inv, Used, RunExact, Run, Holds;
    if h: nat :| UnderHeap(h) && h < 64 * mmEnd && !Used(words0, h) {
      var ops := ReachFrame(words0, b, mmEnd, st, h);
    }
    if ops, h: nat :| UnderHeap(h) && RunExact(b, mmEnd, st, ops) && Holds(Run(b, mmEnd, st, ops), h) {
      RunKeepsInv(words0, b, mmEnd, st, ops);
      HeldWasFree(words0, mmEnd, Run(b, mmEnd, st, ops), h);
    }
  }

  lemma {:induction false} HeldWasFree(words0: seq<Word>, mmEnd: nat, st: Ledger, h: nat)
    requires Inv(words0, mmEnd, st) && Holds(st, h)
    ensures h < 64 * mmEnd && !Used(words0, h)
  {
  }
}
