/** From the boot loader's memory map to the frames handed out. */
module FrameGrants {
  import opened Words
  import Bits
  import opened Bitmap
  import opened FrameSearch
  import opened FrameLedger
  import opened MemoryMap
  import opened RegionSpans
  import opened MapSafety

  /** The state after `physmem_init` and a run of allocations and frees. */
  function After(b: Build, regions: seq<Region>, ops: seq<Op>): (st: Ledger)
    requires ManagedWords(regions) <= PMM_SIZE
    requires InBounds(regions, Processed(regions, ManagedEnd(regions), 0), PMM_FRAMES)
    ensures |st.words| == PMM_SIZE
  {
    Run(b, ManagedWords(regions), Ledger(InitialWords(b.wide, regions), []), ops)
  }

  /** Whatever was allocated and freed before, `phys_malloc` after `physmem_init` grants only frames
      that nobody holds and whose last region to reach them is available; frames 0 to 15 are never among
      them, so the address 0 stands for failure alone. */
  lemma {:induction false} GrantsAreAvailable(b: Build, regions: seq<Region>, ops: seq<Op>, size: u64)
    requires ManagedWords(regions) <= PMM_SIZE
    requires InBounds(regions, Processed(regions, ManagedEnd(regions), 0), PMM_FRAMES)
    requires RunExact(b, ManagedWords(regions), Ledger(InitialWords(b.wide, regions), []), ops)
    requires StepExact(b, ManagedWords(regions), After(b, regions, ops), Malloc(size))
    ensures var st, n := After(b, regions, ops), FramesFor(size);
            match Search(b.reset, st.words, ManagedWords(regions), n)
            case None => true
            case Some(s) =>
              && LOW_FRAMES <= s && s + n <= 64 * ManagedWords(regions)
              && size <= FRAME * n < size + FRAME
              && (forall f | s <= f < s + n ::
                    LastIsAvailable(b.wide, regions, Processed(regions, ManagedEnd(regions), 0), f))
              && (forall a, f: nat | a in st.live && Covers(a, f) :: !(s <= f < s + n))
  {
    var mmEnd, words0 := ManagedWords(regions), InitialWords(b.wide, regions);
    var st, n := After(b, regions, ops), FramesFor(size);
    var k := Processed(regions, ManagedEnd(regions), 0);
    StartsInv(words0, mmEnd);
    RunKeepsInv(words0, b, mmEnd, Ledger(words0, []), ops);
    var r := Search(b.reset, st.words, mmEnd, n);
    FramesHold(size);
    if n > 0 && r.Some? {
      SearchIsFirstFit(b.reset, st.words, mmEnd, n);
      hide InitialWords, ManagedWords, Search, LastIsAvailable, Used, Run, FramesFor, NoSkippedWord;
      forall f | r.value <= f < r.value + n
        ensures LOW_FRAMES <= f && LastIsAvailable(b.wide, regions, k, f)
      {
        InitialUsed(b.wide, regions, f);
      }
      InitialUsed(b.wide, regions, r.value);
    }
  }

  /** In bytes: when unaligned available ends and reserved regions are covered, and the spans are flat or
      the masks have 64 bits, every frame granted after set-up lies wholly in available memory and meets
      no reserved region. So every byte asked for is available and in no reserved region. */
  lemma {:induction false} GrantsAreSafe(b: Build, regions: seq<Region>, ops: seq<Op>, size: u64)
    requires Bounded(regions) && EndsCovered(regions) && ReservedCovered(regions)
    requires b.wide || FlatSpans(regions, Count(regions))
    requires RunExact(b, ManagedWords(regions), Ledger(InitialWords(b.wide, regions), []), ops)
    requires StepExact(b, ManagedWords(regions), After(b, regions, ops), Malloc(size))
    ensures match Search(b.reset, After(b, regions, ops).words, ManagedWords(regions), FramesFor(size))
            case None => true
            case Some(s) =>
              && (forall f | s <= f < s + FramesFor(size) :: Safe(regions, f))
              && forall b: int | FRAME * s <= b < FRAME * s + size :: SafeByte(regions, b)
  {
    FramesHold(size);
    NoneForNothing(b.reset, After(b, regions, ops).words, ManagedWords(regions));
    hide InitialWords, ManagedWords, Search, RunExact, StepExact, After, FramesFor, Safe, EndsCovered, ReservedCovered;
    match Search(b.reset, After(b, regions, ops).words, ManagedWords(regions), FramesFor(size)) {
      case None =>
      case Some(s) =>
        forall f | s <= f < s + FramesFor(size)
          ensures Safe(regions, f)
        {
          GrantIsFreed(b, regions, ops, size, s, f);
          CoveredIsSafe(regions, f);
        }
        forall b: int | FRAME * s <= b < FRAME * s + size
          ensures SafeByte(regions, b)
        {
          ByteOfFrame(s, FramesFor(size), b);
          SafeInside(regions, b / FRAME, b);
        }
    }
  }

  /** The byte is available, and in no region of another kind. */
  ghost predicate SafeByte(regions: seq<Region>, b: int) {
    ByteAvailable(regions, b) && forall r | r in regions && r.kind != AVAILABLE :: !Contains(r, b)
  }

  lemma {:induction false} ByteOfFrame(s: nat, n: nat, b: int)
    requires FRAME * s <= b < FRAME * (s + n)
    ensures s <= b / FRAME < s + n && InFrame(b, b / FRAME)
  {
    Bits.Euclid(b, FRAME);
  }

  lemma {:induction false} SafeInside(regions: seq<Region>, f: nat, b: int)
    requires Safe(regions, f) && InFrame(b, f)
    ensures SafeByte(regions, b)
  {
  }

  lemma {:induction false} FlatInitial(regions: seq<Region>)
    requires Bounded(regions) && FlatSpans(regions, Count(regions))
    ensures InitialWords(false, regions) == InitialWords(true, regions)
  {
    hide InitialWords;
    InitialIsFlat(regions);
  }

  /** A frame granted was free after set-up, with either mask when the spans are flat. */
  lemma {:induction false} GrantIsFreed(b: Build, regions: seq<Region>, ops: seq<Op>, size: u64, s: nat, f: nat)
    requires Bounded(regions) && (b.wide || FlatSpans(regions, Count(regions)))
    requires RunExact(b, ManagedWords(regions), Ledger(InitialWords(b.wide, regions), []), ops)
    requires StepExact(b, ManagedWords(regions), After(b, regions, ops), Malloc(size))
    requires Search(b.reset, After(b, regions, ops).words, ManagedWords(regions), FramesFor(size)) == Some(s)
    requires s <= f < s + FramesFor(size)
    ensures Freed(regions, f)
  {
    var mmEnd, words0 := ManagedWords(regions), InitialWords(b.wide, regions);
    var st, n := After(b, regions, ops), FramesFor(size);
    StartsInv(words0, mmEnd);
    RunKeepsInv(words0, b, mmEnd, Ledger(words0, []), ops);
    SearchIsFirstFit(b.reset, st.words, mmEnd, n);
    hide InitialWords, ManagedWords, Search, Used, Run, FramesFor, NoSkippedWord;
    assert !Used(st.words, f);
    if !b.wide {
      FlatInitial(regions);
    }
  }
}
