/** When the frames that set-up leaves free are available memory and nothing else. */
module MapSafety {
  import opened Words
  import opened Bitmap
  import opened MemoryMap

  /** The memory map fits the bitmap, and no region reaches into the last frame below 2^64. */
  predicate Bounded(regions: seq<Region>) {
    && ManagedWords(regions) <= PMM_SIZE
    && InBounds(regions, Processed(regions, ManagedEnd(regions), 0), PMM_FRAMES)
    && forall r | r in regions :: r.addr + r.len <= TWO_64 - FRAME
  }

  /** The number of regions the set-up loop processes. */
  function Count(regions: seq<Region>): (k: nat)
    ensures k <= |regions|
  {
    Processed(regions, ManagedEnd(regions), 0)
  }

  predicate Contains(r: Region, b: int) {
    r.addr <= b < End(r)
  }

  ghost predicate ByteAvailable(regions: seq<Region>, b: int) {
    exists r | r in regions :: r.kind == AVAILABLE && Contains(r, b)
  }

  predicate InFrame(b: int, f: nat) {
    FRAME * f <= b < FRAME * (f + 1)
  }

  /** Every byte of the frame is available, and none is in a region of another kind. */
  ghost predicate Safe(regions: seq<Region>, f: nat) {
    && (forall b: int | InFrame(b, f) :: ByteAvailable(regions, b))
    && (forall b: int, r | InFrame(b, f) && r in regions && r.kind != AVAILABLE :: !Contains(r, b))
  }

  /** The frame is free after set-up with 64-bit masks. */
  predicate Freed(regions: seq<Region>, f: nat)
    requires Bounded(regions)
  {
    f < 64 * ManagedWords(regions) && !Used(InitialWords(true, regions), f)
  }

  /** Region `i` is the last one processed that contains the first byte of frame `f`. */
  ghost predicate Owns(regions: seq<Region>, i: nat, f: nat) {
    && i < Count(regions) && Contains(regions[i], FRAME * f)
    && forall j | i < j < Count(regions) :: !Contains(regions[j], FRAME * f)
  }

  /** A region's rounded span is made of the frames whose first byte it contains. */
  lemma {:induction false} SpanIsFirstByte(r: Region, f: nat)
    requires r.addr + r.len <= TWO_64 - FRAME
    ensures Reaches(true, r, f) == Contains(r, FRAME * f)
  {
    ReachesIsSpan(r, f);
    RoundUpIsLeast(r.addr);
    RoundUpIsLeast(End(r));
    assert RoundUp(r.addr) == FRAME * FirstFrame(r);
    assert RoundUp(End(r)) == FRAME * EndFrame(r);
  }

  lemma {:induction false} LastIsOwner(regions: seq<Region>, i: nat, f: nat)
    requires Bounded(regions)
    ensures LastToReach(true, regions, Count(regions), i, f) == Owns(regions, i, f)
  {
    hide Contains, Reaches;
    forall j | 0 <= j < Count(regions)
      ensures Reaches(true, regions[j], f) == Contains(regions[j], FRAME * f)
    {
      assert regions[j] in regions;
      SpanIsFirstByte(regions[j], f);
    }
  }

  /** A managed frame from 16 on is free exactly when its first byte has an available owner. */
  lemma {:induction false} FreedIsOwned(regions: seq<Region>, f: nat)
    requires Bounded(regions) && f < 64 * ManagedWords(regions)
    ensures Freed(regions, f)
            <==> f >= LOW_FRAMES && exists i: nat :: Owns(regions, i, f) && regions[i].kind == AVAILABLE
  {
    InitialUsed(true, regions, f);
    hide Owns, LastToReach, InitialWords;
    forall i: nat
      ensures LastToReach(true, regions, Count(regions), i, f) == Owns(regions, i, f)
    {
      LastIsOwner(regions, i, f);
    }
  }

  /** The rest of a frame that an available region's unaligned end falls into is available from other
      regions, unless the frame is low, unmanaged or owned by another region. */
  ghost predicate EndsCovered(regions: seq<Region>) {
    forall i: nat, b: int | i < |regions| && EndRest(regions, i, b) :: ByteAvailable(regions, b)
  }

  ghost predicate EndRest(regions: seq<Region>, i: nat, b: int)
    requires i < |regions|
  {
    var e := End(regions[i]);
    && regions[i].kind == AVAILABLE && e % FRAME != 0
    && LOW_FRAMES <= e / FRAME < 64 * ManagedWords(regions) && Owns(regions, i, e / FRAME)
    && e <= b && InFrame(b, e / FRAME)
  }

  /** Every frame a reserved region meets is low or unmanaged, or its first byte has no available owner:
      it lies in no region processed, or the last one that contains it is reserved too. */
  ghost predicate ReservedCovered(regions: seq<Region>) {
    forall i: nat, f: nat, r | r in regions && r.kind != AVAILABLE && MeetsOwned(regions, r, i, f) ::
      regions[i].kind != AVAILABLE
  }

  ghost predicate MeetsOwned(regions: seq<Region>, r: Region, i: nat, f: nat) {
    && LOW_FRAMES <= f < 64 * ManagedWords(regions) && Owns(regions, i, f)
    && exists b: int :: InFrame(b, f) && Contains(r, b)
  }

  /** Every frame left free lies wholly in available memory and meets no reserved region, exactly when
      unaligned available ends and reserved regions are covered. */
  lemma {:induction false} FreedIsSafe(regions: seq<Region>)
    requires Bounded(regions)
    ensures (forall f: nat | Freed(regions, f) :: Safe(regions, f)) <==>
      EndsCovered(regions) && ReservedCovered(regions)
  {
    hide Freed, Safe, EndsCovered, ReservedCovered, Bounded;
    if EndsCovered(regions) && ReservedCovered(regions) {
      forall f: nat | Freed(regions, f)
        ensures Safe(regions, f)
      {
        CoveredIsSafe(regions, f);
      }
    }
    if forall f: nat | Freed(regions, f) :: Safe(regions, f) {
      SafeEnds(regions);
      SafeReserved(regions);
    }
  }

  lemma {:induction false} CoveredIsSafe(regions: seq<Region>, f: nat)
    requires Bounded(regions) && EndsCovered(regions) && ReservedCovered(regions) && Freed(regions, f)
    ensures Safe(regions, f)
  {
    FreedIsOwned(regions, f);
    var i: nat :| Owns(regions, i, f) && regions[i].kind == AVAILABLE;
    forall b: int | InFrame(b, f)
      ensures ByteAvailable(regions, b)
    {
      OwnerCovers(regions, i, f, b);
    }
    forall b: int, r | InFrame(b, f) && r in regions && r.kind != AVAILABLE
      ensures !Contains(r, b)
    {
      if Contains(r, b) {
        assert MeetsOwned(regions, r, i, f);
      }
    }
  }

  lemma {:induction false} OwnerCovers(regions: seq<Region>, i: nat, f: nat, b: int)
    requires EndsCovered(regions) && Owns(regions, i, f) && regions[i].kind == AVAILABLE
    requires LOW_FRAMES <= f < 64 * ManagedWords(regions) && InFrame(b, f)
    ensures ByteAvailable(regions, b)
  {
    hide ManagedWords, EndsCovered;
    if b < End(regions[i]) {
      assert regions[i] in regions && Contains(regions[i], b);
    } else {
      InsideFrame(End(regions[i]), f, b);
      assert EndRest(regions, i, b);
      EndIsCovered(regions, i, b);
    }
  }

  lemma {:induction false} EndIsCovered(regions: seq<Region>, i: nat, b: int)
    requires EndsCovered(regions) && i < |regions| && EndRest(regions, i, b)
    ensures ByteAvailable(regions, b)
  {
  }

  lemma {:induction false} InsideFrame(e: nat, f: nat, b: int)
    requires FRAME * f < e <= b < FRAME * (f + 1)
    ensures e / FRAME == f && e % FRAME != 0
  {
  }

  lemma {:induction false} SafeEnds(regions: seq<Region>)
    requires Bounded(regions) && forall f: nat | Freed(regions, f) :: Safe(regions, f)
    ensures EndsCovered(regions)
  {
    hide Freed, Bounded, ManagedWords;
    forall i: nat, b: int | i < |regions| && EndRest(regions, i, b)
      ensures ByteAvailable(regions, b)
    {
      var f := End(regions[i]) / FRAME;
      FreedIsOwned(regions, f);
      assert Safe(regions, f);
    }
  }

  lemma {:induction false} SafeReserved(regions: seq<Region>)
    requires Bounded(regions) && forall f: nat | Freed(regions, f) :: Safe(regions, f)
    ensures ReservedCovered(regions)
  {
    hide Freed, Bounded, ManagedWords;
    forall i: nat, f: nat, r | r in regions && r.kind != AVAILABLE && MeetsOwned(regions, r, i, f)
      ensures regions[i].kind != AVAILABLE
    {
      FreedIsOwned(regions, f);
      assert regions[i].kind == AVAILABLE ==> Safe(regions, f);
    }
  }

  /** No byte lies in two regions. */
  ghost predicate Disjoint(regions: seq<Region>) {
    forall i, j, b: int | 0 <= i < j < |regions| && Contains(regions[i], b) :: !Contains(regions[j], b)
  }

  /** When regions do not overlap the available ends alone decide. */
  lemma {:induction false} DisjointFreedIsSafe(regions: seq<Region>)
    requires Bounded(regions) && Disjoint(regions)
    ensures (forall f: nat | Freed(regions, f) :: Safe(regions, f)) <==> EndsCovered(regions)
  {
    FreedIsSafe(regions);
    hide Freed, Safe, EndsCovered, Bounded;
    if EndsCovered(regions) {
      DisjointReserved(regions);
    }
  }

  lemma {:induction false} DisjointReserved(regions: seq<Region>)
    requires EndsCovered(regions) && Disjoint(regions)
    ensures ReservedCovered(regions)
  {
    hide ManagedWords, EndsCovered, Disjoint;
    forall i: nat, f: nat, r | r in regions && r.kind != AVAILABLE && MeetsOwned(regions, r, i, f)
      ensures regions[i].kind != AVAILABLE
    {
      if regions[i].kind == AVAILABLE {
        var b: int :| InFrame(b, f) && Contains(r, b);
        OwnerCovers(regions, i, f, b);
        var a :| a in regions && a.kind == AVAILABLE && Contains(a, b);
        OneRegion(regions, a, r, b);
      }
    }
  }

  lemma {:induction false} OneRegion(regions: seq<Region>, a: Region, r: Region, b: int)
    requires Disjoint(regions) && a in regions && r in regions && Contains(a, b) && Contains(r, b)
    ensures a == r
  {
    var i :| 0 <= i < |regions| && regions[i] == a;
    var j :| 0 <= j < |regions| && regions[j] == r;
  }

  // Two maps that are not safe.

  /** A reserved range inside a frame whose first byte is available: rounding its start up leaves the
      frame free. */
  lemma {:induction false} ReservedInsideFrame()
    ensures var regions := [Region(0, 64 * FRAME, AVAILABLE), Region(40 * FRAME + 0x1000, 0x1000, 2)];
            && Bounded(regions) && Freed(regions, 40) && !Safe(regions, 40)
  {
    var free, taken := Region(0, 64 * FRAME, AVAILABLE), Region(40 * FRAME + 0x1000, 0x1000, 2);
    var regions := [free, taken];
    TwoRegions(regions, 64 * FRAME);
    assert FirstFrame(free) == 0 && EndFrame(free) == 64 && FirstFrame(taken) == 41 && EndFrame(taken) == 41;
    OnlyFirstOwns(regions, 40);
    var b := 40 * FRAME + 0x1000;
    assert InFrame(b, 40) && taken in regions && Contains(taken, b);
  }

  /** An available end inside a frame: rounding it up leaves the frame free although the rest of it is
      reserved. */
  lemma {:induction false} PartialEndFrame()
    ensures var regions := [Region(0, 63 * FRAME + 0x1000, AVAILABLE), Region(63 * FRAME + 0x1000, FRAME - 0x1000, 2)];
            && Bounded(regions) && Disjoint(regions) && Freed(regions, 63) && !Safe(regions, 63)
  {
    var free, taken := Region(0, 63 * FRAME + 0x1000, AVAILABLE), Region(63 * FRAME + 0x1000, FRAME - 0x1000, 2);
    var regions := [free, taken];
    TwoRegions(regions, 64 * FRAME);
    assert FirstFrame(free) == 0 && EndFrame(free) == 64 && FirstFrame(taken) == 64 && EndFrame(taken) == 64;
    OnlyFirstOwns(regions, 63);
    var b := 63 * FRAME + 0x1000;
    assert InFrame(b, 63) && taken in regions && Contains(taken, b);
  }

  lemma {:induction false} TwoRegions(regions: seq<Region>, end: u64)
    requires |regions| == 2 && regions[0].kind == AVAILABLE && regions[1].kind == 2 && regions[1].addr <= end
    requires regions[0].addr == 0 && RoundUp(End(regions[0])) == end == 64 * FRAME && End(regions[0]) > 0
    ensures ManagedEnd(regions) == end && ManagedWords(regions) == 1 && Count(regions) == 2
  {
    assert Highest(regions, 0) == 0 && Highest(regions, 1) == End(regions[0]) && Highest(regions, 2) == End(regions[0]);
    assert Processed(regions, end, 1) == 2;
  }

  lemma {:induction false} OnlyFirstOwns(regions: seq<Region>, f: nat)
    requires |regions| == 2 && Bounded(regions) && Count(regions) == 2 && LOW_FRAMES <= f < 64 * ManagedWords(regions)
    requires regions[0].kind == AVAILABLE && Contains(regions[0], FRAME * f) && !Contains(regions[1], FRAME * f)
    ensures Freed(regions, f)
  {
    hide Contains, Freed, Bounded, ManagedWords;
    FreedIsOwned(regions, f);
    assert Owns(regions, 0, f);
  }
}
