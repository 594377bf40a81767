/** What `physmem_init` makes of the boot loader's memory map, as functions on the bitmap. */
module MemoryMap {
  import opened Words
  import Bits
  import opened Bitmap
  import opened FrameSearch

  const AVAILABLE: u32 := 1
  const LOW_FRAMES: nat := 16

  /** One entry of the multiboot memory map. */
  datatype Region = Region(addr: u64, len: u64, kind: u32)

  function RoundUp(a: u64): u64 {
    if a % FRAME == 0 then a else AddWrap(a, FRAME - a % FRAME)
  }

  function End(r: Region): u64 {
    AddWrap(r.addr, r.len)
  }

  function FirstFrame(r: Region): nat {
    RoundUp(r.addr) / FRAME
  }

  function EndFrame(r: Region): nat {
    RoundUp(End(r)) / FRAME
  }

  /** Rounding up gives the least frame boundary at or above, unless the address lies in the last
      frame below 2^64, where the sum wraps to zero. */
  lemma {:induction false} RoundUpIsLeast(a: u64)
    ensures RoundUp(a) % FRAME == 0
    ensures a <= TWO_64 - FRAME ==> a <= RoundUp(a) < a + FRAME
    ensures a > TWO_64 - FRAME ==> RoundUp(a) == 0
  {
    var q := a / FRAME;
    assert a == FRAME * q + a % FRAME;
    if a % FRAME != 0 {
      assert a + (FRAME - a % FRAME) == FRAME * (q + 1);
      assert TWO_64 == FRAME * 0x800_0000_0000;
    }
  }

  /** The end of the highest available region among the first `k`. */
  function Highest(regions: seq<Region>, k: nat): u64
    requires k <= |regions|
  {
    if k == 0 then 0
    else
      var h := Highest(regions, k - 1);
      var r := regions[k - 1];
      if r.kind == AVAILABLE && End(r) > h then End(r) else h
  }

  function TotalAvailable(regions: seq<Region>, k: nat): u64
    requires k <= |regions|
  {
    if k == 0 then 0
    else
      var t := TotalAvailable(regions, k - 1);
      if regions[k - 1].kind == AVAILABLE then AddWrap(t, regions[k - 1].len) else t
  }

  function ManagedEnd(regions: seq<Region>): u64 {
    RoundUp(Highest(regions, |regions|))
  }

  function ManagedWords(regions: seq<Region>): nat {
    (ManagedEnd(regions) / FRAME + 64) / 64 - 1
  }

  /** The number of entries before the first that begins above the managed end. */
  function Processed(regions: seq<Region>, end: u64, k: nat): (n: nat)
    requires k <= |regions|
    ensures k <= n <= |regions|
    ensures forall i | k <= i < n :: regions[i].addr <= end
    ensures n < |regions| ==> regions[n].addr > end
    decreases |regions| - k
  {
    if k == |regions| || regions[k].addr > end then k else Processed(regions, end, k + 1)
  }

  // Which frames are managed.

  /** An available region ends at `e`, with the carry out of bit 63 lost. */
  ghost predicate EndsAt(regions: seq<Region>, e: int) {
    exists r | r in regions :: r.kind == 1 && (r.addr + r.len) % TWO_64 == e
  }

  lemma {:induction false} HighestIs(regions: seq<Region>, k: nat)
    requires k <= |regions|
    ensures forall e | EndsAt(regions[..k], e) :: e <= Highest(regions, k)
    ensures Highest(regions, k) == 0 || EndsAt(regions[..k], Highest(regions, k))
  {
    if k == 0 {
    } else {
      HighestIs(regions, k - 1);
      var front, r := regions[..k - 1], regions[k - 1];
      assert regions[..k] == front + [r] && r in regions[..k];
      forall e
        ensures EndsAt(regions[..k], e) <==> EndsAt(front, e) || (r.kind == 1 && End(r) == e)
      {
        hide End;
        EndsAtNext(front, r, e);
      }
    }
  }

  lemma {:induction false} EndsAtNext(front: seq<Region>, r: Region, e: int)
    ensures EndsAt(front + [r], e) <==> EndsAt(front, e) || (r.kind == 1 && (r.addr + r.len) % TWO_64 == e)
  {
    assert forall q :: q in front + [r] <==> q in front || q == r;
  }

  /** The managed end is the least frame boundary at or above the end of every available region, 0 if there is
      none; an end in the last frame below 2^64 makes it 0. */
  lemma {:induction false} ManagedEndIs(regions: seq<Region>)
    ensures (exists e :: EndsAt(regions, e) && e > TWO_64 - FRAME) ==> ManagedEnd(regions) == 0
    ensures (forall e | EndsAt(regions, e) :: e <= TWO_64 - FRAME) ==>
              && ManagedEnd(regions) % FRAME == 0
              && (forall e | EndsAt(regions, e) :: e <= ManagedEnd(regions))
              && forall m: nat | m % FRAME == 0 && (forall e | EndsAt(regions, e) :: e <= m) ::
                   ManagedEnd(regions) <= m
  {
    var h := Highest(regions, |regions|);
    HighestIs(regions, |regions|);
    assert regions[..|regions|] == regions;
    hide Highest, EndsAt, RoundUp;
    RoundUpIsLeast(h);
    forall m: nat | m % FRAME == 0 && h <= m && h <= TWO_64 - FRAME
      ensures RoundUp(h) <= m
    {
      NoBoundaryBetween(h, RoundUp(h), m);
    }
    RoundUpIsLeast(0);
    NoBoundaryBetween(0, RoundUp(0), 0);
  }

  lemma {:induction false} NoBoundaryBetween(a: nat, b: nat, m: nat)
    requires a <= b < a + FRAME && b % FRAME == 0 && a <= m && m % FRAME == 0
    ensures b <= m
  {
    Bits.Euclid(b, FRAME);
    Bits.Euclid(m, FRAME);
  }

  /** The managed frames are those of every whole word of the bitmap below the managed end. */
  lemma {:induction false} ManagedWordsIs(regions: seq<Region>, f: nat)
    ensures FRAME * 64 * ManagedWords(regions) <= ManagedEnd(regions) < FRAME * 64 * (ManagedWords(regions) + 1)
    ensures f < 64 * ManagedWords(regions) <==> FRAME * (64 * (f / 64) + 64) <= ManagedEnd(regions)
  {
    var e := ManagedEnd(regions);
    hide ManagedEnd;
    Bits.Euclid(e, FRAME);
    Bits.Euclid(e / FRAME + 64, 64);
    Bits.Euclid(f, 64);
  }

  /** What an available region adds to the total, which is kept modulo 2^64. */
  lemma {:induction false} TotalOfOne(r: Region)
    ensures TotalAvailable([r], 1) == if r.kind == 1 then r.len else 0
  {
    assert TotalAvailable([r], 0) == 0;
  }

  /** The total of two lists of regions is the sum of their totals modulo 2^64. */
  lemma {:induction false} TotalOfBoth(a: seq<Region>, b: seq<Region>, k: nat)
    requires k <= |b|
    ensures TotalAvailable(a + b, |a| + k) == (TotalAvailable(a, |a|) + TotalAvailable(b, k)) % TWO_64
  {
    hide TotalAvailable;
    if k == 0 {
      TotalOfFront(a, b, |a|);
      TotalOfNone(b);
      WrapOfSmall(TotalAvailable(a, |a|));
    } else {
      TotalOfBoth(a, b, k - 1);
      assert (a + b)[|a| + k - 1] == b[k - 1];
      TotalNext(a + b, |a| + k);
      TotalNext(b, k);
      WrapsAssociate(TotalAvailable(a, |a|), TotalAvailable(b, k - 1), if b[k - 1].kind == 1 then b[k - 1].len else 0);
    }
  }

  lemma {:induction false} TotalOfNone(regions: seq<Region>)
    ensures TotalAvailable(regions, 0) == 0
  {
  }

  lemma {:induction false} TotalNext(regions: seq<Region>, k: nat)
    requires 0 < k <= |regions|
    ensures TotalAvailable(regions, k)
            == (TotalAvailable(regions, k - 1) + if regions[k - 1].kind == 1 then regions[k - 1].len else 0) % TWO_64
  {
    WrapOfSmall(TotalAvailable(regions, k - 1));
  }

  lemma {:induction false} WrapOfSmall(x: u64)
    ensures x % TWO_64 == x
  {
  }

  lemma {:induction false} WrapsAssociate(x: u64, y: u64, z: u64)
    ensures ((x + y) % TWO_64 + z) % TWO_64 == (x + (y + z) % TWO_64) % TWO_64
  {
    WrapOfSum(x + y, z);
    WrapOfSum(y + z, x);
  }

  lemma {:induction false} WrapOfSum(s: nat, z: nat)
    ensures (s % TWO_64 + z) % TWO_64 == (s + z) % TWO_64
  {
    var r := s % TWO_64 + z;
    Bits.Euclid(s, TWO_64);
    Bits.Euclid(r, TWO_64);
    Bits.RemainderUnique(s + z, TWO_64, s / TWO_64 + r / TWO_64, r % TWO_64);
  }

  lemma {:induction false} TotalOfFront(a: seq<Region>, b: seq<Region>, k: nat)
    requires k <= |a|
    ensures TotalAvailable(a + b, k) == TotalAvailable(a, k)
  {
    if k == 0 {
    } else {
      TotalOfFront(a, b, k - 1);
      assert (a + b)[k - 1] == a[k - 1];
    }
  }

  /** The value the region loop writes for frame `f` of region `r`. */
  predicate Reserves(r: Region, f: nat) {
    r.kind != AVAILABLE || f == 0
  }

  /** Frames `FirstFrame(r)` to `hi - 1` written in ascending order. */
  function WriteRegion(wide: bool, words: seq<Word>, r: Region, hi: nat): (s: seq<Word>)
    requires hi <= 64 * |words|
    ensures |s| == |words|
    decreases hi
  {
    if hi <= FirstFrame(r) then words
    else SetFrame(wide, WriteRegion(wide, words, r, hi - 1), hi - 1, Reserves(r, hi - 1))
  }

  predicate InBounds(regions: seq<Region>, k: nat, n: nat)
    requires k <= |regions|
  {
    forall i | 0 <= i < k :: EndFrame(regions[i]) <= n
  }

  function WriteRegions(wide: bool, words: seq<Word>, regions: seq<Region>, k: nat): (s: seq<Word>)
    requires k <= |regions| && InBounds(regions, k, 64 * |words|)
    ensures |s| == |words|
  {
    if k == 0 then words
    else WriteRegion(wide, WriteRegions(wide, words, regions, k - 1), regions[k - 1], EndFrame(regions[k - 1]))
  }

  function ReserveLow(wide: bool, words: seq<Word>, k: nat): (s: seq<Word>)
    requires k <= 64 * |words|
    ensures |s| == |words|
  {
    if k == 0 then words else SetFrame(wide, ReserveLow(wide, words, k - 1), k - 1, true)
  }

  /** A word of `memset(pmm, 1, ...)`: every byte is 1. */
  function ByteOnes(): Word {
    seq(64, j => j % 8 == 0)
  }

  /** The words after that `memset` and the loop that fills the managed ones. */
  function Cleared(mmEnd: nat): (s: seq<Word>)
    ensures |s| == PMM_SIZE
  {
    seq(PMM_SIZE, w => seq(64, j => w < mmEnd || j % 8 == 0))
  }

  /** The bitmap `physmem_init` leaves behind. */
  function InitialWords(wide: bool, regions: seq<Region>): (s: seq<Word>)
    requires InBounds(regions, Processed(regions, ManagedEnd(regions), 0), PMM_FRAMES)
    ensures |s| == PMM_SIZE
  {
    var k := Processed(regions, ManagedEnd(regions), 0);
    ReserveLow(wide, WriteRegions(wide, Cleared(ManagedWords(regions)), regions, k), LOW_FRAMES)
  }

  predicate ReachesBelow(wide: bool, r: Region, hi: nat, f: nat) {
    exists g | FirstFrame(r) <= g < hi :: Touches(wide, g, f)
  }

  /** A write the region loop makes for `r` reaches frame `f`. */
  predicate Reaches(wide: bool, r: Region, f: nat) {
    ReachesBelow(wide, r, EndFrame(r), f)
  }

  lemma {:induction false} FrameZeroIsLow(wide: bool, f: nat)
    ensures Touches(wide, 0, f) ==> f == 0
  {
  }

  lemma {:induction false} ReachesNext(wide: bool, r: Region, hi: nat, f: nat)
    requires hi > FirstFrame(r)
    ensures ReachesBelow(wide, r, hi, f) == (ReachesBelow(wide, r, hi - 1, f) || Touches(wide, hi - 1, f))
  {
    assert FirstFrame(r) <= hi - 1 < hi;
  }

  lemma {:induction false} WriteRegionUsed(wide: bool, words: seq<Word>, r: Region, hi: nat, f: nat)
    requires hi <= 64 * |words| && LOW_FRAMES <= f < 64 * |words|
    ensures Used(WriteRegion(wide, words, r, hi), f)
            == if ReachesBelow(wide, r, hi, f) then r.kind != AVAILABLE else Used(words, f)
    decreases hi
  {
    hide SetFrame, Touches, Used;
    if hi <= FirstFrame(r) {
    } else {
      WriteRegionUsed(wide, words, r, hi - 1, f);
      SetFrameUsed(wide, WriteRegion(wide, words, r, hi - 1), hi - 1, Reserves(r, hi - 1), f);
      FrameZeroIsLow(wide, f);
      ReachesNext(wide, r, hi, f);
    }
  }

  /** Region `i` is the last of the first `k` to reach frame `f`. */
  ghost predicate LastToReach(wide: bool, regions: seq<Region>, k: nat, i: nat, f: nat)
    requires k <= |regions|
  {
    i < k && Reaches(wide, regions[i], f) && forall j | i < j < k :: !Reaches(wide, regions[j], f)
  }

  ghost predicate LastIsAvailable(wide: bool, regions: seq<Region>, k: nat, f: nat)
    requires k <= |regions|
  {
    exists i: nat | i < k :: LastToReach(wide, regions, k, i, f) && regions[i].kind == AVAILABLE
  }

  lemma {:induction false} LastStep(wide: bool, regions: seq<Region>, k: nat, f: nat)
    requires 0 < k <= |regions|
    ensures LastIsAvailable(wide, regions, k, f)
            == if Reaches(wide, regions[k - 1], f) then regions[k - 1].kind == AVAILABLE
               else LastIsAvailable(wide, regions, k - 1, f)
  {
    if Reaches(wide, regions[k - 1], f) {
      assert LastToReach(wide, regions, k, k - 1, f);
    } else {
      forall i: nat | i < k - 1
        ensures LastToReach(wide, regions, k, i, f) == LastToReach(wide, regions, k - 1, i, f)
      {
      }
    }
  }

  lemma {:induction false} ReachesAll(wide: bool, r: Region, f: nat)
    ensures Reaches(wide, r, f) == ReachesBelow(wide, r, EndFrame(r), f)
  {
  }

  lemma {:induction false} NoneAvailable(wide: bool, regions: seq<Region>, f: nat)
    ensures !LastIsAvailable(wide, regions, 0, f)
  {
  }

  lemma {:induction false} WriteRegionsUsed(wide: bool, words: seq<Word>, regions: seq<Region>, k: nat, f: nat)
    requires k <= |regions| && InBounds(regions, k, 64 * |words|)
    requires LOW_FRAMES <= f < 64 * |words|
    ensures !Used(WriteRegions(wide, words, regions, k), f)
            <==> LastIsAvailable(wide, regions, k, f)
                 || (!Used(words, f) && forall i | 0 <= i < k :: !Reaches(wide, regions[i], f))
  {
    hide Used, Reaches, ReachesBelow, WriteRegion, LastIsAvailable, FirstFrame, EndFrame;
    if k == 0 {
      NoneAvailable(wide, regions, f);
    } else {
      WriteRegionsUsed(wide, words, regions, k - 1, f);
      var r := regions[k - 1];
      ReachesAll(wide, r, f);
      WriteRegionUsed(wide, WriteRegions(wide, words, regions, k - 1), r, EndFrame(r), f);
      LastStep(wide, regions, k, f);
    }
  }

  lemma {:induction false} LowTouches(wide: bool, i: nat, f: nat)
    requires i < LOW_FRAMES
    ensures Touches(wide, i, f) == (i == f)
  {
  }

  lemma {:induction false} LowFrameSet(wide: bool, words: seq<Word>, i: nat, f: nat)
    requires i < LOW_FRAMES && words != [] && f < 64 * |words|
    ensures Used(SetFrame(wide, words, i, true), f) == (f == i || Used(words, f))
  {
    hide SetFrame, Used, Touches;
    SetFrameUsed(wide, words, i, true, f);
    LowTouches(wide, i, f);
  }

  lemma {:induction false} ReserveLowNext(wide: bool, words: seq<Word>, k: nat)
    requires 0 < k <= LOW_FRAMES && words != []
    ensures ReserveLow(wide, words, k) == SetFrame(wide, ReserveLow(wide, words, k - 1), k - 1, true)
  {
    hide SetFrame;
  }

  lemma {:induction false} ReserveLowUsed(wide: bool, words: seq<Word>, k: nat, f: nat)
    requires k <= LOW_FRAMES && 64 <= 64 * |words| && f < 64 * |words|
    ensures Used(ReserveLow(wide, words, k), f) == (f < k || Used(words, f))
  {
    hide SetFrame, Used, Touches;
    if k == 0 {
    } else {
      hide ReserveLow;
      var before := ReserveLow(wide, words, k - 1);
      ReserveLowNext(wide, words, k);
      ReserveLowUsed(wide, words, k - 1, f);
      LowFrameSet(wide, before, k - 1, f);
    }
  }

  /** After `physmem_init` frames 0 to 15 are used, and a managed frame above them is free exactly
      when some region reaches it and the last to do so is available. With 64-bit masks a region
      reaches the frames of its rounded span; as written it also reaches the frames that `set_phys`
      confuses with them. */
  lemma {:induction false} InitialUsed(wide: bool, regions: seq<Region>, f: nat)
    requires ManagedWords(regions) <= PMM_SIZE
    requires InBounds(regions, Processed(regions, ManagedEnd(regions), 0), PMM_FRAMES)
    requires f < 64 * ManagedWords(regions)
    ensures var k := Processed(regions, ManagedEnd(regions), 0);
            !Used(InitialWords(wide, regions), f)
            <==> f >= 16
                 && LastIsAvailable(wide, regions, k, f)
  {
    var k := Processed(regions, ManagedEnd(regions), 0);
    var words := Cleared(ManagedWords(regions));
    ReserveLowUsed(wide, WriteRegions(wide, words, regions, k), LOW_FRAMES, f);
    if f >= LOW_FRAMES {
      WriteRegionsUsed(wide, words, regions, k, f);
      assert Used(words, f);
    }
  }

  lemma {:induction false} ReachesIsSpan(r: Region, f: nat)
    ensures Reaches(true, r, f) == (FirstFrame(r) <= f < EndFrame(r))
  {
    assert Touches(true, f, f);
  }

  /** With 64-bit masks: free exactly when the last region processed whose rounded span contains the
      frame is available. */
  lemma {:induction false} InitialUsedFlat(regions: seq<Region>, f: nat)
    requires ManagedWords(regions) <= PMM_SIZE
    requires InBounds(regions, Processed(regions, ManagedEnd(regions), 0), PMM_FRAMES)
    requires LOW_FRAMES <= f < 64 * ManagedWords(regions)
    ensures var k := Processed(regions, ManagedEnd(regions), 0);
            !Used(InitialWords(true, regions), f)
            <==> exists i: nat | i < k ::
                   && FirstFrame(regions[i]) <= f < EndFrame(regions[i])
                   && regions[i].kind == AVAILABLE
                   && forall j | i < j < k :: !(FirstFrame(regions[j]) <= f < EndFrame(regions[j]))
  {
    InitialUsed(true, regions, f);
    forall i: nat | i < |regions|
      ensures Reaches(true, regions[i], f) == (FirstFrame(regions[i]) <= f < EndFrame(regions[i]))
    {
      ReachesIsSpan(regions[i], f);
    }
  }

  /** A frame in the rounded span of a region whose end does not wrap lies wholly inside the region
      unless it is the frame its unaligned end falls into. */
  lemma {:induction false} SpanFrameInside(r: Region, f: nat)
    requires r.addr + r.len <= TWO_64 - FRAME
    requires FirstFrame(r) <= f < EndFrame(r)
    ensures r.addr <= f * FRAME
    ensures (f + 1) * FRAME <= r.addr + r.len <==> !(End(r) % FRAME != 0 && f == End(r) / FRAME)
  {
    RoundUpIsLeast(r.addr);
    RoundUpIsLeast(End(r));
    assert RoundUp(r.addr) == FRAME * FirstFrame(r);
    assert RoundUp(End(r)) == FRAME * EndFrame(r);
  }

  /** When no region wraps and available regions end on frame boundaries, every free managed frame
      lies wholly inside an available region. */
  lemma {:induction false} FreeFramesAreAvailable(regions: seq<Region>, f: nat) returns (i: nat)
    requires ManagedWords(regions) <= PMM_SIZE
    requires InBounds(regions, Processed(regions, ManagedEnd(regions), 0), PMM_FRAMES)
    requires forall r | r in regions :: r.addr + r.len <= TWO_64 - FRAME
    requires forall r | r in regions && r.kind == AVAILABLE :: End(r) % FRAME == 0
    requires f < 64 * ManagedWords(regions) && !Used(InitialWords(true, regions), f)
    ensures i < |regions| && regions[i].kind == AVAILABLE
    ensures regions[i].addr <= f * FRAME && (f + 1) * FRAME <= regions[i].addr + regions[i].len
  {
    var k := Processed(regions, ManagedEnd(regions), 0);
    InitialUsed(true, regions, f);
    i :| i < k && LastToReach(true, regions, k, i, f) && regions[i].kind == AVAILABLE;
    ReachesIsSpan(regions[i], f);
    SpanFrameInside(regions[i], f);
  }

  /** A reserved frame at bit 61 after an available span: the code as written leaves it free and
      takes the frame 32 places below instead. */
  lemma {:induction false} MisplacedReservation()
    ensures var regions := [Region(0, 128 * FRAME, AVAILABLE), Region(61 * FRAME, FRAME, 2)];
            && ManagedWords(regions) == 2
            && Processed(regions, ManagedEnd(regions), 0) == 2
            && InBounds(regions, 2, PMM_FRAMES)
            && !Used(InitialWords(false, regions), 61) && Used(InitialWords(false, regions), 29)
            && Used(InitialWords(true, regions), 61) && !Used(InitialWords(true, regions), 29)
  {
    var free, taken := Region(0, 128 * FRAME, AVAILABLE), Region(61 * FRAME, FRAME, 2);
    var regions := [free, taken];
    MisplacedMap(regions);
    MisplacedTouches(free, taken);
    hide Touches, Reaches, InitialWords, Used, FirstFrame, EndFrame, Processed, ManagedEnd, ManagedWords;
    assert LastToReach(false, regions, 2, 0, 61);
    assert LastToReach(false, regions, 2, 1, 29);
    InitialUsed(false, regions, 61);
    InitialUsed(false, regions, 29);
    InitialUsedFlat(regions, 61);
    InitialUsedFlat(regions, 29);
  }

  lemma {:induction false} MisplacedMap(regions: seq<Region>)
    requires regions == [Region(0, 128 * FRAME, AVAILABLE), Region(61 * FRAME, FRAME, 2)]
    ensures ManagedWords(regions) == 2
    ensures Processed(regions, ManagedEnd(regions), 0) == 2
    ensures FirstFrame(regions[0]) == 0 && EndFrame(regions[0]) == 128
    ensures FirstFrame(regions[1]) == 61 && EndFrame(regions[1]) == 62
  {
    assert Highest(regions, 0) == 0 && Highest(regions, 1) == 128 * FRAME && Highest(regions, 2) == 128 * FRAME;
    assert Processed(regions, 128 * FRAME, 1) == 2;
  }

  lemma {:induction false} MisplacedTouches(free: Region, taken: Region)
    requires FirstFrame(free) == 0 && EndFrame(free) == 128
    requires FirstFrame(taken) == 61 && EndFrame(taken) == 62
    ensures Reaches(false, free, 61) && !Reaches(false, taken, 61) && Reaches(false, taken, 29)
  {
    assert Touches(false, 61, 29) && Touches(false, 63, 61);
  }
}
