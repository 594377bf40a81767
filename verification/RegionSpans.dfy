/** When set-up with the 32-bit mask of `set_phys` does what the 64-bit mask would do. */
module RegionSpans {
  import opened Words
  import opened Bitmap
  import opened FrameSearch
  import opened MemoryMap

  /** A span that begins among the low frames, which end up used anyway, counts from frame 0. */
  function SpanStart(r: Region): nat {
    if FirstFrame(r) <= LOW_FRAMES then 0 else FirstFrame(r)
  }

  /** In every word the span occupies bits below 31 only, or the whole word. */
  predicate FlatSpan(r: Region) {
    EndFrame(r) <= FirstFrame(r) || LowOrWhole(SpanStart(r), EndFrame(r) - SpanStart(r))
  }

  /** One region written, then the low frames reserved. */
  function Written(wide: bool, words: seq<Word>, r: Region): (s: seq<Word>)
    requires 0 < |words| && EndFrame(r) <= 64 * |words|
    ensures |s| == |words|
  {
    ReserveLow(wide, WriteRegion(wide, words, r, EndFrame(r)), LOW_FRAMES)
  }

  lemma {:induction false} ReachesIsRun(wide: bool, r: Region, g: nat)
    requires FirstFrame(r) <= EndFrame(r)
    ensures Reaches(wide, r, g) == RunTouches(wide, FirstFrame(r), EndFrame(r) - FirstFrame(r), g)
  {
    hide Touches, FirstFrame, EndFrame;
  }

  /** Counting the span from frame 0 changes nothing above the low frames. */
  lemma {:induction false} RunFromZero(s: nat, e: nat, g: nat)
    requires s <= LOW_FRAMES <= g && s <= e
    ensures RunTouches(false, s, e - s, g) == RunTouches(false, 0, e, g)
  {
    hide Touches;
    forall f | 0 <= f < s
      ensures !Touches(false, f, g)
    {
      TouchesSelf(false, f, g);
    }
    if f :| 0 <= f < e && Touches(false, f, g) {
      assert s <= f < s + (e - s);
    }
  }

  lemma {:induction false} ReachesFromStart(r: Region, g: nat)
    requires FirstFrame(r) < EndFrame(r) && LOW_FRAMES <= g
    ensures Reaches(false, r, g) == RunTouches(false, SpanStart(r), EndFrame(r) - SpanStart(r), g)
  {
    hide Touches, FirstFrame, EndFrame, Reaches, RunTouches;
    ReachesIsRun(false, r, g);
    if FirstFrame(r) <= LOW_FRAMES {
      RunFromZero(FirstFrame(r), EndFrame(r), g);
    }
  }

  /** A flat span: above the low frames both masks reach the span's own frames. */
  lemma {:induction false} FlatSpanReaches(r: Region, g: nat)
    requires FlatSpan(r) && LOW_FRAMES <= g
    ensures Reaches(false, r, g) == Reaches(true, r, g)
  {
    hide Touches, FirstFrame, EndFrame, RunTouches, LowOrWhole;
    ReachesIsSpan(r, g);
    if FirstFrame(r) < EndFrame(r) {
      ReachesFromStart(r, g);
      LowOrWholeTouches(SpanStart(r), EndFrame(r) - SpanStart(r), g);
    }
  }

  /** Any other span: some frame of its words above the low frames is reached by one mask only. */
  lemma {:induction false} OtherSpanReaches(r: Region) returns (g: nat)
    requires !FlatSpan(r)
    ensures LOW_FRAMES <= g && g / 64 <= (EndFrame(r) - 1) / 64
    ensures Reaches(false, r, g) != Reaches(true, r, g)
  {
    hide Touches, FirstFrame, EndFrame, RunTouches, LowOrWhole, Reaches;
    var s := SpanStart(r);
    g := NotLowOrWhole(s, EndFrame(r) - s);
    ReachesIsSpan(r, g);
    ReachesFromStart(r, g);
  }

  lemma {:induction false} WrittenUsed(wide: bool, words: seq<Word>, r: Region, f: nat)
    requires 0 < |words| && EndFrame(r) <= 64 * |words| && f < 64 * |words|
    ensures Used(Written(wide, words, r), f)
            == (f < LOW_FRAMES || if Reaches(wide, r, f) then r.kind != AVAILABLE else Used(words, f))
  {
    hide Touches, SetFrame, Used, ReachesBelow;
    ReserveLowUsed(wide, WriteRegion(wide, words, r, EndFrame(r)), LOW_FRAMES, f);
    if f >= LOW_FRAMES {
      WriteRegionUsed(wide, words, r, EndFrame(r), f);
    }
  }

  /** On every bitmap the code as written treats a region like the 64-bit mask would, exactly when the
      span is flat. */
  lemma {:induction false} RegionIsFlat(r: Region, n: nat)
    requires 0 < n && EndFrame(r) <= 64 * n
    ensures (forall words: seq<Word> | |words| == n :: Written(false, words, r) == Written(true, words, r))
            <==> FlatSpan(r)
  {
    hide Written, Reaches, FlatSpan, Used;
    if FlatSpan(r) {
      forall words: seq<Word> | |words| == n
        ensures Written(false, words, r) == Written(true, words, r)
      {
        forall g | 0 <= g < 64 * n
          ensures Used(Written(false, words, r), g) == Used(Written(true, words, r), g)
        {
          WrittenUsed(false, words, r, g);
          WrittenUsed(true, words, r, g);
          if g >= LOW_FRAMES {
            FlatSpanReaches(r, g);
          }
        }
        SameFrames(Written(false, words, r), Written(true, words, r));
      }
    } else {
      var g := OtherSpanReaches(r);
      NotFlatIsNonempty(r);
      FrameBelow(g, EndFrame(r), n);
      var words: seq<Word> := seq(n, _ => seq(64, _ => r.kind == AVAILABLE));
      UniformUsed(words, r.kind == AVAILABLE, g);
      WrittenUsed(false, words, r, g);
      WrittenUsed(true, words, r, g);
      assert Written(false, words, r) != Written(true, words, r);
    }
  }

  lemma {:induction false} NotFlatIsNonempty(r: Region)
    requires !FlatSpan(r)
    ensures FirstFrame(r) < EndFrame(r)
  {
  }

  lemma {:induction false} FrameBelow(g: nat, e: nat, n: nat)
    requires 0 < e <= 64 * n && g / 64 <= (e - 1) / 64
    ensures g < 64 * n
  {
  }

  predicate FlatSpans(regions: seq<Region>, k: nat)
    requires k <= |regions|
  {
    forall i | 0 <= i < k :: FlatSpan(regions[i])
  }

  lemma {:induction false} LastSame(regions: seq<Region>, k: nat, f: nat)
    requires k <= |regions| && FlatSpans(regions, k) && LOW_FRAMES <= f
    ensures LastIsAvailable(false, regions, k, f) == LastIsAvailable(true, regions, k, f)
    ensures (forall i | 0 <= i < k :: !Reaches(false, regions[i], f)) ==
      (forall i | 0 <= i < k :: !Reaches(true, regions[i], f))
  {
    hide Reaches, FlatSpan;
    forall i | 0 <= i < k
      ensures Reaches(false, regions[i], f) == Reaches(true, regions[i], f)
    {
      FlatSpanReaches(regions[i], f);
    }
    forall i: nat | i < k
      ensures LastToReach(false, regions, k, i, f) == LastToReach(true, regions, k, i, f)
    {
    }
  }

  /** With flat spans only, set-up as written leaves exactly the bitmap the 64-bit mask would leave. */
  lemma {:induction false} InitialIsFlat(regions: seq<Region>)
    requires InBounds(regions, Processed(regions, ManagedEnd(regions), 0), PMM_FRAMES)
    requires FlatSpans(regions, Processed(regions, ManagedEnd(regions), 0))
    ensures InitialWords(false, regions) == InitialWords(true, regions)
  {
    var k := Processed(regions, ManagedEnd(regions), 0);
    var words := Cleared(ManagedWords(regions));
    hide Reaches, FlatSpan, Used, Processed, ManagedEnd, ManagedWords, Cleared, LastIsAvailable, WriteRegions,
      ReserveLow;
    forall g | 0 <= g < PMM_FRAMES
      ensures Used(InitialWords(false, regions), g) == Used(InitialWords(true, regions), g)
    {
      ReserveLowUsed(false, WriteRegions(false, words, regions, k), LOW_FRAMES, g);
      ReserveLowUsed(true, WriteRegions(true, words, regions, k), LOW_FRAMES, g);
      if g >= LOW_FRAMES {
        WriteRegionsUsed(false, words, regions, k, g);
        WriteRegionsUsed(true, words, regions, k, g);
        LastSame(regions, k, g);
      }
    }
    SameFrames(InitialWords(false, regions), InitialWords(true, regions));
  }

  /** For any memory map: the managed frames are as the 64-bit mask would leave them, exactly when the last
      region to reach each frame above the low ones is of the same availability under both masks. */
  lemma {:induction false} ManagedIsFlat(regions: seq<Region>)
    requires ManagedWords(regions) <= PMM_SIZE
    requires InBounds(regions, Processed(regions, ManagedEnd(regions), 0), PMM_FRAMES)
    ensures (forall f: nat | f < 64 * ManagedWords(regions) ::
               Used(InitialWords(false, regions), f) == Used(InitialWords(true, regions), f))
            <==> forall f: nat | LOW_FRAMES <= f < 64 * ManagedWords(regions) ::
                   LastIsAvailable(false, regions, Processed(regions, ManagedEnd(regions), 0), f)
                   == LastIsAvailable(true, regions, Processed(regions, ManagedEnd(regions), 0), f)
  {
    hide Used, Processed, ManagedEnd, ManagedWords, LastIsAvailable, InitialWords;
    forall wide: bool, f: nat | f < 64 * ManagedWords(regions)
      ensures !Used(InitialWords(wide, regions), f)
              <==> f >= LOW_FRAMES
                   && LastIsAvailable(wide, regions, Processed(regions, ManagedEnd(regions), 0), f)
    {
      InitialUsed(wide, regions, f);
    }
  }
}
