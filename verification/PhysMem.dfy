/** The physical frame allocator. */
module PhysMem {
  import opened Words
  import opened Bitmap
  import opened FrameSearch
  import opened FrameLedger
  import opened MemoryMap

  class Pmm {
    const build: Build
    const pmm: array<Word>
    var mmEnd: nat
    var end: u64
    var totalAvail: u64

    ghost predicate Valid()
      reads this
    {
      pmm.Length == PMM_SIZE && mmEnd <= PMM_SIZE
    }

    /** The statically allocated, zeroed globals. */
    constructor (build: Build)
      ensures Valid() && this.build == build && fresh(pmm)
    {
      this.build := build;
      pmm := new Word[PMM_SIZE](_ => seq(64, _ => false));
      mmEnd, end, totalAvail := 0, 0, 0;
    }

    method GetPhys(addr: u64) returns (b: bool)
      requires Valid() && addr / FRAME < PMM_FRAMES
      ensures b == Used(pmm[..], addr / FRAME)
    {
      var page := addr / FRAME;
      b := pmm[page / 64][page % 64];
    }

    method SetPhys(addr: u64, b: bool)
      requires Valid() && addr / FRAME < PMM_FRAMES
      modifies pmm
      ensures pmm[..] == SetFrame(build.wide, old(pmm[..]), addr / FRAME, b)
    {
      var page := addr / FRAME;
      var idx, bit := page / 64, page % 64;
      var mask := Mask(build.wide, bit);
      if b {
        pmm[idx] := OrBits(pmm[idx], mask);
      } else {
        pmm[idx] := AndNotBits(pmm[idx], mask);
      }
    }

    method Init(mmap: seq<Region>) returns (total: u64)
      requires Valid()
      requires ManagedWords(mmap) <= PMM_SIZE
      requires InBounds(mmap, Processed(mmap, ManagedEnd(mmap), 0), PMM_FRAMES)
      modifies this, pmm
      ensures Valid()
      ensures end == ManagedEnd(mmap) && mmEnd == ManagedWords(mmap)
      ensures total == totalAvail == TotalAvailable(mmap, |mmap|)
      ensures pmm[..] == InitialWords(build.wide, mmap)
    {
      var highestAvail: u64 := 0;
      totalAvail := 0;
      for i := 0 to |mmap|
        invariant highestAvail == Highest(mmap, i) && totalAvail == TotalAvailable(mmap, i)
      {
        var r := mmap[i];
        if r.kind == AVAILABLE {
          totalAvail := AddWrap(totalAvail, r.len);
        }
        if AddWrap(r.addr, r.len) > highestAvail && r.kind == AVAILABLE {
          highestAvail := AddWrap(r.addr, r.len);
        }
      }
      highestAvail := RoundUp(highestAvail);
      var numBits := highestAvail / FRAME + 64;
      end := highestAvail;
      mmEnd := numBits / 64 - 1;
      assert mmEnd == ManagedWords(mmap);
      Fill();
      MarkRegions(mmap);
      ReserveLowFrames();
      total := totalAvail;
    }

    /** `memset` of the whole bitmap to bytes of 1, then the managed words to all ones. */
    method Fill()
      requires Valid()
      modifies pmm
      ensures pmm[..] == Cleared(mmEnd)
    {
      for w := 0 to PMM_SIZE
        invariant forall i | 0 <= i < w :: pmm[i] == ByteOnes()
      {
        pmm[w] := ByteOnes();
      }
      for w := 0 to mmEnd
        invariant forall i | 0 <= i < w :: pmm[i] == AllOnes()
        invariant forall i | w <= i < PMM_SIZE :: pmm[i] == ByteOnes()
      {
        pmm[w] := AllOnes();
      }
      FilledIsCleared(pmm[..], mmEnd);
    }

    method ReserveLowFrames()
      requires Valid()
      modifies pmm
      ensures pmm[..] == ReserveLow(build.wide, old(pmm[..]), LOW_FRAMES)
    {
      hide SetFrame;
      for k := 0 to LOW_FRAMES
        invariant pmm[..] == ReserveLow(build.wide, old(pmm[..]), k)
      {
        FrameOfBoundary(k);
        SetPhys(FRAME * k, true);
      }
    }

    /** The loop of `physmem_init` over the regions, up to the first above the managed end. */
    method MarkRegions(mmap: seq<Region>)
      requires Valid()
      requires InBounds(mmap, Processed(mmap, end, 0), PMM_FRAMES)
      modifies pmm
      ensures pmm[..] == WriteRegions(build.wide, old(pmm[..]), mmap, Processed(mmap, end, 0))
    {
      ghost var words0 := pmm[..];
      var i := 0;
      while i < |mmap|
        invariant i <= |mmap| && i <= Processed(mmap, end, 0)
        invariant Processed(mmap, end, i) == Processed(mmap, end, 0)
        invariant pmm[..] == WriteRegions(build.wide, words0, mmap, i)
      {
        var r := mmap[i];
        if r.addr > end {
          break;
        }
        MarkRegion(r);
        i := i + 1;
      }
    }

    method MarkRegion(r: Region)
      requires Valid() && EndFrame(r) <= PMM_FRAMES
      modifies pmm
      ensures pmm[..] == WriteRegion(build.wide, old(pmm[..]), r, EndFrame(r))
    {
      hide SetFrame;
      ghost var words0 := pmm[..];
      var mapStart, mapEnd := RoundUp(r.addr), RoundUp(End(r));
      RoundedFrames(r);
      var addr := mapStart;
      ghost var f := FirstFrame(r);
      while addr < mapEnd
        invariant addr == FRAME * f && FirstFrame(r) <= f
        invariant f <= EndFrame(r) ==> pmm[..] == WriteRegion(build.wide, words0, r, f)
        invariant f > EndFrame(r) ==> f == FirstFrame(r) && pmm[..] == words0
        decreases mapEnd - addr
      {
        FrameOfBoundary(f);
        SetPhys(addr, r.kind != AVAILABLE || addr < FRAME);
        addr := addr + FRAME;
        f := f + 1;
      }
      if f <= EndFrame(r) {
        assert f == EndFrame(r);
      } else {
        assert WriteRegion(build.wide, words0, r, EndFrame(r)) == words0;
      }
    }

    /** The search loop: two nested loops over words and bits, with a counter of free frames. */
    method FindPages(numPages: nat) returns (found: bool, startIdx: nat, startBit: nat)
      requires Valid()
      ensures Search(build.reset, old(pmm[..]), mmEnd, numPages) ==
        if found then Some(64 * startIdx + startBit) else None
      ensures found ==> 64 * startIdx + startBit + numPages <= 64 * mmEnd
    {
      hide Search, Visited, VisitedTo, ScanFrames;
      var contiguous := 0;
      found, startIdx, startBit := false, 0, 0;
      ghost var words := pmm[..];
      ScanStarts(build.reset, words, numPages);
      for idx := 0 to mmEnd
        invariant ScanFrames(words, Visited(build.reset, words, idx), numPages)
                  == Scan(64 * startIdx + startBit, contiguous, false)
      {
        var mask := pmm[idx];
        if mask == AllOnes() {
          if build.reset {
            ScanFullWord(words, idx, numPages);
            contiguous := 0;
          } else {
            VisitedSkips(words, idx);
          }
          continue;
        }
        VisitedToZero(build.reset, words, idx);
        for bit := 0 to 64
          invariant ScanFrames(words, VisitedTo(build.reset, words, idx, bit), numPages)
                    == Scan(64 * startIdx + startBit, contiguous, false)
        {
          ScanNext(build.reset, words, idx, bit, numPages);
          if !mask[bit] {
            if contiguous == 0 {
              startIdx, startBit := idx, bit;
            }
            contiguous := contiguous + 1;
            if contiguous == numPages {
              ScanFound(build.reset, words, mmEnd, idx, bit, numPages);
              found := true;
              return;
            }
          } else {
            contiguous := 0;
          }
        }
        VisitedToEnd(build.reset, words, idx);
      }
      NothingFound(build.reset, words, mmEnd, numPages);
    }

    /** Returns 0 when nothing is found. Otherwise the frames that begin among the bytes granted are marked. */
    method PhysMalloc(size: u64) returns (addr: nat)
      requires Valid()
      modifies pmm
      ensures var n := FramesFor(size);
              match Search(build.reset, old(pmm[..]), mmEnd, n)
              case None => addr == 0 && pmm[..] == old(pmm[..])
              case Some(s) =>
                && s + n <= 64 * mmEnd
                && addr == s * FRAME
                && pmm[..] == MarkRun(old(pmm[..]), s, n)
      ensures
        || (addr == 0 && pmm[..] == old(pmm[..]))
        || (addr + size <= FRAME * (64 * mmEnd)
            && forall f: nat | f < PMM_FRAMES ::
                 Used(pmm[..], f) <==> Used(old(pmm[..]), f) || addr <= FRAME * f < addr + size)
    {
      hide FramesFor, Search, MarkRun, Used;
      GrantInBytes(build.reset, pmm[..], mmEnd, size);
      var numPages := FramesFor(size);
      var found, startIdx, startBit := FindPages(numPages);
      if !found {
        return 0;
      }
      MarkPages(startIdx, startBit, numPages);
      addr := (startIdx * 64 + startBit) * FRAME;
    }

    method MarkPages(startIdx: nat, startBit: nat, n: nat)
      requires Valid() && 64 * startIdx + startBit + n <= PMM_FRAMES
      modifies pmm
      ensures pmm[..] == MarkRun(old(pmm[..]), 64 * startIdx + startBit, n)
    {
      for i := 0 to n
        invariant pmm[..] == MarkRun(old(pmm[..]), 64 * startIdx + startBit, i)
      {
        var allocIdx := startIdx + (startBit + i) / 64;
        var allocBit := (startBit + i) % 64;
        pmm[allocIdx] := OrBits(pmm[allocIdx], WideShift(allocBit));
      }
    }

    method PhysFree(addr: u64, size: u64)
      requires Valid() && addr + size <= PMM_FRAMES * FRAME
      modifies pmm
      ensures pmm[..] == FreeRun(build.wide, old(pmm[..]), addr / FRAME, (size + FRAME - 1) / FRAME)
    {
      hide SetFrame;
      ghost var words0 := pmm[..];
      ghost var k := 0;
      var f := addr;
      while f < addr + size
        invariant f == addr + k * FRAME && (k > 0 ==> (k - 1) * FRAME < size)
        invariant k <= (size + FRAME - 1) / FRAME
        invariant pmm[..] == FreeRun(build.wide, words0, addr / FRAME, k)
        decreases addr + size - f
      {
        assert f / FRAME == addr / FRAME + k;
        SetPhys(f, false);
        f := f + FRAME;
        k := k + 1;
      }
    }
  }

  lemma {:induction false} FilledIsCleared(words: seq<Word>, mmEnd: nat)
    requires |words| == PMM_SIZE
    requires forall i | 0 <= i < mmEnd && i < PMM_SIZE :: words[i] == AllOnes()
    requires forall i | mmEnd <= i < PMM_SIZE :: words[i] == ByteOnes()
    ensures words == Cleared(mmEnd)
  {
    forall i | 0 <= i < PMM_SIZE
      ensures words[i] == Cleared(mmEnd)[i]
    {
    }
  }

  lemma {:induction false} FrameOfBoundary(f: nat)
    ensures (FRAME * f) / FRAME == f
    ensures FRAME * f < FRAME <==> f == 0
  {
  }

  lemma {:induction false} RoundedFrames(r: Region)
    ensures RoundUp(r.addr) == FRAME * FirstFrame(r)
    ensures RoundUp(End(r)) == FRAME * EndFrame(r)
  {
    RoundUpIsLeast(r.addr);
    RoundUpIsLeast(End(r));
  }

  ghost function VisitedTo(reset: bool, words: seq<Word>, idx: nat, bit: nat): seq<nat>
    requires idx <= |words|
  {
    Visited(reset, words, idx) + seq(bit, j => 64 * idx + j)
  }

  lemma {:induction false} VisitedToZero(reset: bool, words: seq<Word>, idx: nat)
    requires idx <= |words|
    ensures VisitedTo(reset, words, idx, 0) == Visited(reset, words, idx)
  {
  }

  lemma {:induction false} VisitedToEnd(reset: bool, words: seq<Word>, idx: nat)
    requires idx < |words| && !Skipped(reset, words[idx])
    ensures VisitedTo(reset, words, idx, 64) == Visited(reset, words, idx + 1)
  {
  }

  lemma {:induction false} VisitedSkips(words: seq<Word>, idx: nat)
    requires idx < |words| && words[idx] == AllOnes()
    ensures Visited(false, words, idx + 1) == Visited(false, words, idx)
  {
  }

  lemma {:induction false} VisitedToNext(reset: bool, words: seq<Word>, idx: nat, bit: nat)
    requires idx < |words| && bit < 64 && !Skipped(reset, words[idx])
    ensures VisitedTo(reset, words, idx, bit + 1) == VisitedTo(reset, words, idx, bit) + [64 * idx + bit]
  {
  }

  lemma {:induction false} VisitedToGrows(reset: bool, words: seq<Word>, idx: nat, bit: nat, k: nat)
    requires idx < k <= |words| && bit <= 64 && !Skipped(reset, words[idx])
    ensures VisitedTo(reset, words, idx, bit) <= Visited(reset, words, k)
  {
    VisitedGrows(reset, words, idx + 1, k);
    assert VisitedTo(reset, words, idx, bit) <= Visited(reset, words, idx + 1);
  }

  // The scan of `phys_malloc`.

  /** The start and the counter the loop keeps, and whether the counter has reached its target. */
  datatype Scan = Scan(start: nat, count: nat, hit: bool)

  function ScanFrame(words: seq<Word>, s: Scan, f: nat, n: nat): Scan
    requires f < 64 * |words|
  {
    if s.hit then s
    else if Used(words, f) then Scan(s.start, 0, false)
    else Scan(if s.count == 0 then f else s.start, s.count + 1, s.count + 1 == n)
  }

  function ScanFrames(words: seq<Word>, seen: seq<nat>, n: nat): Scan {
    if seen == [] then Scan(0, 0, false)
    else
      var s, f := ScanFrames(words, seen[..|seen| - 1], n), seen[|seen| - 1];
      if f < 64 * |words| then ScanFrame(words, s, f, n) else s
  }

  lemma {:induction false} ScanStarts(reset: bool, words: seq<Word>, n: nat)
    ensures ScanFrames(words, Visited(reset, words, 0), n) == Scan(0, 0, false)
  {
  }

  lemma {:induction false} ScanNext(reset: bool, words: seq<Word>, idx: nat, bit: nat, n: nat)
    requires idx < |words| && bit < 64 && !Skipped(reset, words[idx])
    ensures var f := 64 * idx + bit;
            && Used(words, f) == words[idx][bit]
            && ScanFrames(words, VisitedTo(reset, words, idx, bit + 1), n)
               == ScanFrame(words, ScanFrames(words, VisitedTo(reset, words, idx, bit), n), f, n)
  {
    VisitedToNext(reset, words, idx, bit);
    var seen := VisitedTo(reset, words, idx, bit);
    assert (seen + [64 * idx + bit])[..|seen|] == seen;
  }

  /** `count` examined frames at the end of `seen` are free, and no run of length `n` was passed. */

  ghost predicate NoRun(words: seq<Word>, seen: seq<nat>, n: nat) {
    forall i: nat :: !FreeAt(words, seen, i, n)
  }

  ghost predicate Counted(words: seq<Word>, seen: seq<nat>, start: nat, count: nat, n: nat) {
    && count <= |seen|
    && (forall j | 0 <= j < |seen| :: seen[j] < 64 * |words|)
    && (forall j | |seen| - count <= j < |seen| :: !Used(words, seen[j]))
    && (count < |seen| ==> Used(words, seen[|seen| - count - 1]))
    && (count > 0 ==> start == seen[|seen| - count])
    && (n > 0 ==> count < n && NoRun(words, seen, n))
  }

  lemma {:induction false} CountedUsed(words: seq<Word>, seen: seq<nat>, start: nat, count: nat, n: nat, f: nat)
    requires Counted(words, seen, start, count, n) && f < 64 * |words| && Used(words, f)
    ensures Counted(words, seen + [f], start, 0, n)
  {
    if n > 0 {
      forall i: nat
        ensures !FreeAt(words, seen + [f], i, n)
      {
        StillNoRun(words, seen, f, i, n);
      }
    }
  }

  lemma {:induction false} CountedFree(words: seq<Word>, seen: seq<nat>, start: nat, count: nat, n: nat, f: nat)
    requires Counted(words, seen, start, count, n) && f < 64 * |words| && !Used(words, f)
    requires count + 1 != n
    ensures Counted(words, seen + [f], if count == 0 then f else start, count + 1, n)
  {
    if n > 0 {
      forall i: nat
        ensures !FreeAt(words, seen + [f], i, n)
      {
        StillNoRun(words, seen, f, i, n);
        if count < |seen| {
          assert (seen + [f])[|seen| - count - 1] == seen[|seen| - count - 1];
        }
      }
    }
  }

  lemma {:induction false} StillNoRun(words: seq<Word>, seen: seq<nat>, f: nat, i: nat, n: nat)
    requires n > 0 && NoRun(words, seen, n)
    ensures FreeAt(words, seen + [f], i, n) ==> i + n == |seen| + 1
  {
    if FreeAt(words, seen + [f], i, n) && i + n <= |seen| {
      assert forall j | i <= j < i + n :: seen[j] == (seen + [f])[j];
      assert FreeAt(words, seen, i, n);
    }
  }

  lemma {:induction false} ScanIsCounted(words: seq<Word>, seen: seq<nat>, n: nat)
    requires forall j | 0 <= j < |seen| :: seen[j] < 64 * |words|
    ensures var s := ScanFrames(words, seen, n);
            !s.hit ==> Counted(words, seen, s.start, s.count, n)
  {
    if seen == [] {
    } else {
      hide Counted, Used;
      var front, f := seen[..|seen| - 1], seen[|seen| - 1];
      assert seen == front + [f];
      ScanIsCounted(words, front, n);
      var s := ScanFrames(words, front, n);
      if !ScanFrames(words, seen, n).hit {
        if Used(words, f) {
          CountedUsed(words, front, s.start, s.count, n, f);
        } else {
          CountedFree(words, front, s.start, s.count, n, f);
        }
      }
    }
  }

  lemma {:induction false} VisitedScanIsCounted(reset: bool, words: seq<Word>, k: nat, seen: seq<nat>, n: nat)
    requires k <= |words| && seen <= Visited(reset, words, k)
    ensures var s := ScanFrames(words, seen, n);
            !s.hit ==> Counted(words, seen, s.start, s.count, n)
  {
    VisitedOrder(reset, words, k);
    forall j | 0 <= j < |seen|
      ensures seen[j] < 64 * |words|
    {
      assert seen[j] == Visited(reset, words, k)[j];
    }
    ScanIsCounted(words, seen, n);
  }

  lemma {:induction false} ScanUsed(words: seq<Word>, seen: seq<nat>, fs: seq<nat>, n: nat)
    requires !ScanFrames(words, seen, n).hit && fs != []
    requires forall j | 0 <= j < |fs| :: fs[j] < 64 * |words| && Used(words, fs[j])
    ensures ScanFrames(words, seen + fs, n) == Scan(ScanFrames(words, seen, n).start, 0, false)
  {
    var front := fs[..|fs| - 1];
    assert (seen + fs)[..|seen + fs| - 1] == seen + front;
    if front == [] {
      assert seen + front == seen;
    } else {
      ScanUsed(words, seen, front, n);
    }
  }

  lemma {:induction false} ScanFullWord(words: seq<Word>, idx: nat, n: nat)
    requires idx < |words| && words[idx] == AllOnes()
    requires !ScanFrames(words, Visited(true, words, idx), n).hit
    ensures ScanFrames(words, Visited(true, words, idx + 1), n)
            == Scan(ScanFrames(words, Visited(true, words, idx), n).start, 0, false)
  {
    ScanUsed(words, Visited(true, words, idx), seq(64, j => 64 * idx + j), n);
  }

  lemma {:induction false} NothingFound(reset: bool, words: seq<Word>, mmEnd: nat, n: nat)
    requires mmEnd <= |words| && !ScanFrames(words, Visited(reset, words, mmEnd), n).hit
    ensures Search(reset, words, mmEnd, n) == None
  {
    if n > 0 {
      VisitedScanIsCounted(reset, words, mmEnd, Visited(reset, words, mmEnd), n);
      FindFromIsFirst(words, Visited(reset, words, mmEnd), 0, n);
    }
  }

  lemma {:induction false} ScanFound(reset: bool, words: seq<Word>, mmEnd: nat, idx: nat, bit: nat, n: nat)
    requires idx < mmEnd <= |words| && bit < 64 && !words[idx][bit]
    requires !ScanFrames(words, VisitedTo(reset, words, idx, bit), n).hit
    requires ScanFrames(words, VisitedTo(reset, words, idx, bit), n).count + 1 == n
    ensures var start := ScanFrames(words, VisitedTo(reset, words, idx, bit + 1), n).start;
            Search(reset, words, mmEnd, n) == Some(start) && start + n <= 64 * mmEnd
  {
    var seen, f := VisitedTo(reset, words, idx, bit), 64 * idx + bit;
    var s := ScanFrames(words, seen, n);
    ScanNext(reset, words, idx, bit, n);
    VisitedToNext(reset, words, idx, bit);
    VisitedToGrows(reset, words, idx, bit, mmEnd);
    VisitedToGrows(reset, words, idx, bit + 1, mmEnd);
    VisitedScanIsCounted(reset, words, mmEnd, seen, n);
    RunFound(reset, words, mmEnd, seen, s.start, s.count, n, f);
  }

  lemma {:induction false} RunFound(reset: bool, words: seq<Word>, mmEnd: nat, seen: seq<nat>, start: nat,
      count: nat, n: nat, f: nat)
    requires mmEnd <= |words| && n > 0
    requires Counted(words, seen, start, count, n) && count + 1 == n
    requires f < 64 * |words| && !Used(words, f)
    requires seen + [f] <= Visited(reset, words, mmEnd)
    ensures Search(reset, words, mmEnd, n) == Some(if count == 0 then f else start)
    ensures (if count == 0 then f else start) + n <= 64 * mmEnd
  {
    hide FreeAt;
    var visited := Visited(reset, words, mmEnd);
    var r := |seen| - count;
    LastRunIsFree(words, seen, start, count, n, f);
    FreeAtPrefix(words, seen + [f], visited, r, n);
    forall i: nat | i < r
      ensures !FreeAt(words, visited, i, n)
    {
      FreeAtPrefix(words, seen, visited, i, n);
    }
    FindFromIsFirst(words, visited, 0, n);
    SearchIsFirstFit(reset, words, mmEnd, n);
    assert visited[r] == (seen + [f])[r];
  }

  lemma {:induction false} LastRunIsFree(words: seq<Word>, seen: seq<nat>, start: nat, count: nat, n: nat, f: nat)
    requires Counted(words, seen, start, count, n) && count + 1 == n
    requires f < 64 * |words| && !Used(words, f)
    ensures FreeAt(words, seen + [f], |seen| - count, n)
  {
  }

  lemma {:induction false} FreeAtPrefix(words: seq<Word>, seen: seq<nat>, visited: seq<nat>, i: nat, n: nat)
    requires seen <= visited && i + n <= |seen|
    ensures FreeAt(words, visited, i, n) == FreeAt(words, seen, i, n)
  {
    assert forall j | 0 <= j < |seen| :: visited[j] == seen[j];
  }
}
