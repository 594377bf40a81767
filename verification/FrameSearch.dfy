/** What `phys_malloc` and `phys_free` compute, as functions on the words of the bitmap. */
module FrameSearch {
  import opened Words
  import opened Bitmap
  import Bits

  /** Frames needed for `size` bytes; the rounding wraps for sizes in the last frame below 2^64. */
  function FramesFor(size: u64): nat {
    AddWrap(size, FRAME - 1) / FRAME
  }

  predicate RunFree(words: seq<Word>, s: nat, n: nat) {
    s + n <= 64 * |words| && forall f | s <= f < s + n :: !Used(words, f)
  }

  /** Bits `s` to `s+n-1` set, one at a time (the marking loop of `phys_malloc`). */
  function MarkRun(words: seq<Word>, s: nat, n: nat): (r: seq<Word>)
    requires s + n <= 64 * |words|
    ensures |r| == |words|
  {
    if n == 0 then words else SetFrame(true, MarkRun(words, s, n - 1), s + n - 1, true)
  }

  /** Frames `s` to `s+n-1` cleared by `set_phys`, one at a time (`phys_free`). */
  function FreeRun(wide: bool, words: seq<Word>, s: nat, n: nat): (r: seq<Word>)
    requires s + n <= 64 * |words|
    ensures |r| == |words|
  {
    if n == 0 then words else SetFrame(wide, FreeRun(wide, words, s, n - 1), s + n - 1, false)
  }

  /** The loop of `phys_malloc` leaves word `w` out of its scan: the word is full and the build does
      not count a full word as 64 used frames. */
  predicate Skipped(reset: bool, w: Word) {
    !reset && w == AllOnes()
  }

  /** The frames `phys_malloc` examines in the first `k` words, in order. As written, a full word is
      skipped and the run counter is left alone; `reset` selects the form that zeroes it. */
  function Visited(reset: bool, words: seq<Word>, k: nat): seq<nat>
    requires k <= |words|
  {
    if k == 0 then []
    else
      Visited(reset, words, k - 1)
      + if Skipped(reset, words[k - 1]) then [] else seq(64, j => 64 * (k - 1) + j)
  }

  predicate FreeAt(words: seq<Word>, visited: seq<nat>, i: nat, n: nat) {
    i + n <= |visited|
    && forall j | i <= j < i + n :: visited[j] < 64 * |words| && !Used(words, visited[j])
  }

  /** The first index at or after `i` where `n` examined frames in a row are free. */
  function FindFrom(words: seq<Word>, visited: seq<nat>, i: nat, n: nat): Option<nat>
    decreases |visited| - i
  {
    if i + n > |visited| then None
    else if FreeAt(words, visited, i, n) then Some(i)
    else if i == |visited| then None
    else FindFrom(words, visited, i + 1, n)
  }

  /** The start frame `phys_malloc` settles on, if any. */
  function Search(reset: bool, words: seq<Word>, mmEnd: nat, n: nat): Option<nat>
    requires mmEnd <= |words|
  {
    var visited := Visited(reset, words, mmEnd);
    if n == 0 then None
    else
      match FindFrom(words, visited, 0, n)
      case None => None
      case Some(i) => if i < |visited| then Some(visited[i]) else None
  }

  lemma {:induction false} FindFromIsFirst(words: seq<Word>, visited: seq<nat>, i: nat, n: nat)
    requires n > 0
    ensures match FindFrom(words, visited, i, n)
            case None => forall k: nat | i <= k :: !FreeAt(words, visited, k, n)
            case Some(r) => i <= r && FreeAt(words, visited, r, n)
                            && forall k: nat | i <= k < r :: !FreeAt(words, visited, k, n)
    decreases |visited| - i
  {
    if i + n > |visited| || FreeAt(words, visited, i, n) {
    } else {
      FindFromIsFirst(words, visited, i + 1, n);
    }
  }

  // The examined frames ascend; a frame of a word that is not skipped sits at a known index.

  function Index(reset: bool, words: seq<Word>, f: nat): nat
    requires f < 64 * |words|
  {
    |Visited(reset, words, f / 64)| + f % 64
  }

  lemma {:induction false} VisitedGrows(reset: bool, words: seq<Word>, j: nat, k: nat)
    requires j <= k <= |words|
    ensures Visited(reset, words, j) <= Visited(reset, words, k)
    decreases k
  {
    if j == k {
    } else {
      VisitedGrows(reset, words, j, k - 1);
    }
  }

  lemma {:induction false} VisitedAt(reset: bool, words: seq<Word>, k: nat, f: nat)
    requires k <= |words| && f < 64 * k && !Skipped(reset, words[f / 64])
    ensures var visited := Visited(reset, words, k);
            Index(reset, words, f) < |visited| && visited[Index(reset, words, f)] == f
  {
    VisitedGrows(reset, words, f / 64 + 1, k);
  }

  predicate InOrder(visited: seq<nat>, reset: bool, words: seq<Word>, k: nat)
    requires k <= |words|
  {
    && (forall i | 0 <= i < |visited| :: visited[i] < 64 * k && !Skipped(reset, words[visited[i] / 64]))
    && (forall i, j | 0 <= i < j < |visited| :: visited[i] < visited[j])
  }

  lemma {:induction false} VisitedOrder(reset: bool, words: seq<Word>, k: nat)
    requires k <= |words|
    ensures InOrder(Visited(reset, words, k), reset, words, k)
  {
    if k == 0 {
    } else {
      VisitedOrder(reset, words, k - 1);
      var before, visited := Visited(reset, words, k - 1), Visited(reset, words, k);
      forall i | 0 <= i < |visited|
        ensures visited[i] < 64 * k && !Skipped(reset, words[visited[i] / 64])
        ensures i < |before| ==> visited[i] == before[i] && before[i] < 64 * (k - 1)
        ensures i >= |before| ==> visited[i] == 64 * (k - 1) + i - |before|
      {
        if i < |before| {
          assert visited[i] == before[i];
        } else {
          assert visited[i] / 64 == k - 1;
        }
      }
    }
  }

  lemma {:induction false} VisitedSpreads(reset: bool, words: seq<Word>, k: nat, i: nat, n: nat)
    requires k <= |words| && i + n < |Visited(reset, words, k)|
    ensures Visited(reset, words, k)[i] + n <= Visited(reset, words, k)[i + n]
  {
    if n == 0 {
    } else {
      VisitedSpreads(reset, words, k, i, n - 1);
      VisitedOrder(reset, words, k);
    }
  }

  /** Frames of consecutive words that are all examined are examined one after the other. */
  lemma {:induction false} IndexOfRun(reset: bool, words: seq<Word>, s: nat, n: nat)
    requires s + n < 64 * |words|
    requires forall f | s <= f < s + n :: !Skipped(reset, words[f / 64])
    ensures Index(reset, words, s + n) == Index(reset, words, s) + n
  {
    if n == 0 {
    } else {
      IndexOfRun(reset, words, s, n - 1);
      var f := s + n - 1;
      assert !Skipped(reset, words[f / 64]);
      if f % 64 == 63 {
        assert (f + 1) / 64 == f / 64 + 1;
      } else {
        assert (f + 1) / 64 == f / 64;
      }
    }
  }

  /** Frame `s + d` is examined `d` places behind frame `s`. */
  lemma {:induction false} VisitedRun(reset: bool, words: seq<Word>, k: nat, s: nat, d: nat)
    requires k <= |words| && s + d < 64 * k
    requires forall f | s <= f <= s + d :: !Skipped(reset, words[f / 64])
    ensures Index(reset, words, s) + d < |Visited(reset, words, k)|
    ensures Visited(reset, words, k)[Index(reset, words, s) + d] == s + d
  {
    hide Skipped, Visited, Index;
    IndexOfRun(reset, words, s, d);
    assert !Skipped(reset, words[(s + d) / 64]);
    VisitedAt(reset, words, k, s + d);
  }

  lemma {:induction false} FreeIsNotSkipped(reset: bool, words: seq<Word>, f: nat)
    requires f < 64 * |words| && !Used(words, f)
    ensures !Skipped(reset, words[f / 64])
  {
  }

  /** No word that the run `[s, s+n)` reaches into was left out of the scan. */
  ghost predicate NoSkippedWord(reset: bool, words: seq<Word>, s: nat, n: nat)
    requires s + n <= 64 * |words|
  {
    forall w | s / 64 <= w && 64 * w < s + n :: !Skipped(reset, words[w])
  }

  /** `phys_malloc` never fails while a free run of the requested length lies below `64 * mmEnd`,
      it never starts beyond the first such run, and what it marks stays below `64 * mmEnd`. The
      frames it marks were all free exactly when its scan skipped no word they reach into, which
      always holds of a build that resets its counter at a full word. */
  lemma {:induction false} SearchIsFirstFit(reset: bool, words: seq<Word>, mmEnd: nat, n: nat)
    requires mmEnd <= |words| && n > 0
    ensures match Search(reset, words, mmEnd, n)
            case None => forall t: nat | t + n <= 64 * mmEnd :: !RunFree(words, t, n)
            case Some(s) =>
              && s + n <= 64 * mmEnd
              && !Used(words, s)
              && (forall t: nat | t + n <= 64 * mmEnd && RunFree(words, t, n) :: s <= t)
              && (RunFree(words, s, n) <==> NoSkippedWord(reset, words, s, n))
  {
    hide Visited, Skipped, Used, FreeAt, RunFree, NoSkippedWord, Index, FindFrom;
    var visited := Visited(reset, words, mmEnd);
    FindFromIsFirst(words, visited, 0, n);
    forall t: nat | t + n <= 64 * mmEnd && RunFree(words, t, n)
      ensures FreeAt(words, visited, Index(reset, words, t), n)
    {
      VisitedRunFree(reset, words, mmEnd, t, n);
    }
    match FindFrom(words, visited, 0, n) {
      case None =>
      case Some(i) =>
        FoundAt(reset, words, mmEnd, i, n);
        forall t: nat | t + n <= 64 * mmEnd && RunFree(words, t, n)
          ensures visited[i] <= t
        {
          VisitedRunFree(reset, words, mmEnd, t, n);
          assert i <= Index(reset, words, t);
          VisitedOrder(reset, words, mmEnd);
        }
        FoundRunIsFree(reset, words, mmEnd, i, n);
    }
  }

  lemma {:induction false} FoundAt(reset: bool, words: seq<Word>, k: nat, i: nat, n: nat)
    requires k <= |words| && n > 0 && FreeAt(words, Visited(reset, words, k), i, n)
    ensures i < |Visited(reset, words, k)|
    ensures var s := Visited(reset, words, k)[i];
            s + n <= 64 * k && s < 64 * |words| && !Used(words, s)
  {
    hide Visited, Used;
    VisitedSpreads(reset, words, k, i, n - 1);
    VisitedOrder(reset, words, k);
  }

  lemma {:induction false} VisitedRunFree(reset: bool, words: seq<Word>, k: nat, t: nat, n: nat)
    requires k <= |words| && n > 0 && t + n <= 64 * k && RunFree(words, t, n)
    ensures var visited := Visited(reset, words, k);
            var i := Index(reset, words, t);
            i + n <= |visited| && visited[i] == t && FreeAt(words, visited, i, n)
  {
    hide Used, Visited, Index;
    forall f | t <= f < t + n
      ensures !Skipped(reset, words[f / 64])
    {
      FreeIsNotSkipped(reset, words, f);
    }
    hide Skipped;
    var visited, i := Visited(reset, words, k), Index(reset, words, t);
    VisitedRun(reset, words, k, t, 0);
    VisitedRun(reset, words, k, t, n - 1);
    forall j | i <= j < i + n
      ensures visited[j] < 64 * |words| && !Used(words, visited[j])
    {
      VisitedRun(reset, words, k, t, j - i);
    }
  }

  lemma {:induction false} FoundRunIsFree(reset: bool, words: seq<Word>, k: nat, i: nat, n: nat)
    requires k <= |words| && n > 0
    requires FreeAt(words, Visited(reset, words, k), i, n)
    requires Visited(reset, words, k)[i] + n <= 64 * k
    ensures var s := Visited(reset, words, k)[i];
            RunFree(words, s, n) <==> NoSkippedWord(reset, words, s, n)
  {
    hide Visited, Index;
    var visited := Visited(reset, words, k);
    var s := visited[i];
    VisitedOrder(reset, words, k);
    if NoSkippedWord(reset, words, s, n) {
      NotSkippedRun(reset, words, s, n);
      hide Used, Skipped, NoSkippedWord;
      VisitedRun(reset, words, k, s, 0);
      assert Index(reset, words, s) == i;
      forall f | s <= f < s + n
        ensures !Used(words, f)
      {
        VisitedRun(reset, words, k, s, f - s);
      }
    } else {
      var w :| s / 64 <= w && 64 * w < s + n && Skipped(reset, words[w]);
      var f := if s > 64 * w then s else 64 * w;
      assert f / 64 == w && Used(words, f);
    }
  }

  lemma {:induction false} NotSkippedRun(reset: bool, words: seq<Word>, s: nat, n: nat)
    requires s + n <= 64 * |words| && NoSkippedWord(reset, words, s, n)
    ensures forall f | s <= f < s + n :: !Skipped(reset, words[f / 64])
  {
    hide Skipped;
  }

  /** One free frame at the top of a word, a full word, then free words: the counter survives the
      full word and the run found there jumps over 64 used frames. */
  function Jump(n: nat): seq<Word> {
    [seq(64, j => j != 63), AllOnes()] + seq(n, _ => seq(64, _ => false))
  }

  lemma {:induction false} JumpVisited(n: nat)
    requires n >= 2
    ensures var words := Jump(n);
            && |Visited(false, words, 2)| == 64
            && 64 <= |Visited(false, words, |words|)| && Visited(false, words, |words|)[63] == 63
  {
    var words := Jump(n);
    assert Visited(false, words, 0) == [];
    assert !words[0][63];
    assert |Visited(false, words, 1)| == 64;
    assert |Visited(false, words, 2)| == 64;
    VisitedAt(false, words, |words|, 63);
    VisitedGrows(false, words, 2, |words|);
  }

  lemma {:induction false} JumpWords(n: nat, f: nat)
    requires f < 64 * |Jump(n)|
    ensures Used(Jump(n), f) == (f != 63 && f < 128)
    ensures f < 64 || 128 <= f ==> !Skipped(false, Jump(n)[f / 64])
  {
    if f >= 128 {
      assert !Jump(n)[f / 64][0];
    } else if f < 64 {
      assert !Jump(n)[0][63];
    }
  }

  lemma {:induction false} JumpIsFreeAt(n: nat)
    requires n >= 2
    ensures FreeAt(Jump(n), Visited(false, Jump(n), |Jump(n)|), 63, n)
  {
    var words := Jump(n);
    var visited := Visited(false, words, |words|);
    JumpVisited(n);
    forall f: nat | f < 64 * |words|
      ensures Used(words, f) == (f != 63 && f < 128)
      ensures 128 <= f ==> !Skipped(false, words[f / 64])
    {
      JumpWords(n, f);
    }
    hide Skipped, Used, Visited, Jump;
    IndexAfterJump(n);
    VisitedRun(false, words, |words|, 128, n - 2);
    forall j | 63 <= j < 63 + n
      ensures j < |visited| && visited[j] < 64 * |words| && !Used(words, visited[j])
    {
      if j > 63 {
        VisitedRun(false, words, |words|, 128, j - 64);
      }
    }
  }

  lemma {:induction false} IndexAfterJump(n: nat)
    requires n >= 2
    ensures 128 < 64 * |Jump(n)| && Index(false, Jump(n), 128) == 64
  {
    JumpVisited(n);
    hide Visited;
  }

  lemma {:induction false} JumpIsUnsound(n: nat)
    requires n >= 2
    ensures var words := Jump(n);
            Search(false, words, |words|, n) == Some(63) && Used(words, 64)
  {
    var words := Jump(n);
    var visited := Visited(false, words, |words|);
    JumpIsFreeAt(n);
    JumpVisited(n);
    FindFromIsFirst(words, visited, 0, n);
    var r := FindFrom(words, visited, 0, n).value;
    VisitedOrder(false, words, |words|);
    JumpWords(n, visited[r]);
    JumpWords(n, 64);
    assert visited[r] <= visited[63];
  }

  /** Whatever the bitmap, the marked frames were all free: this holds exactly when a single frame
      is requested or the build resets its counter at a full word. */
  lemma {:induction false} SearchIsSound(reset: bool, n: nat)
    requires n > 0
    ensures (forall words: seq<Word>, mmEnd: nat | mmEnd <= |words| && Search(reset, words, mmEnd, n).Some? ::
               RunFree(words, Search(reset, words, mmEnd, n).value, n))
            <==> (reset || n == 1)
  {
    if reset || n == 1 {
      forall words: seq<Word>, mmEnd: nat | mmEnd <= |words| && Search(reset, words, mmEnd, n).Some?
        ensures RunFree(words, Search(reset, words, mmEnd, n).value, n)
      {
        SearchIsFirstFit(reset, words, mmEnd, n);
      }
    } else {
      JumpIsUnsound(n);
      var words := Jump(n);
      assert !RunFree(words, Search(reset, words, |words|, n).value, n);
    }
  }

  // Marking and freeing, seen on the flat bitmap.

  lemma {:induction false} MarkRunUsed(words: seq<Word>, s: nat, n: nat, g: nat)
    requires s + n <= 64 * |words| && g < 64 * |words|
    ensures Used(MarkRun(words, s, n), g) == (s <= g < s + n || Used(words, g))
  {
    if n == 0 {
    } else {
      MarkRunUsed(words, s, n - 1, g);
      SetFrameUsed(true, MarkRun(words, s, n - 1), s + n - 1, true, g);
    }
  }

  predicate RunTouches(wide: bool, s: nat, n: nat, g: nat) {
    exists f | s <= f < s + n :: Touches(wide, f, g)
  }

  lemma {:induction false} RunTouchesNext(wide: bool, s: nat, n: nat, g: nat)
    requires n > 0
    ensures RunTouches(wide, s, n, g) == (RunTouches(wide, s, n - 1, g) || Touches(wide, s + n - 1, g))
  {
    hide Touches;
    assert s <= s + n - 1 < s + n;
  }

  lemma {:induction false} FreeRunUsed(wide: bool, words: seq<Word>, s: nat, n: nat, g: nat)
    requires s + n <= 64 * |words| && g < 64 * |words|
    ensures Used(FreeRun(wide, words, s, n), g) == (!RunTouches(wide, s, n, g) && Used(words, g))
  {
    hide SetFrame, Touches, Used;
    if n == 0 {
    } else {
      FreeRunUsed(wide, words, s, n - 1, g);
      SetFrameUsed(wide, FreeRun(wide, words, s, n - 1), s + n - 1, false, g);
      RunTouchesNext(wide, s, n, g);
    }
  }

  lemma {:induction false} SameFrames(a: seq<Word>, b: seq<Word>)
    requires |a| == |b|
    requires forall g | 0 <= g < 64 * |a| :: Used(a, g) == Used(b, g)
    ensures a == b
  {
    forall w | 0 <= w < |a|
      ensures a[w] == b[w]
    {
      forall j | 0 <= j < 64
        ensures a[w][j] == b[w][j]
      {
        assert Used(a, 64 * w + j) == Used(b, 64 * w + j);
      }
    }
  }

  /** In every word the run occupies bits below 31 only, or it occupies the whole word. */
  predicate LowOrWhole(s: nat, n: nat) {
    forall f | s <= f < s + n && f % 64 >= 31 :: s <= 64 * (f / 64) && 64 * (f / 64) + 64 <= s + n
  }

  lemma {:induction false} FrameOfWord(q: nat, i: nat)
    requires i < 64
    ensures (64 * q + i) / 64 == q && (64 * q + i) % 64 == i
    ensures (64 * q + i) % 32 == if i < 32 then i else i - 32
  {
    var f := 64 * q + i;
    Bits.RemainderUnique(f, 64, q, i);
    if i < 32 {
      Bits.RemainderUnique(f, 32, 2 * q, i);
    } else {
      Bits.RemainderUnique(f, 32, 2 * q + 1, i - 32);
    }
  }

  lemma {:induction false} TouchesInWord(q: nat, i: nat, j: nat)
    requires i < 64 && j < 64
    ensures Touches(false, 64 * q + i, 64 * q + j)
            <==> if i == 31 || i == 63 then j >= 31 else if i < 32 then j == i else j == i - 32
  {
    FrameOfWord(q, i);
    FrameOfWord(q, j);
  }

  /** A run whose own frames are the frames `phys_free` touches. */
  lemma {:induction false} LowOrWholeTouches(s: nat, n: nat, g: nat)
    requires LowOrWhole(s, n)
    ensures RunTouches(false, s, n, g) == (s <= g < s + n)
  {
    var q, j := g / 64, g % 64;
    if s <= g < s + n {
      var i := if j < 31 then j else 63;
      TouchesInWord(q, i, j);
      assert s <= 64 * q + i < s + n;
    }
    if f :| s <= f < s + n && Touches(false, f, g) {
      TouchesInWord(q, f % 64, j);
    }
  }

  lemma {:induction false} NotLowOrWhole(s: nat, n: nat) returns (g: nat)
    requires !LowOrWhole(s, n)
    ensures exists f | s <= f < s + n :: g / 64 == f / 64
    ensures RunTouches(false, s, n, g) != (s <= g < s + n)
    ensures g % 64 >= 31 || g + 1 == s
  {
    var f :| s <= f < s + n && f % 64 >= 31 && !(s <= 64 * (f / 64) && 64 * (f / 64) + 64 <= s + n);
    var q := f / 64;
    var lo, hi := s - 64 * q, s + n - 64 * q;
    // the run holds the bits i with lo <= i < hi of word q
    hide Touches;
    if !(lo <= 31 < hi) && !(lo <= 63 < hi) {
      g := f;
      OnlyByMarks(q, f % 64, s, n);
    } else {
      var i, j := 31, 63;
      if lo > 31 {
        i, j := 63, 31;
      } else if hi >= 64 {
        i, j := lo + 31, lo - 1;
      }
      g := 64 * q + j;
      TouchesInWord(q, i, j);
      assert s <= 64 * q + i < s + n;
    }
  }

  /** Without bits 31 and 63 of its word, no frame of the run touches one from bit 31 on. */
  lemma {:induction false} OnlyByMarks(q: nat, j: nat, s: nat, n: nat)
    requires 31 <= j < 64 && !(s <= 64 * q + 31 < s + n) && !(s <= 64 * q + 63 < s + n)
    ensures !RunTouches(false, s, n, 64 * q + j)
  {
    var g := 64 * q + j;
    forall h | s <= h < s + n
      ensures !Touches(false, h, g)
    {
      if h / 64 == q {
        TouchesInWord(q, h % 64, j);
      }
    }
  }

  /** Freeing a run with its own length restores the bitmap to what it was before the run was
      marked, whatever else is in use: this holds exactly of a build with 64-bit masks, or of runs
      that in every word occupy only bits below 31 or the whole word. */
  lemma {:induction false} FreeUndoesMark(wide: bool, s: nat, n: nat, k: nat)
    requires s + n <= 64 * k
    ensures (forall words: seq<Word> | |words| == k && RunFree(words, s, n) ::
               FreeRun(wide, MarkRun(words, s, n), s, n) == words)
            <==> (wide || LowOrWhole(s, n))
  {
    if wide || LowOrWhole(s, n) {
      forall words: seq<Word> | |words| == k && RunFree(words, s, n)
        ensures FreeRun(wide, MarkRun(words, s, n), s, n) == words
      {
        FreeRestores(wide, words, s, n);
      }
    } else {
      var g := NotLowOrWhole(s, n);
      var words: seq<Word> := seq(k, w => seq(64, j => !(s <= 64 * w + j < s + n)));
      assert forall f | 0 <= f < 64 * k :: Used(words, f) == !(s <= f < s + n);
      MarkRunUsed(words, s, n, g);
      FreeRunUsed(wide, MarkRun(words, s, n), s, n, g);
      assert RunFree(words, s, n);
    }
  }

  lemma {:induction false} FreeRestores(wide: bool, words: seq<Word>, s: nat, n: nat)
    requires s + n <= 64 * |words| && RunFree(words, s, n)
    requires wide || LowOrWhole(s, n)
    ensures FreeRun(wide, MarkRun(words, s, n), s, n) == words
  {
    var marked := MarkRun(words, s, n);
    forall g | 0 <= g < 64 * |words|
      ensures Used(FreeRun(wide, marked, s, n), g) == Used(words, g)
    {
      MarkRunUsed(words, s, n, g);
      RunTouchesOwn(wide, s, n, g);
      FreeRunUsed(wide, marked, s, n, g);
    }
    SameFrames(FreeRun(wide, marked, s, n), words);
  }

  lemma {:induction false} RunTouchesOwn(wide: bool, s: nat, n: nat, g: nat)
    requires wide || LowOrWhole(s, n)
    ensures RunTouches(wide, s, n, g) == (s <= g < s + n)
  {
    if wide {
      assert Touches(true, g, g);
    } else {
      LowOrWholeTouches(s, n, g);
    }
  }

  // Requests in bytes.

  /** The frames asked for hold the bytes asked for, and one less would not. A request that reaches into the
      last frame below 2^64 wraps, and asks for none. */
  lemma {:induction false} FramesHold(size: u64)
    ensures size <= TWO_64 - FRAME ==> size <= FRAME * FramesFor(size) < size + FRAME
    ensures size > TWO_64 - FRAME ==> FramesFor(size) == 0
  {
    var x := size + FRAME - 1;
    if size <= TWO_64 - FRAME {
      Bits.Euclid(x, FRAME);
    } else {
      assert x % TWO_64 == x - TWO_64;
    }
  }

  /** A run of frames from `s` on that holds `size` bytes. */
  lemma {:induction false} RunInBytes(s: nat, size: u64, f: nat)
    requires size <= TWO_64 - FRAME
    ensures s <= f < s + FramesFor(size) <==> FRAME * s <= FRAME * f < FRAME * s + size
  {
    hide FramesFor;
    FramesHold(size);
  }

  /** What a request is granted, in bytes. It marks the frames that begin among the bytes from the address
      granted on, and no other; it fails only when nothing was asked for, the size wraps, or every place for
      that many bytes below the managed end meets a used frame. */
  lemma {:induction false} GrantInBytes(reset: bool, words: seq<Word>, mmEnd: nat, size: u64)
    requires mmEnd <= |words|
    ensures match Search(reset, words, mmEnd, FramesFor(size))
            case Some(s) =>
              && 0 < size <= TWO_64 - FRAME && s + FramesFor(size) <= 64 * mmEnd
              && FRAME * s + size <= FRAME * (64 * mmEnd)
              && forall f: nat | f < 64 * |words| ::
                   Used(MarkRun(words, s, FramesFor(size)), f)
                   <==> Used(words, f) || FRAME * s <= FRAME * f < FRAME * s + size
            case None =>
              0 < size <= TWO_64 - FRAME ==>
                forall t: nat | FRAME * t + size <= FRAME * (64 * mmEnd) ::
                  exists f: nat :: FRAME * t <= FRAME * f < FRAME * t + size && f < 64 * mmEnd && Used(words, f)
  {
    FramesHold(size);
    hide FramesFor, Search, Used, MarkRun, NoSkippedWord;
    var n := FramesFor(size);
    if n == 0 {
      NoneForNothing(reset, words, mmEnd);
    } else {
      SearchIsFirstFit(reset, words, mmEnd, n);
      match Search(reset, words, mmEnd, n) {
        case Some(s) =>
          forall f: nat | f < 64 * |words|
            ensures Used(MarkRun(words, s, n), f) <==> Used(words, f) || FRAME * s <= FRAME * f < FRAME * s + size
          {
            MarkRunUsed(words, s, n, f);
            RunInBytes(s, size, f);
          }
        case None =>
          forall t: nat | FRAME * t + size <= FRAME * (64 * mmEnd)
            ensures exists f: nat :: FRAME * t <= FRAME * f < FRAME * t + size && f < 64 * mmEnd && Used(words, f)
          {
            assert !RunFree(words, t, n);
            var f :| t <= f < t + n && Used(words, f);
            RunInBytes(t, size, f);
          }
      }
    }
  }

  lemma {:induction false} NoneForNothing(reset: bool, words: seq<Word>, mmEnd: nat)
    requires mmEnd <= |words|
    ensures Search(reset, words, mmEnd, 0) == None
  {
  }
}
