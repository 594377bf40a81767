/** Runs of `phys_malloc` and of `phys_free` with the size that was allocated. */
module FrameLedger {
  import opened Words
  import opened Bitmap
  import opened FrameSearch

  /** The two one-line choices the allocator depends on: whether `set_phys` builds its mask in 64
      bits, and whether a skipped full word resets the run counter. The code as written does neither. */
  datatype Build = Build(wide: bool, reset: bool)

  datatype Alloc = Alloc(start: nat, count: nat)

  /** The bitmap and the allocations handed out and not yet freed. */
  datatype Ledger = Ledger(words: seq<Word>, live: seq<Alloc>)

  datatype Op = Malloc(size: u64) | Free(k: nat)

  predicate Covers(a: Alloc, f: nat) {
    a.start <= f < a.start + a.count
  }

  function Without(live: seq<Alloc>, k: nat): (r: seq<Alloc>)
    requires k < |live|
    ensures forall a | a in r :: a in live
  {
    live[..k] + live[k + 1..]
  }

  predicate Disjoint(a: Alloc, c: Alloc) {
    a.start + a.count <= c.start || c.start + c.count <= a.start
  }

  predicate PairwiseDisjoint(live: seq<Alloc>) {
    forall i, j | 0 <= i < j < |live| :: Disjoint(live[i], live[j])
  }

  predicate Fits(st: Ledger) {
    forall a | a in st.live :: a.start + a.count <= 64 * |st.words|
  }

  function Step(b: Build, mmEnd: nat, st: Ledger, op: Op): (r: Ledger)
    requires mmEnd <= |st.words|
    requires Fits(st)
    ensures |r.words| == |st.words| && Fits(r)
  {
    match op
    case Malloc(size) =>
      var n := FramesFor(size);
      (match Search(b.reset, st.words, mmEnd, n)
       case None => st
       case Some(s) =>
         if s + n <= 64 * |st.words| then Ledger(MarkRun(st.words, s, n), st.live + [Alloc(s, n)]) else st)
    case Free(k) =>
      if k < |st.live| then
        var a := st.live[k];
        Ledger(FreeRun(b.wide, st.words, a.start, a.count), Without(st.live, k))
      else st
  }

  /** Freeing the run clears its own frames and no other frame in use. */
  ghost predicate ClearsOwn(wide: bool, words: seq<Word>, a: Alloc) {
    forall g: nat | g < 64 * |words| ::
      if Covers(a, g) then RunTouches(wide, a.start, a.count, g)
      else RunTouches(wide, a.start, a.count, g) ==> !Used(words, g)
  }

  /** With 64-bit masks it always does; as written, for runs that keep below bit 31 or take whole words. */
  lemma {:induction false} FlatRunClearsOwn(wide: bool, words: seq<Word>, a: Alloc)
    requires wide || LowOrWhole(a.start, a.count)
    ensures ClearsOwn(wide, words, a)
  {
    hide RunTouches, LowOrWhole, Used;
    forall g: nat | g < 64 * |words|
      ensures RunTouches(wide, a.start, a.count, g) == Covers(a, g)
    {
      RunTouchesOwn(wide, a.start, a.count, g);
    }
  }

  /** The step stays clear of the two departures: the search skipped no word its result reaches
      into, and the freed run is cleared and nothing else that is in use. */
  ghost predicate StepExact(b: Build, mmEnd: nat, st: Ledger, op: Op)
    requires mmEnd <= |st.words|
  {
    match op
    case Malloc(size) =>
      var n := FramesFor(size);
      var r := Search(b.reset, st.words, mmEnd, n);
      r.Some? && r.value + n <= 64 * |st.words| ==> NoSkippedWord(b.reset, st.words, r.value, n)
    case Free(k) =>
      k < |st.live| ==> ClearsOwn(b.wide, st.words, st.live[k])
  }

  /** A request is granted when some place below the managed end has that many free bytes, and then the frames
      that begin among the bytes granted are marked and held; a request that is not granted changes nothing.
      A free gives back the run it names. */
  lemma {:induction false} StepIs(b: Build, mmEnd: nat, st: Ledger, op: Op)
    requires mmEnd <= |st.words| && Fits(st)
    ensures op.Malloc? && Step(b, mmEnd, st, op) != st ==>
              exists s: nat, n: nat :: GrantsRun(mmEnd, st, op.size, s, n, Step(b, mmEnd, st, op))
    ensures op.Malloc? && 0 < op.size <= TWO_64 - FRAME && (exists t: nat :: FreePlace(st.words, mmEnd, t, op.size)) ==>
              Step(b, mmEnd, st, op) != st
    ensures op.Free? && op.k < |st.live| ==> FreesRun(b.wide, st, op.k, Step(b, mmEnd, st, op))
    ensures op.Free? && op.k >= |st.live| ==> Step(b, mmEnd, st, op) == st
  {
    match op {
      case Malloc(size) =>
        GrantInBytes(b.reset, st.words, mmEnd, size);
        FramesHold(size);
        hide FramesFor, Search, MarkRun, Used;
        match Search(b.reset, st.words, mmEnd, FramesFor(size)) {
          case None =>
          case Some(s) => assert GrantsRun(mmEnd, st, size, s, FramesFor(size), Step(b, mmEnd, st, op));
        }
      case Free(k) =>
        if k < |st.live| {
          var a := st.live[k];
          hide FreeRun, Used, RunTouches;
          forall g: nat | g < 64 * |st.words|
            ensures Used(FreeRun(b.wide, st.words, a.start, a.count), g)
                    <==> Used(st.words, g) && !RunTouches(b.wide, a.start, a.count, g)
          {
            FreeRunUsed(b.wide, st.words, a.start, a.count, g);
          }
        }
    }
  }

  /** `size` bytes from frame `t` on are free and managed. */
  ghost predicate FreePlace(words: seq<Word>, mmEnd: nat, t: nat, size: u64)
    requires mmEnd <= |words|
  {
    && FRAME * t + size <= FRAME * (64 * mmEnd)
    && forall f: nat | FRAME * t <= FRAME * f < FRAME * t + size && f < 64 * mmEnd :: !Used(words, f)
  }

  ghost predicate GrantsRun(mmEnd: nat, st: Ledger, size: u64, s: nat, n: nat, st1: Ledger) {
    && size <= FRAME * n < size + FRAME && s + n <= 64 * mmEnd
    && st1.live == st.live + [Alloc(s, n)] && |st1.words| == |st.words|
    && forall f: nat | f < 64 * |st.words| ::
         Used(st1.words, f) <==> Used(st.words, f) || FRAME * s <= FRAME * f < FRAME * s + size
  }

  ghost predicate FreesRun(wide: bool, st: Ledger, k: nat, st1: Ledger)
    requires k < |st.live|
  {
    && st1.live == st.live[..k] + st.live[k + 1..] && |st1.words| == |st.words|
    && forall f: nat | f < 64 * |st.words| ::
         Used(st1.words, f) <==> Used(st.words, f) && !RunTouches(wide, st.live[k].start, st.live[k].count, f)
  }

  /** Outstanding allocations are disjoint runs below `64 * mmEnd` that were free at the start, and
      the used frames are those used at the start together with the outstanding runs. */
  ghost predicate Inv(words0: seq<Word>, mmEnd: nat, st: Ledger) {
    && |st.words| == |words0| && mmEnd <= |words0|
    && (forall a | a in st.live :: a.count > 0 && a.start + a.count <= 64 * mmEnd)
    && PairwiseDisjoint(st.live)
    && (forall f: nat | f < 64 * |words0| ::
          Used(st.words, f) <==> Used(words0, f) || exists a | a in st.live :: Covers(a, f))
    && (forall a, f: nat | a in st.live && f < 64 * |words0| && Covers(a, f) :: !Used(words0, f))
  }

  lemma {:induction false} StartsInv(words0: seq<Word>, mmEnd: nat)
    requires mmEnd <= |words0|
    ensures Inv(words0, mmEnd, Ledger(words0, []))
  {
  }

  lemma {:induction false} MallocKeepsInv(words0: seq<Word>, b: Build, mmEnd: nat, st: Ledger, size: u64)
    requires Inv(words0, mmEnd, st) && StepExact(b, mmEnd, st, Malloc(size))
    ensures Inv(words0, mmEnd, Step(b, mmEnd, st, Malloc(size)))
  {
    var n := FramesFor(size);
    if n > 0 && Search(b.reset, st.words, mmEnd, n).Some? {
      SearchIsFirstFit(b.reset, st.words, mmEnd, n);
      var s := Search(b.reset, st.words, mmEnd, n).value;
      GrantKeepsInv(words0, mmEnd, st, s, n);
    }
  }

  lemma {:induction false} UsedRunIsApart(words: seq<Word>, a: Alloc, s: nat, n: nat)
    requires RunFree(words, s, n) && a.count > 0 && n > 0
    requires forall f: nat | f < 64 * |words| && Covers(a, f) :: Used(words, f)
    ensures Disjoint(a, Alloc(s, n))
  {
    var f := if a.start > s then a.start else s;
    assert !Covers(a, f) || f >= s + n;
  }

  lemma {:induction false} GrantKeepsInv(words0: seq<Word>, mmEnd: nat, st: Ledger, s: nat, n: nat)
    requires Inv(words0, mmEnd, st)
    requires n > 0 && s + n <= 64 * mmEnd && RunFree(st.words, s, n)
    ensures Inv(words0, mmEnd, Ledger(MarkRun(st.words, s, n), st.live + [Alloc(s, n)]))
  {
    var live := st.live + [Alloc(s, n)];
    forall a | a in st.live
      ensures Disjoint(a, Alloc(s, n))
    {
      UsedRunIsApart(st.words, a, s, n);
    }
    forall f: nat | f < 64 * |words0|
      ensures Used(MarkRun(st.words, s, n), f) <==> Used(words0, f) || exists a | a in live :: Covers(a, f)
    {
      MarkRunUsed(st.words, s, n, f);
      assert forall a | a in st.live :: a in live;
      assert Alloc(s, n) in live && Covers(Alloc(s, n), f) == (s <= f < s + n);
    }
  }

  lemma {:induction false} WithoutKeeps(live: seq<Alloc>, k: nat)
    requires k < |live| && PairwiseDisjoint(live)
    ensures PairwiseDisjoint(Without(live, k))
    ensures forall a | a in Without(live, k) :: Disjoint(a, live[k])
    ensures forall a | a in live :: a == live[k] || a in Without(live, k)
  {
    var rest := Without(live, k);
    forall i | 0 <= i < |rest|
      ensures rest[i] == live[if i < k then i else i + 1]
    {
    }
    forall i | 0 <= i < |live| && i != k
      ensures live[i] in rest
    {
      assert live[i] == rest[if i < k then i else i - 1];
    }
  }

  lemma {:induction false} FreeKeepsInv(words0: seq<Word>, b: Build, mmEnd: nat, st: Ledger, k: nat)
    requires Inv(words0, mmEnd, st) && StepExact(b, mmEnd, st, Free(k))
    ensures Inv(words0, mmEnd, Step(b, mmEnd, st, Free(k)))
  {
    if k < |st.live| {
      var a := st.live[k];
      var rest := Without(st.live, k);
      WithoutKeeps(st.live, k);
      forall f: nat | f < 64 * |words0|
        ensures Used(FreeRun(b.wide, st.words, a.start, a.count), f)
                <==> Used(words0, f) || exists c | c in rest :: Covers(c, f)
      {
        FreeRunUsed(b.wide, st.words, a.start, a.count, f);
      }
    }
  }

  /** A grant that covers a frame in use breaks the books. */
  lemma {:induction false} MallocBreaksInv(words0: seq<Word>, b: Build, mmEnd: nat, st: Ledger, size: u64)
    requires Inv(words0, mmEnd, st) && !StepExact(b, mmEnd, st, Malloc(size))
    ensures !Inv(words0, mmEnd, Step(b, mmEnd, st, Malloc(size)))
  {
    var n := FramesFor(size);
    SearchIsFirstFit(b.reset, st.words, mmEnd, n);
    var s := Search(b.reset, st.words, mmEnd, n).value;
    var f :| s <= f < s + n && Used(st.words, f);
    hide Search, NoSkippedWord, Used, FramesFor;
    var st1 := Step(b, mmEnd, st, Malloc(size));
    var last := |st.live|;
    assert st1.live[last] == Alloc(s, n) && Alloc(s, n) in st1.live && Covers(Alloc(s, n), f);
    if a :| a in st.live && Covers(a, f) {
      var i :| 0 <= i < last && st.live[i] == a;
      assert st1.live[i] == a && !Disjoint(st1.live[i], st1.live[last]);
    }
  }

  /** A free that misses a frame of its own or clears another one in use breaks them too. */
  lemma {:induction false} FreeBreaksInv(words0: seq<Word>, b: Build, mmEnd: nat, st: Ledger, k: nat)
    requires Inv(words0, mmEnd, st) && !StepExact(b, mmEnd, st, Free(k))
    ensures !Inv(words0, mmEnd, Step(b, mmEnd, st, Free(k)))
  {
    var a, rest := st.live[k], Without(st.live, k);
    WithoutKeeps(st.live, k);
    hide RunTouches, Used, PairwiseDisjoint, Without, FreeRun;
    var g: nat :| g < 64 * |st.words|
                  && !(if Covers(a, g) then RunTouches(b.wide, a.start, a.count, g)
                       else RunTouches(b.wide, a.start, a.count, g) ==> !Used(st.words, g));
    FreeRunUsed(b.wide, st.words, a.start, a.count, g);
    if Covers(a, g) {
      assert forall c | c in rest :: !Covers(c, g);
    } else if c :| c in st.live && Covers(c, g) {
      assert c in rest;
    }
  }

  /** A step keeps the outstanding allocations disjoint and the bitmap exact exactly when it stays clear
      of the two departures. */
  lemma {:induction false} StepKeepsInv(words0: seq<Word>, b: Build, mmEnd: nat, st: Ledger, op: Op)
    requires Inv(words0, mmEnd, st)
    ensures Inv(words0, mmEnd, Step(b, mmEnd, st, op)) <==> StepExact(b, mmEnd, st, op)
  {
    hide StepExact, Step;
    match op {
      case Malloc(size) =>
        if StepExact(b, mmEnd, st, op) {
          MallocKeepsInv(words0, b, mmEnd, st, size);
        } else {
          MallocBreaksInv(words0, b, mmEnd, st, size);
        }
      case Free(k) =>
        if StepExact(b, mmEnd, st, op) {
          FreeKeepsInv(words0, b, mmEnd, st, k);
        } else {
          FreeBreaksInv(words0, b, mmEnd, st, k);
        }
    }
  }

  function Run(b: Build, mmEnd: nat, st: Ledger, ops: seq<Op>): (r: Ledger)
    requires mmEnd <= |st.words|
    requires Fits(st)
    ensures |r.words| == |st.words| && Fits(r)
    decreases |ops|
  {
    if ops == [] then st else Run(b, mmEnd, Step(b, mmEnd, st, ops[0]), ops[1..])
  }

  ghost predicate RunExact(b: Build, mmEnd: nat, st: Ledger, ops: seq<Op>)
    requires mmEnd <= |st.words|
    requires Fits(st)
    decreases |ops|
  {
    ops == [] || (StepExact(b, mmEnd, st, ops[0]) && RunExact(b, mmEnd, Step(b, mmEnd, st, ops[0]), ops[1..]))
  }

  /** Every run keeps the outstanding allocations disjoint and the bitmap exact. */
  lemma {:induction false} RunKeepsInv(words0: seq<Word>, b: Build, mmEnd: nat, st: Ledger, ops: seq<Op>)
    requires Inv(words0, mmEnd, st) && RunExact(b, mmEnd, st, ops)
    ensures Inv(words0, mmEnd, Run(b, mmEnd, st, ops))
    decreases |ops|
  {
    if ops == [] {
    } else {
      match ops[0] {
        case Malloc(size) => MallocKeepsInv(words0, b, mmEnd, st, size);
        case Free(k) => FreeKeepsInv(words0, b, mmEnd, st, k);
      }
      RunKeepsInv(words0, b, mmEnd, Step(b, mmEnd, st, ops[0]), ops[1..]);
    }
  }

  /** With both choices made the safe way no run departs. */
  lemma {:induction false} RepairedRunsAreExact(mmEnd: nat, st: Ledger, ops: seq<Op>)
    requires mmEnd <= |st.words|
    requires Fits(st)
    ensures RunExact(Build(true, true), mmEnd, st, ops)
    decreases |ops|
  {
    if ops == [] {
    } else {
      if ops[0].Free? && ops[0].k < |st.live| {
        FlatRunClearsOwn(true, st.words, st.live[ops[0].k]);
      }
      RepairedRunsAreExact(mmEnd, Step(Build(true, true), mmEnd, st, ops[0]), ops[1..]);
    }
  }

  // Conservation of frames.

  ghost function FreeFrames(words: seq<Word>): set<nat> {
    set f: nat | f < 64 * |words| && !Used(words, f)
  }

  ghost function RunFrames(s: nat, n: nat): set<nat> {
    set f: nat | f < s + n && Covers(Alloc(s, n), f)
  }

  lemma {:induction false} RunFramesNext(s: nat, n: nat)
    requires n > 0
    ensures s + n - 1 !in RunFrames(s, n - 1) && RunFrames(s, n) == RunFrames(s, n - 1) + {s + n - 1}
  {
  }

  lemma {:induction false} RunFramesCount(s: nat, n: nat)
    ensures |RunFrames(s, n)| == n
  {
    if n == 0 {
    } else {
      RunFramesCount(s, n - 1);
      RunFramesNext(s, n);
    }
  }

  function Held(live: seq<Alloc>): nat {
    if live == [] then 0 else Held(live[..|live| - 1]) + live[|live| - 1].count
  }

  ghost function HeldFrames(live: seq<Alloc>): set<nat> {
    set a, f: nat | a in live && f < a.start + a.count && Covers(a, f) :: f
  }

  lemma {:induction false} HeldSplit(live: seq<Alloc>)
    requires live != [] && PairwiseDisjoint(live)
    ensures var rest, a := live[..|live| - 1], live[|live| - 1];
            && HeldFrames(live) == HeldFrames(rest) + RunFrames(a.start, a.count)
            && HeldFrames(rest) !! RunFrames(a.start, a.count)
  {
    var rest, a := live[..|live| - 1], live[|live| - 1];
    assert live == rest + [a];
    assert forall c | c in rest :: Disjoint(c, a);
  }

  lemma {:induction false} HeldCount(live: seq<Alloc>)
    requires PairwiseDisjoint(live)
    ensures |HeldFrames(live)| == Held(live)
  {
    if live == [] {
      assert HeldFrames(live) == {};
    } else {
      var rest, a := live[..|live| - 1], live[|live| - 1];
      HeldCount(rest);
      RunFramesCount(a.start, a.count);
      HeldSplit(live);
    }
  }

  lemma {:induction false} HeldFramesWereFree(words0: seq<Word>, mmEnd: nat, st: Ledger)
    requires Inv(words0, mmEnd, st)
    ensures HeldFrames(st.live) <= FreeFrames(words0)
    ensures FreeFrames(st.words) == FreeFrames(words0) - HeldFrames(st.live)
  {
    forall f: nat
      ensures f in HeldFrames(st.live) <==> exists a | a in st.live :: Covers(a, f)
    {
    }
    forall f | f in HeldFrames(st.live)
      ensures f in FreeFrames(words0)
    {
      var a :| a in st.live && Covers(a, f);
    }
  }

  /** Free frames and frames held by outstanding allocations add up to the frames free at the start;
      when nothing is outstanding the bitmap is the one at the start. */
  lemma {:induction false} FramesAreConserved(words0: seq<Word>, mmEnd: nat, st: Ledger)
    requires Inv(words0, mmEnd, st)
    ensures |FreeFrames(st.words)| + Held(st.live) == |FreeFrames(words0)|
    ensures st.live == [] ==> st.words == words0
  {
    HeldCount(st.live);
    HeldFramesWereFree(words0, mmEnd, st);
    var free0, held := FreeFrames(words0), HeldFrames(st.live);
    assert |free0 - held| == |free0| - |held|;
    if st.live == [] {
      SameFrames(st.words, words0);
    }
  }
}
