/** Bitmaps on which skipping full words does no harm, whatever the request. */
module FrameGaps {
  import opened Words
  import opened Bitmap
  import opened FrameSearch

  /** Wherever full words lie between two words, the frame just before them or the frame just behind
      them is in use. */
  ghost predicate GapFree(words: seq<Word>, mmEnd: nat)
    requires mmEnd <= |words|
  {
    forall a: nat, b: nat | a + 1 < b < mmEnd && FullBetween(words, a, b) :: words[a][63] || words[b][0]
  }

  predicate FullBetween(words: seq<Word>, a: nat, b: nat)
    requires b <= |words|
  {
    forall w | a < w < b :: words[w] == AllOnes()
  }

  lemma {:induction false} LastVisited(words: seq<Word>, k: nat)
    requires k <= |words| && Visited(false, words, k) != []
    ensures var v := Visited(false, words, k);
            var f := v[|v| - 1];
            f % 64 == 63 && f / 64 < k && FullBetween(words, f / 64, k)
  {
    if k == 0 || !Skipped(false, words[k - 1]) {
    } else {
      LastVisited(words, k - 1);
    }
  }

  /** Frame `g` follows frame `f` in the scan: it is the next frame, or the words between are full. */
  predicate Follows(words: seq<Word>, f: nat, g: nat) {
    || g == f + 1
    || (f % 64 == 63 && g % 64 == 0 && f / 64 < g / 64 < |words| && FullBetween(words, f / 64, g / 64))
  }

  lemma {:induction false} NextVisited(words: seq<Word>, k: nat, p: nat)
    requires k <= |words| && p + 1 < |Visited(false, words, k)|
    ensures var v := Visited(false, words, k);
            Follows(words, v[p], v[p + 1])
  {
    hide FullBetween;
    var before := Visited(false, words, k - 1);
    if p + 1 < |before| {
      NextVisited(words, k - 1, p);
    } else if p + 1 == |before| {
      LastVisited(words, k - 1);
    }
  }

  lemma {:induction false} NoJump(words: seq<Word>, mmEnd: nat, f: nat, g: nat)
    requires mmEnd <= |words| && GapFree(words, mmEnd) && Follows(words, f, g) && g < 64 * mmEnd
    requires !Used(words, f) && !Used(words, g)
    ensures g == f + 1
  {
  }

  lemma {:induction false} WindowIsRun(words: seq<Word>, mmEnd: nat, i: nat, n: nat, j: nat)
    requires mmEnd <= |words| && GapFree(words, mmEnd) && j < n
    requires FreeAt(words, Visited(false, words, mmEnd), i, n)
    ensures Visited(false, words, mmEnd)[i + j] == Visited(false, words, mmEnd)[i] + j
  {
    hide Used, Follows, GapFree;
    if j == 0 {
    } else {
      var v := Visited(false, words, mmEnd);
      WindowIsRun(words, mmEnd, i, n, j - 1);
      NextVisited(words, mmEnd, i + j - 1);
      VisitedOrder(false, words, mmEnd);
      NoJump(words, mmEnd, v[i + j - 1], v[i + j]);
    }
  }

  /** As written, on such a bitmap every request that is granted is granted free frames. */
  lemma {:induction false} GapFreeIsSound(words: seq<Word>, mmEnd: nat, n: nat)
    requires mmEnd <= |words| && GapFree(words, mmEnd) && n > 0
    ensures match Search(false, words, mmEnd, n)
            case None => true
            case Some(s) => RunFree(words, s, n)
  {
    hide Used, GapFree, Visited;
    var v := Visited(false, words, mmEnd);
    FindFromIsFirst(words, v, 0, n);
    SearchIsFirstFit(false, words, mmEnd, n);
    match FindFrom(words, v, 0, n) {
      case None =>
      case Some(i) =>
        forall f | v[i] <= f < v[i] + n
          ensures !Used(words, f)
        {
          WindowIsRun(words, mmEnd, i, n, f - v[i]);
        }
    }
  }

  // The exact condition, for all requests at once.

  /** As written, a request of `n` frames that is granted is granted free frames. */
  ghost predicate Sound(words: seq<Word>, mmEnd: nat, n: nat)
    requires mmEnd <= |words|
  {
    match Search(false, words, mmEnd, n)
    case None => true
    case Some(s) => RunFree(words, s, n)
  }

  /** A longest stretch of examined frames, from index `a` to before `b`, that are all free. */
  predicate Stretch(words: seq<Word>, visited: seq<nat>, a: nat, b: nat) {
    && a < b && FreeAt(words, visited, a, b - a)
    && (a == 0 || !FreeAt(words, visited, a - 1, 1))
    && !FreeAt(words, visited, b, 1)
  }

  /** The frames of the stretch do not lie next to each other: skipped words lie between them. */
  predicate Crosses(visited: seq<nat>, a: nat, b: nat) {
    a < b <= |visited| && visited[b - 1] != visited[a] + (b - 1 - a)
  }

  ghost predicate EarlierStretch(words: seq<Word>, visited: seq<nat>, a: nat, n: nat) {
    exists c: nat, d: nat :: Stretch(words, visited, c, d) && d <= a && n <= d - c
  }

  /** Before every stretch that crosses skipped words there is one at least as long. */
  ghost predicate CrossingsComeLater(words: seq<Word>, mmEnd: nat)
    requires mmEnd <= |words|
  {
    var v := Visited(false, words, mmEnd);
    forall a: nat, b: nat | Stretch(words, v, a, b) && Crosses(v, a, b) :: EarlierStretch(words, v, a, b - a)
  }

  lemma {:induction false} StretchAround(words: seq<Word>, v: seq<nat>, i: nat, n: nat) returns (a: nat, b: nat)
    requires n > 0 && FreeAt(words, v, i, n)
    ensures Stretch(words, v, a, b) && a <= i && i + n <= b
    decreases |v| - n
  {
    hide Used;
    if i > 0 && FreeAt(words, v, i - 1, 1) {
      a, b := StretchAround(words, v, i - 1, n + 1);
    } else if FreeAt(words, v, i + n, 1) {
      a, b := StretchAround(words, v, i, n + 1);
    } else {
      a, b := i, i + n;
    }
  }

  lemma {:induction false} PartIsFree(words: seq<Word>, v: seq<nat>, i: nat, n: nat, j: nat, k: nat)
    requires FreeAt(words, v, i, n) && i <= j && j + k <= i + n
    ensures FreeAt(words, v, j, k)
  {
    hide Used;
  }

  /** The frames granted for a free stretch of examined frames are free exactly when they lie next to each
      other. */
  lemma {:induction false} FreeIsAdjacent(words: seq<Word>, mmEnd: nat, i: nat, n: nat)
    requires mmEnd <= |words| && n > 0 && FreeAt(words, Visited(false, words, mmEnd), i, n)
    ensures RunFree(words, Visited(false, words, mmEnd)[i], n) <==> !Crosses(Visited(false, words, mmEnd), i, i + n)
  {
    hide Visited, Used, Skipped, Index;
    var v := Visited(false, words, mmEnd);
    var s := v[i];
    FoundAt(false, words, mmEnd, i, n);
    VisitedOrder(false, words, mmEnd);
    if RunFree(words, s, n) {
      forall f | s <= f <= s + (n - 1)
        ensures !Skipped(false, words[f / 64])
      {
        FreeIsNotSkipped(false, words, f);
      }
      VisitedRun(false, words, mmEnd, s, 0);
      VisitedRun(false, words, mmEnd, s, n - 1);
    }
    if !Crosses(v, i, i + n) {
      forall f | s <= f < s + n
        ensures !Used(words, f)
      {
        VisitedSpreads(false, words, mmEnd, i, f - s);
        VisitedSpreads(false, words, mmEnd, i + (f - s), n - 1 - (f - s));
        assert v[i + (f - s)] == f;
      }
    }
  }

  lemma {:induction false} LongerCrosses(words: seq<Word>, mmEnd: nat, i: nat, n: nat, b: nat)
    requires mmEnd <= |words| && n > 0 && i + n <= b <= |Visited(false, words, mmEnd)|
    requires Crosses(Visited(false, words, mmEnd), i, i + n)
    ensures Crosses(Visited(false, words, mmEnd), i, b)
  {
    hide Visited;
    VisitedSpreads(false, words, mmEnd, i, n - 1);
    VisitedSpreads(false, words, mmEnd, i + n - 1, b - (i + n));
  }

  lemma {:induction false} LaterIsSound(words: seq<Word>, mmEnd: nat, n: nat)
    requires mmEnd <= |words| && n > 0 && CrossingsComeLater(words, mmEnd)
    ensures Sound(words, mmEnd, n)
  {
    hide Visited, Used, FreeAt, Crosses, RunFree;
    var v := Visited(false, words, mmEnd);
    FindFromIsFirst(words, v, 0, n);
    match FindFrom(words, v, 0, n) {
      case None =>
      case Some(i) =>
        FoundAt(false, words, mmEnd, i, n);
        FreeIsAdjacent(words, mmEnd, i, n);
        var a, b := StretchAround(words, v, i, n);
        PartIsFree(words, v, a, b - a, a, n);
        if Crosses(v, i, i + n) {
          StretchFits(words, v, a, b);
          LongerCrosses(words, mmEnd, i, n, b);
          assert EarlierStretch(words, v, a, b - a);
          var c: nat, d: nat :| Stretch(words, v, c, d) && d <= a && b - a <= d - c;
          PartIsFree(words, v, c, d - c, c, n);
        }
    }
  }

  lemma {:induction false} StretchFits(words: seq<Word>, v: seq<nat>, a: nat, b: nat)
    requires Stretch(words, v, a, b)
    ensures a < b <= |v|
  {
  }

  lemma {:induction false} SoundIsLater(words: seq<Word>, mmEnd: nat, a: nat, b: nat)
    requires mmEnd <= |words|
    requires var v := Visited(false, words, mmEnd); Stretch(words, v, a, b) && Crosses(v, a, b)
    requires Sound(words, mmEnd, b - a)
    ensures EarlierStretch(words, Visited(false, words, mmEnd), a, b - a)
  {
    hide Visited, Used, FreeAt, Crosses, RunFree;
    var v, n := Visited(false, words, mmEnd), b - a;
    FindFromIsFirst(words, v, 0, n);
    var i := FindFrom(words, v, 0, n).value;
    FoundAt(false, words, mmEnd, i, n);
    FreeIsAdjacent(words, mmEnd, i, n);
    var c, d := StretchAround(words, v, i, n);
    if i < a && d > a - 1 {
      PartIsFree(words, v, c, d - c, a - 1, 1);
    }
  }

  /** On a bitmap the code as written grants free frames for every request that it grants, exactly when before
      every stretch of examined free frames that crosses skipped words there is one at least as long. */
  lemma {:induction false} CrossingsAreExact(words: seq<Word>, mmEnd: nat)
    requires mmEnd <= |words|
    ensures (forall n: nat | n > 0 :: Sound(words, mmEnd, n)) <==> CrossingsComeLater(words, mmEnd)
  {
    hide Sound, FreeAt, Crosses, EarlierStretch, Visited;
    if CrossingsComeLater(words, mmEnd) {
      forall n: nat | n > 0
        ensures Sound(words, mmEnd, n)
      {
        LaterIsSound(words, mmEnd, n);
      }
    }
    if forall n: nat | n > 0 :: Sound(words, mmEnd, n) {
      var v := Visited(false, words, mmEnd);
      forall a: nat, b: nat | Stretch(words, v, a, b) && Crosses(v, a, b)
        ensures EarlierStretch(words, v, a, b - a)
      {
        SoundIsLater(words, mmEnd, a, b);
      }
    }
  }
}
