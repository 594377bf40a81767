/** The frame bitmap: an array of 64-bit words read as one bit per 2 MiB frame. */
module Bitmap {
  import opened Words
  import Bits

  const FRAME: int := 0x20_0000
  const PMM_SIZE: nat := 512
  const PMM_FRAMES: nat := 64 * PMM_SIZE

  /** Bit `f` of the bitmap: frame `f` is in use. */
  predicate Used(words: seq<Word>, f: nat)
    requires f < 64 * |words|
  {
    words[f / 64][f % 64]
  }

  /** The mask `set_phys` builds for bit `i`. The code as written has `1 << bit`, an `int`; `wide`
      selects the 64-bit form that `phys_malloc` uses. */
  function Mask(wide: bool, i: nat): Word
    requires i < 64
  {
    if wide then WideShift(i) else SignExtend(IntShift(i))
  }

  /** The words after `set_phys` on frame `f`. */
  function SetFrame(wide: bool, words: seq<Word>, f: nat, b: bool): (r: seq<Word>)
    requires f < 64 * |words|
    ensures |r| == |words|
  {
    var m := Mask(wide, f % 64);
    words[f / 64 := if b then OrBits(words[f / 64], m) else AndNotBits(words[f / 64], m)]
  }

  /** Which frames `set_phys` on frame `f` writes: with an `int` mask, bits 31 and 63 stand for
      bits 31 to 63 together, and bits 32 to 62 for the bit 32 places below. */
  predicate Touches(wide: bool, f: nat, g: nat) {
    f / 64 == g / 64 &&
    if wide then f == g
    else if f % 32 == 31 then g % 64 >= 31
    else g % 64 == f % 32
  }

  /** `set_phys` gives exactly the touched frames the new value and keeps all others. */
  lemma {:induction false} SetFrameUsed(wide: bool, words: seq<Word>, f: nat, b: bool, g: nat)
    requires f < 64 * |words| && g < 64 * |words|
    ensures Used(SetFrame(wide, words, f, b), g) == if Touches(wide, f, g) then b else Used(words, g)
  {
    assert f % 64 % 32 == f % 32;
  }

  /** `set_phys` on frame `f` is an update of one flat boolean, whatever the bitmap and the value,
      exactly when its bit position lies below 31 or the mask is built in 64 bits. */
  lemma {:induction false} SetFrameIsFlat(wide: bool, f: nat, n: nat)
    requires f < 64 * n
    ensures (forall words: seq<Word>, b: bool, g: nat | |words| == n && g < 64 * n ::
               Used(SetFrame(wide, words, f, b), g) == if f == g then b else Used(words, g))
            <==> (wide || f % 64 < 31)
  {
    hide SetFrame, Touches, Used;
    if wide || f % 64 < 31 {
      forall words: seq<Word>, b: bool, g: nat | |words| == n && g < 64 * n
        ensures Used(SetFrame(wide, words, f, b), g) == if f == g then b else Used(words, g)
      {
        SetFrameUsed(wide, words, f, b, g);
        TouchesSelf(wide, f, g);
      }
    } else {
      var words: seq<Word> := seq(n, _ => seq(64, _ => false));
      var g := AlsoTouched(f);
      SameWord(f, g, n);
      UniformUsed(words, false, g);
      SetFrameUsed(wide, words, f, true, g);
    }
  }

  lemma {:induction false} TouchesSelf(wide: bool, f: nat, g: nat)
    requires wide || f % 64 < 31
    ensures Touches(wide, f, g) == (f == g)
  {
    Bits.Euclid(f, 64);
    Bits.Euclid(g, 64);
    if f % 64 < 31 {
      Bits.RemainderUnique(f, 32, 2 * (f / 64), f % 64);
    }
  }

  lemma {:induction false} AlsoTouched(f: nat) returns (g: nat)
    requires f % 64 >= 31
    ensures g / 64 == f / 64 && g != f && Touches(false, f, g)
  {
    var q, i := f / 64, f % 64;
    var j := if i == 31 then 32 else if i == 63 then 62 else i - 32;
    g := 64 * q + j;
    assert f == 64 * q + i && f % 32 == (if i < 32 then i else i - 32);
  }

  lemma {:induction false} SameWord(f: nat, g: nat, n: nat)
    requires f < 64 * n && g / 64 == f / 64
    ensures g < 64 * n
  {
  }

  lemma {:induction false} UniformUsed(words: seq<Word>, b: bool, g: nat)
    requires g < 64 * |words| && words == seq(|words|, _ => seq(64, _ => b))
    ensures Used(words, g) == b
  {
  }
}
