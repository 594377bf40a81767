/** Machine words: unsigned 64-bit numbers, and 64-bit words read bit by bit. */
module Words {

  datatype Option<+T> = None | Some(value: T)

  /** A failed `assert`, a `panic` or an access outside mapped memory stops the kernel. */
  datatype Outcome<+T> = Ok(value: T) | Halt {
    predicate IsFailure() {
      Halt?
    }

    function PropagateFailure<U>(): Outcome<U>
      requires Halt?
    {
      Halt
    }

    function Extract(): T
      requires Ok?
    {
      value
    }
  }

  const TWO_64: int := 0x1_0000_0000_0000_0000

  type u64 = x: int | 0 <= x < TWO_64
  type u32 = x: int | 0 <= x < 0x1_0000_0000

  /** Unsigned addition of the machine: the carry out of bit 63 is lost. */
  function AddWrap(a: u64, b: u64): u64 {
    (a + b) % TWO_64
  }

  /** A 64-bit word as its bits, bit 0 first. */
  type Word = w: seq<bool> | |w| == 64 witness seq(64, _ => false)

  /** `UINT64_MAX` */
  function AllOnes(): Word {
    seq(64, _ => true)
  }

  function OrBits(a: Word, b: Word): Word {
    seq(64, j requires 0 <= j < 64 => a[j] || b[j])
  }

  /** `a & ~b` */
  function AndNotBits(a: Word, b: Word): Word {
    seq(64, j requires 0 <= j < 64 => a[j] && !b[j])
  }

  /** `(uint64_t)1 << i` */
  function WideShift(i: nat): Word
    requires i < 64
  {
    seq(64, j => j == i)
  }

  /** `1 << i` on a 32-bit `int`, as x86-64 executes it: the count is taken modulo 32. */
  function IntShift(i: nat): (r: seq<bool>)
    ensures |r| == 32
  {
    seq(32, j => j == i % 32)
  }

  /** An `int` meeting a 64-bit operand: bit 31 is copied into bits 32 to 63. */
  function SignExtend(x: seq<bool>): Word
    requires |x| == 32
  {
    seq(64, j requires 0 <= j < 64 => if j < 32 then x[j] else x[31])
  }
}
