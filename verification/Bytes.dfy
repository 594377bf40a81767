/** Little-endian numbers in a sequence of bytes. */
module Bytes {
  import Bits

  type byte = x: int | 0 <= x < 256

  function Pow256(n: nat): (p: nat)
    ensures p > 0
  {
    if n == 0 then 1 else 256 * Pow256(n - 1)
  }

  /** The `n`-byte number at offset `a`. */
  function Load(mem: seq<byte>, a: nat, n: nat): (v: nat)
    requires a + n <= |mem|
    ensures v < Pow256(n)
    decreases |mem| - a
  {
    if n == 0 then 0 else mem[a] + 256 * Load(mem, a + 1, n - 1)
  }

  /** The low `n` bytes of `v` written at offset `a`. */
  function Store(mem: seq<byte>, a: nat, n: nat, v: nat): (r: seq<byte>)
    requires a + n <= |mem|
    ensures |r| == |mem|
    decreases |mem| - a
  {
    if n == 0 then mem else Store(mem[a := v % 256], a + 1, n - 1, v / 256)
  }

  predicate Agree(mem: seq<byte>, mem1: seq<byte>, a: nat, b: nat) {
    |mem| == |mem1| && b <= |mem| && forall i | a <= i < b :: mem1[i] == mem[i]
  }

  lemma {:induction false} StoreFrame(mem: seq<byte>, a: nat, n: nat, v: nat)
    requires a + n <= |mem|
    ensures forall i | 0 <= i < |mem| && !(a <= i < a + n) :: Store(mem, a, n, v)[i] == mem[i]
    decreases n
  {
    if n == 0 {
    } else {
      StoreFrame(mem[a := v % 256], a + 1, n - 1, v / 256);
    }
  }

  lemma {:induction false} LoadFrame(mem: seq<byte>, mem1: seq<byte>, a: nat, n: nat)
    requires Agree(mem, mem1, a, a + n)
    ensures Load(mem1, a, n) == Load(mem, a, n)
    decreases n
  {
    if n == 0 {
    } else {
      LoadFrame(mem, mem1, a + 1, n - 1);
    }
  }

  /** What is stored is loaded back. */
  lemma {:induction false} LoadStored(mem: seq<byte>, a: nat, n: nat, v: nat)
    requires a + n <= |mem| && v < Pow256(n)
    ensures Load(Store(mem, a, n, v), a, n) == v
    decreases n
  {
    if n == 0 {
    } else {
      var mem1 := mem[a := v % 256];
      LoadStored(mem1, a + 1, n - 1, v / 256);
      StoreFrame(mem1, a + 1, n - 1, v / 256);
    }
  }

  /** A store elsewhere does not change what is loaded. */
  lemma {:induction false} LoadAfterStore(mem: seq<byte>, a: nat, n: nat, b: nat, k: nat, v: nat)
    requires a + n <= |mem| && b + k <= |mem| && (a + n <= b || b + k <= a)
    ensures Load(Store(mem, b, k, v), a, n) == Load(mem, a, n)
  {
    StoreFrame(mem, b, k, v);
    LoadFrame(mem, Store(mem, b, k, v), a, n);
  }

  lemma {:induction false} LoadNext(mem: seq<byte>, a: nat, n: nat)
    requires 0 < n && a + n <= |mem|
    ensures Load(mem, a, n) == mem[a] + 256 * Load(mem, a + 1, n - 1)
  {
  }

  /** A number is made of its low bytes and the rest. */
  lemma {:induction false} LoadSplit(mem: seq<byte>, a: nat, k: nat, n: nat)
    requires a + k + n <= |mem|
    ensures Load(mem, a, k + n) == Load(mem, a, k) + Pow256(k) * Load(mem, a + k, n)
    decreases k
  {
    if k == 0 {
      assert Load(mem, a, 0) == 0;
    } else {
      hide Load;
      var x, y, p := Load(mem, a + 1, k - 1), Load(mem, a + k, n), Pow256(k - 1);
      assert Pow256(k) == 256 * p;
      hide Pow256;
      LoadNext(mem, a, k + n);
      LoadNext(mem, a, k);
      LoadSplit(mem, a + 1, k - 1, n);
      Regroup(x, p, y);
    }
  }

  lemma {:induction false} Regroup(x: nat, p: nat, y: nat)
    ensures 256 * (x + p * y) == 256 * x + (256 * p) * y
  {
  }

  /** Bytes `k` to `k + n - 1` of a longer number. */
  lemma {:induction false} LoadMiddle(mem: seq<byte>, a: nat, k: nat, n: nat, rest: nat)
    requires a + k + n + rest <= |mem|
    ensures Load(mem, a + k, n) == Load(mem, a, k + n + rest) / Pow256(k) % Pow256(n)
  {
    hide Load, Pow256;
    LoadSplit(mem, a, k, n + rest);
    LoadSplit(mem, a + k, n, rest);
    Bits.RemainderUnique(Load(mem, a, k + (n + rest)), Pow256(k), Load(mem, a + k, n + rest), Load(mem, a, k));
    Bits.RemainderUnique(Load(mem, a + k, n + rest), Pow256(n), Load(mem, a + k + n, rest), Load(mem, a + k, n));
  }

  /** Four bytes, the lowest first. */
  lemma {:induction false} LoadFour(mem: seq<byte>, a: nat)
    requires a + 4 <= |mem|
    ensures var b0: int, b1: int, b2: int, b3: int := mem[a], mem[a + 1], mem[a + 2], mem[a + 3];
            Load(mem, a, 4) == b0 + 0x100 * b1 + 0x1_0000 * b2 + 0x100_0000 * b3
  {
    LoadNext(mem, a, 4);
    LoadNext(mem, a + 1, 3);
    LoadNext(mem, a + 2, 2);
    LoadNext(mem, a + 3, 1);
  }
}
