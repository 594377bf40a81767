/** Page-table entries and the addresses they carry. */
module PageEntry {
  import opened Bits
  import opened Words

  const KERNEL_VADDR: u64 := 0xFFFF_FFFF_8000_0000

  /** Physical memory mapped at `KERNEL_VADDR`, and the 4 KiB tables in it. */
  const DIRECT_MAP: int := 0x4000_0000
  const TABLE_SIZE: int := 0x1000
  const TABLES: nat := 0x4_0000

  const PRESENT: u64 := 1
  const LARGE: u64 := 0x80
  const TABLE_FLAGS: u64 := 3

  function SubWrap(a: u64, b: u64): u64 {
    (a - b) % TWO_64
  }

  function Or64(a: u64, b: u64): u64 {
    Powers();
    OrBelow(a, b, 64);
    Or(a, b)
  }

  /** The address of table number `n` through the kernel's direct map. */
  function TableAddr(n: nat): u64
    requires n < TABLES
  {
    KERNEL_VADDR + TABLE_SIZE * n
  }

  /** The table a direct-map address points to: 4 KiB aligned and inside the mapped gigabyte. */
  function TableAt(v: u64): (r: Option<nat>)
    ensures r.Some? ==> r.value < TABLES
  {
    var p := SubWrap(v, KERNEL_VADDR);
    if p % TABLE_SIZE == 0 && p < DIRECT_MAP then Some(p / TABLE_SIZE) else None
  }

  /** `((uintptr_t)npt - KERNEL_VADDR) | flags` */
  function Link(n: nat, flags: u64): u64
    requires n < TABLES
  {
    Or64(SubWrap(TableAddr(n), KERNEL_VADDR), flags)
  }

  /** `(entry & ~0x1ff) + KERNEL_VADDR` */
  function NextTable(e: u64): u64 {
    (And(e, 0xFFFF_FFFF_FFFF_FE00) + KERNEL_VADDR) % TWO_64
  }

  predicate IsPresent(e: u64) {
    And(e, PRESENT) != 0
  }

  predicate IsLarge(e: u64) {
    And(e, LARGE) != 0
  }

  function PageAlign(a: u64): u64 {
    Powers();
    AndHighMask(a, 64, 21);
    And(a, 0xFFFF_FFFF_FFE0_0000)
  }

  /** The three indices of a 2 MiB page: `(virt >> 39)`, `(virt >> 30)` and `(virt >> 21)`, each
      `& PAGEINDEXMASK`. */
  datatype Page = Page(i4: nat, i3: nat, i2: nat)

  function PageOf(v: u64): Page {
    Page(And(v / 0x80_0000_0000, 0x1FF), And(v / 0x4000_0000, 0x1FF), And(v / 0x20_0000, 0x1FF))
  }

  predicate InTables(k: Page) {
    k.i4 < 512 && k.i3 < 512 && k.i2 < 512
  }

  lemma {:induction false} PageAlignIs(a: u64)
    ensures PageAlign(a) == a - a % 0x20_0000
  {
    Powers();
    AndHighMask(a, 64, 21);
  }

  lemma {:induction false} IndexIs(x: nat)
    ensures And(x, 0x1FF) == x % 512
  {
    Powers();
    AndLowMask(x, 9);
  }

  lemma {:induction false} NestedDivision(v: nat)
    ensures v / 0x4000_0000 == v / 0x20_0000 / 512
    ensures v / 0x80_0000_0000 == v / 0x20_0000 / 0x4_0000
  {
    var q, r := v / 0x20_0000, v % 0x20_0000;
    var a, b := q / 512, q % 512;
    assert v == 0x4000_0000 * a + (0x20_0000 * b + r);
    var c, d := q / 0x4_0000, q % 0x4_0000;
    assert v == 0x80_0000_0000 * c + (0x20_0000 * d + r);
  }

  lemma {:induction false} PageOfIs(v: u64)
    ensures var q := v / 0x20_0000;
            PageOf(v) == Page(q / 0x4_0000 % 512, q / 512 % 512, q % 512)
    ensures InTables(PageOf(v))
  {
    NestedDivision(v);
    IndexIs(v / 0x80_0000_0000);
    IndexIs(v / 0x4000_0000);
    IndexIs(v / 0x20_0000);
  }

  /** Aligning an address first does not change its page. */
  lemma {:induction false} PageOfAligned(v: u64)
    ensures PageOf(PageAlign(v)) == PageOf(v)
  {
    PageAlignIs(v);
    PageOfIs(v);
    PageOfIs(v - v % 0x20_0000);
    assert (v - v % 0x20_0000) / 0x20_0000 == v / 0x20_0000;
  }

  /** The kernel's direct map: byte `x` of the first gigabyte lies in page (511, 510, x / 2 MiB). */
  lemma {:induction false} DirectMapPage(x: u64)
    requires x < DIRECT_MAP
    ensures PageOf(KERNEL_VADDR + x) == Page(511, 510, x / 0x20_0000)
  {
    hide PageOf;
    PageOfIs(KERNEL_VADDR + x);
    var q := (KERNEL_VADDR + x) / 0x20_0000;
    var h := 0x7FF_FFFF_FC00;
    assert q == h + x / 0x20_0000 && x / 0x20_0000 < 512;
    assert h == 512 * 0x3_FFFF_FFFE && h == 0x4_0000 * 0x1FF_FFFF + 512 * 510;
    assert q / 512 == 0x3_FFFF_FFFE;
    assert q / 0x4_0000 == 0x1FF_FFFF;
  }

  lemma {:induction false} FlagBits(e: u64)
    ensures IsPresent(e) <==> e % 2 == 1
    ensures IsLarge(e) <==> e / 0x80 % 2 == 1
  {
    Powers();
    AndBit(e, 0);
    AndBit(e, 7);
  }

  lemma {:induction false} TableAtAddr(n: nat)
    requires n < TABLES
    ensures TableAt(TableAddr(n)) == Some(n) && TableAddr(n) != 0
  {
  }

  lemma {:induction false} LinkIs(n: nat)
    requires n < TABLES
    ensures Link(n, TABLE_FLAGS) == TABLE_SIZE * n + 3
  {
    Powers();
    hide Or;
    RemainderUnique(TABLE_SIZE * n, TABLE_SIZE, n, 0);
    OrIsSum(TABLE_SIZE * n, 3, 12);
  }

  /** The table the processor walks to from an entry: bits 12 to 51 (section 4.5 of Intel SDM
      Volume 3A). */
  function WalkedTable(e: u64): nat {
    e % 0x10_0000_0000_0000 / TABLE_SIZE
  }

  /** The link written for a new table is present and not large, and both the masking in
      `virt_get_next_map_level` and the processor's walk recover that table from it. */
  lemma {:induction false} LinkRecovers(n: nat)
    requires n < TABLES
    ensures var e := Link(n, TABLE_FLAGS);
            && IsPresent(e) && !IsLarge(e)
            && TableAt(NextTable(e)) == Some(n)
            && WalkedTable(e) == n
  {
    hide And, Or, IsPresent, IsLarge;
    LinkIs(n);
    var e := TABLE_SIZE * n + 3;
    FlagBits(e);
    RemainderUnique(e, 0x80, 32 * n, 3);
    RemainderUnique(e, 0x200, 8 * n, 3);
    RemainderUnique(e, 2, 2048 * n + 1, 1);
    LowBitsCleared(e);
    TableAtAddr(n);
  }

  lemma {:induction false} LowBitsCleared(e: u64)
    ensures And(e, 0xFFFF_FFFF_FFFF_FE00) == e - e % 512
  {
    Powers();
    AndHighMask(e, 64, 9);
  }

  // The leaf written by `virt_map_page`.

  function Leaf(phys: u64, flags: u32): u64 {
    Or64(PageAlign(phys), flags)
  }

  /** What the processor makes of a present 2 MiB entry: bits 21 to 51 are the frame. */
  function LeafFrame(e: u64): nat {
    e % 0x10_0000_0000_0000 / 0x20_0000 * 0x20_0000
  }

  lemma {:induction false} LeafIs(phys: u64, flags: u32)
    requires flags < 0x20_0000
    ensures Leaf(phys, flags) == phys - phys % 0x20_0000 + flags
  {
    PageAlignIs(phys);
    Powers();
    OrIsSum(PageAlign(phys), flags, 21);
  }

  lemma {:induction false} FrameOfLeaf(phys: u64, flags: u32)
    requires phys < 0x10_0000_0000_0000 && flags < 0x20_0000
    ensures LeafFrame(phys - phys % 0x20_0000 + flags) == phys - phys % 0x20_0000
  {
    var q := phys / 0x20_0000;
    assert phys - phys % 0x20_0000 + flags == 0x20_0000 * q + flags;
    RemainderUnique(0x20_0000 * q + flags, 0x20_0000, q, flags);
  }

  /** For every physical address the leaf gives back the address's frame, exactly when the flags stay
      below the frame bits. */
  lemma {:induction false} LeafKeepsFrame(flags: u32)
    ensures (forall phys: u64 | phys < 0x10_0000_0000_0000 ::
               LeafFrame(Leaf(phys, flags)) == PageAlign(phys))
            <==> flags < 0x20_0000
  {
    if flags < 0x20_0000 {
      forall phys: u64 | phys < 0x10_0000_0000_0000
        ensures LeafFrame(Leaf(phys, flags)) == PageAlign(phys)
      {
        LeafIs(phys, flags);
        PageAlignIs(phys);
        FrameOfLeaf(phys, flags);
      }
    } else {
      var zero: u64 := 0;
      assert Leaf(zero, flags) == flags && PageAlign(zero) == 0;
    }
  }
}
