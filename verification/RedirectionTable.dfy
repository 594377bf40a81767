/** The redirection table of the I/O APIC as a register file, and the routing the driver sets up. */
module RedirectionTable {
  import opened Words
  import Bits

  type u8 = x: int | 0 <= x < 0x100

  /** The registers an 8-bit register number can select. */
  type Registers = s: seq<u32> | |s| == 256 witness seq(256, _ => 0)

  /** An interrupt source override of the MADT. */
  datatype Override = Override(irq: u8, gsi: u32)

  const IOAPICVER: u8 := 1
  const IDT_EXCEPTIONS: u8 := 32
  const NUM_IRQ: u8 := 16

  /** Redirection entries whose two registers have 8-bit numbers of their own. */
  const MAX_ENTRIES: u8 := 120

  /** `IOAPICREDTBL(n)` kept in a `uint8_t`: the number of the lower register of entry `n`. */
  function Offset(n: u8): (r: u8)
    ensures r < 255
    ensures n < MAX_ENTRIES ==> r == 16 + 2 * n
  {
    (0x10 + 2 * n) % 0x100
  }

  function Low(x: nat): u32 {
    x % 0x1_0000_0000
  }

  /** `x << 31` in 32 bits. */
  function Shift31(x: nat): u32 {
    (x * 0x8000_0000) % 0x1_0000_0000
  }

  /** `ioapic_read_redtbl_entry` on the two registers of an entry. */
  function Join(lower: u32, upper: u32): nat {
    Bits.Or(lower, Shift31(upper))
  }

  function Entry(regs: Registers, n: u8): nat {
    Join(regs[Offset(n)], regs[Offset(n) + 1])
  }

  /** The lower register: the vector, how the interrupt is delivered, the mask bit and reserved bits. */
  datatype Fields = Fields(vector: u8, delivery: u8, masked: bool, rest: nat)

  function FieldsOf(d: nat): Fields {
    Fields(d % 0x100, (d / 0x100) % 0x100, (d / 0x1_0000) % 2 == 1, d / 0x2_0000)
  }

  function Pack(f: Fields): nat {
    f.vector + 0x100 * f.delivery + (if f.masked then 0x1_0000 else 0) + 0x2_0000 * f.rest
  }

  lemma {:induction false} FieldsOfPack(f: Fields)
    ensures FieldsOf(Pack(f)) == f
  {
    var d, m := Pack(f), if f.masked then 1 else 0;
    assert d / 0x100 == f.delivery + 0x100 * (m + 2 * f.rest);
    assert d / 0x1_0000 == m + 2 * f.rest;
  }

  lemma {:induction false} PackFieldsOf(d: nat)
    ensures Pack(FieldsOf(d)) == d
  {
    var a, b := d / 0x100, d / 0x1_0000;
    Bits.DivideTwice(d, 0x100, 0x100);
    Bits.DivideTwice(d, 0x1_0000, 2);
    Bits.Euclid(d, 0x100);
    Bits.Euclid(a, 0x100);
    Bits.Euclid(b, 2);
  }

  lemma {:induction false} TopBit(lower: u32)
    ensures lower / 0x8000_0000 <= 1
    ensures lower == 0x8000_0000 * (lower / 0x8000_0000) + lower % 0x8000_0000
    ensures lower / 0x8000_0000 % 2 == lower / 0x8000_0000
  {
  }

  /** Reading an entry gives its lower register, except that the top bit also collects bit 0 of the
      upper register; it gives the whole entry exactly when the upper register is zero. */
  lemma {:induction false} JoinIs(lower: u32, upper: u32)
    ensures Join(lower, upper) < 0x1_0000_0000
    ensures Join(lower, upper) % 0x8000_0000 == lower % 0x8000_0000
    ensures Join(lower, upper) / 0x8000_0000 == if upper % 2 == 1 then 1 else lower / 0x8000_0000
    ensures Join(lower, upper) == lower + 0x1_0000_0000 * (upper as int) <==> upper == 0
  {
    assert Bits.Or(lower, 0) == lower;
    hide Bits.Or, Bits.Pow2, Shift31;
    Bits.Powers();
    Bits.OrBit(lower, 31);
    Shift31Is(upper);
    TopBit(lower);
    hide Join;
    if upper % 2 == 1 {
      Bits.RemainderUnique(Join(lower, upper), 0x8000_0000, 1, lower % 0x8000_0000);
    }
  }

  /** The read is right in every field but the reserved bits of the lower register. */
  lemma {:induction false} ReadFields(lower: u32, upper: u32)
    ensures Join(lower, upper) < 0x1_0000_0000
    ensures FieldsOf(Join(lower, upper)).(rest := 0) == FieldsOf(lower).(rest := 0)
  {
    JoinIs(lower, upper);
    hide Join;
    if Join(lower, upper) != lower {
      var f := FieldsOf(lower);
      PackFieldsOf(lower);
      FieldsOfPack(f.(rest := f.rest + 0x4000));
    }
  }

  lemma {:induction false} Shift31Is(x: u32)
    ensures Shift31(x) == if x % 2 == 1 then 0x8000_0000 else 0
  {
    Bits.RemainderUnique(x * 0x8000_0000, 0x1_0000_0000, x / 2, (x % 2) * 0x8000_0000);
  }

  /** `data | (1 << 16)` */
  function WithMask(data: nat): nat {
    Bits.Or(data, 0x1_0000)
  }

  /** `data & ~(1 << 16)`, the mask an `int` extended to 64 bits. */
  function WithoutMask(data: nat): nat {
    Bits.And(data, 0xFFFF_FFFF_FFFE_FFFF)
  }

  /** Setting bit 16 changes the mask field and nothing else. */
  lemma {:induction false} SetMask(d: nat)
    ensures FieldsOf(WithMask(d)) == FieldsOf(d).(masked := true)
    ensures d < 0x1_0000_0000 ==> WithMask(d) < 0x1_0000_0000
  {
    hide Bits.Or, Bits.Pow2;
    Bits.Powers();
    Bits.OrBit(d, 16);
    PackFieldsOf(d);
    FieldsOfPack(FieldsOf(d).(masked := true));
  }

  /** Clearing bit 16 changes the mask field and nothing else. */
  lemma {:induction false} ClearMask(d: nat)
    requires d < 0x1_0000_0000
    ensures FieldsOf(WithoutMask(d)) == FieldsOf(d).(masked := false)
    ensures WithoutMask(d) < 0x1_0000_0000
  {
    hide Bits.And, Bits.Pow2;
    Bits.Powers();
    Bits.AndNotBit(d, 64, 16);
    PackFieldsOf(d);
    FieldsOfPack(FieldsOf(d).(masked := false));
  }

  /** The fields `ioapic_map_redtbl_entry` sets in an entry: vector, mask and destination. */
  function Mapped(data: nat, vector: u8): nat {
    var d := data % 0x100_0000_0000_0000;
    WithMask(d - d % 0x100 + (vector + IDT_EXCEPTIONS as int) % 0x100)
  }

  lemma {:induction false} Small(data: nat)
    requires data < 0x1_0000_0000
    ensures data % 0x100_0000_0000_0000 == data
  {
  }

  lemma {:induction false} VectorSet(data: nat, v: u8)
    requires data < 0x1_0000_0000
    ensures var d := data - data % 0x100 + v;
            0 <= d < 0x1_0000_0000 && FieldsOf(d) == FieldsOf(data).(vector := v)
  {
    var q := data / 0x100;
    var d := data - data % 0x100 + v;
    Bits.Euclid(data, 0x100);
    Bits.RemainderUnique(d, 0x100, q, v);
    Bits.DivideTwice(data, 0x100, 0x100);
    Bits.DivideTwice(d, 0x100, 0x100);
    Bits.DivideTwice(data, 0x100, 0x200);
    Bits.DivideTwice(d, 0x100, 0x200);
  }

  lemma {:induction false} MappedIs(data: nat, vector: u8)
    requires data < 0x1_0000_0000
    ensures FieldsOf(Mapped(data, vector))
            == FieldsOf(data).(masked := true, vector := (vector + IDT_EXCEPTIONS as int) % 0x100)
    ensures Mapped(data, vector) < 0x1_0000_0000
  {
    hide WithMask, FieldsOf, Pack;
    var v: u8 := (vector + IDT_EXCEPTIONS as int) % 0x100;
    var d := data - data % 0x100 + v;
    Small(data);
    VectorSet(data, v);
    SetMask(d);
  }

  /** The word masking, unmasking or mapping writes back to the lower register. */
  lemma {:induction false} WordsWritten(lower: u32, upper: u32, vector: u8)
    ensures var d := Join(lower, upper);
            && FieldsOf(Low(WithMask(d))).(rest := 0) == FieldsOf(lower).(rest := 0, masked := true)
            && FieldsOf(Low(WithoutMask(d))).(rest := 0) == FieldsOf(lower).(rest := 0, masked := false)
            && FieldsOf(Low(Mapped(d, vector))).(rest := 0)
               == FieldsOf(lower).(rest := 0, masked := true, vector := (vector + IDT_EXCEPTIONS as int) % 0x100)
            && Mapped(d, vector) / 0x1_0000_0000 == 0
  {
    hide WithMask, WithoutMask, Mapped, Join, FieldsOf;
    var d := Join(lower, upper);
    ReadFields(lower, upper);
    SetMask(d);
    ClearMask(d);
    MappedIs(d, vector);
  }

  /** `ioapic_mask_gsi` */
  function MaskEntry(regs: Registers, maxRedir: u8, n: u8): Registers {
    if n > maxRedir then regs else regs[Offset(n) := Low(WithMask(Entry(regs, n)))]
  }

  /** `ioapic_unmask_gsi` */
  function UnmaskEntry(regs: Registers, maxRedir: u8, n: u8): Registers {
    if n > maxRedir then regs else regs[Offset(n) := Low(WithoutMask(Entry(regs, n)))]
  }

  /** `ioapic_map_redtbl_entry` */
  function MapEntry(regs: Registers, n: u8, vector: u8): Registers {
    var data := Mapped(Entry(regs, n), vector);
    regs[Offset(n) := Low(data)][Offset(n) + 1 := Low(data / 0x1_0000_0000)]
  }
}
