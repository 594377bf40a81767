/** The I/O APIC driver: registers reached through a select register and a data window. */
module IoApic {
  import opened Words
  import opened RedirectionTable
  import opened IrqRouting
  import Bits

  class IoApic {
    /** The device: its registers and the one selected. */
    const device: array<u32>
    var select: u8

    /** The tables of overrides the MADT walk collected. */
    const overrides: seq<Override>

    var maxRedir: u8
    const irqMap: array<int>

    ghost predicate Valid()
      reads this
    {
      device.Length == 256 && irqMap.Length == NUM_IRQ && (irqMap as object) != device
    }

    ghost function Regs(): Registers
      requires Valid()
      reads this, device
    {
      device[..]
    }

    constructor (device: array<u32>, overrides: seq<Override>)
      requires device.Length == 256
      ensures Valid() && this.device == device && this.overrides == overrides && fresh(irqMap)
    {
      this.device, this.overrides := device, overrides;
      select, maxRedir := 0, 0;
      irqMap := new int[NUM_IRQ](_ => 0);
    }

    method Read(reg: u8) returns (data: u32)
      requires Valid()
      modifies this`select
      ensures select == reg && data == device[reg]
    {
      select := reg;
      data := device[select];
    }

    method Write(reg: u8, data: u32)
      requires Valid()
      modifies this`select, device
      ensures Regs() == old(Regs())[reg := data]
    {
      select := reg;
      device[select] := data;
    }

    method ReadRedtblEntry(entry: u8) returns (res: nat)
      requires Valid()
      modifies this`select
      ensures res == Entry(Regs(), entry)
    {
      hide Bits.Or;
      var offset := Offset(entry);
      var lower := Read(offset);
      var upper := Read(offset + 1);
      res := Bits.Or(lower, Shift31(upper));
    }

    /** Returns 1 when there is no such entry. */
    method MaskGsi(idx: u8) returns (r: int)
      requires Valid()
      modifies this`select, device
      ensures Regs() == MaskEntry(old(Regs()), maxRedir, idx)
      ensures r == if idx > maxRedir then 1 else 0
    {
      hide Bits.Or, Bits.And;
      var data := ReadRedtblEntry(idx);
      if idx > maxRedir {
        return 1;
      }
      Write(Offset(idx), Low(WithMask(data)));
      return 0;
    }

    method UnmaskGsi(idx: u8) returns (r: int)
      requires Valid()
      modifies this`select, device
      ensures Regs() == UnmaskEntry(old(Regs()), maxRedir, idx)
      ensures r == if idx > maxRedir then 1 else 0
    {
      hide Bits.Or, Bits.And;
      var data := ReadRedtblEntry(idx);
      if idx > maxRedir {
        return 1;
      }
      Write(Offset(idx), Low(WithoutMask(data)));
      return 0;
    }

    /** The search both `ioapic_mask` and `ioapic_unmask` make. */
    method FindTarget(irq: u8) returns (e: u8)
      ensures e == Target(overrides, irq)
    {
      if irq != 0 {
        var i := 0;
        assert overrides[0..] == overrides;
        while i < |overrides|
          invariant i <= |overrides|
          invariant FirstFor(overrides, irq) == FirstFor(overrides[i..], irq)
        {
          if overrides[i].irq == irq {
            return overrides[i].gsi % 0x100;
          }
          assert overrides[i..][1..] == overrides[i + 1..];
          i := i + 1;
        }
      }
      return irq;
    }

    method MaskIrq(irq: u8)
      requires Valid()
      modifies this`select, device
      ensures Regs() == Step(old(Regs()), overrides, maxRedir, Mask(irq))
    {
      var e := FindTarget(irq);
      var r := MaskGsi(e);
    }

    method UnmaskIrq(irq: u8)
      requires Valid()
      modifies this`select, device
      ensures Regs() == Step(old(Regs()), overrides, maxRedir, Unmask(irq))
    {
      var e := FindTarget(irq);
      var r := UnmaskGsi(e);
    }

    /** `ioapic_mask_all` */
    method MaskAll()
      requires Valid()
      modifies this`select, device
      ensures Regs() == Run(old(Regs()), overrides, maxRedir, MaskAllOps(NUM_IRQ))
    {
      hide Step;
      ghost var regs := Regs();
      for i := 0 to NUM_IRQ
        invariant Regs() == Run(regs, overrides, maxRedir, MaskAllOps(i))
      {
        MaskIrq(IDT_EXCEPTIONS + i);
        MaskAllLength(i);
        assert MaskAllOps(i + 1)[..i] == MaskAllOps(i);
      }
    }

    method MapRedtblEntry(entry: u8, vector: u8)
      requires Valid()
      modifies this`select, device
      ensures Regs() == MapEntry(old(Regs()), entry, vector)
    {
      hide Bits.Or;
      var data := ReadRedtblEntry(entry);
      data := Mapped(data, vector);
      var offset := Offset(entry);
      Write(offset, Low(data));
      Write(offset + 1, Low(data / 0x1_0000_0000));
    }

    /** Masks every entry, then maps the overridden request lines and the others one to one. The
        8-bit counter of the masking loop passes its bound only below 255. */
    method Init()
      requires Valid() && MaxRedir(Regs()) < 255
      modifies this, device, irqMap
      ensures Valid() && maxRedir == MaxRedir(old(Regs()))
      ensures Regs() == Initial(old(Regs()), overrides)
    {
      ghost var regs := Regs();
      for i := 0 to NUM_IRQ
        invariant forall j | 0 <= j < i :: irqMap[j] == 0
        invariant Regs() == regs
      {
        irqMap[i] := 0;
      }
      var version := Read(IOAPICVER);
      maxRedir := (version / 0x1_0000 + 1) % 0x100;
      MaskEntries();
      MapOverridden();
      MapRemaining();
    }

    method MaskEntries()
      requires Valid() && maxRedir < 255
      modifies this`select, device
      ensures Regs() == MaskFirst(old(Regs()), maxRedir, maxRedir + 1)
    {
      hide MaskEntry;
      ghost var regs := Regs();
      var i: u8 := 0;
      while i < maxRedir + 1
        invariant i <= maxRedir + 1
        invariant Regs() == MaskFirst(regs, maxRedir, i)
      {
        var r := MaskGsi(i);
        i := i + 1;
      }
    }

    method MapOverridden()
      requires Valid() && forall j | 0 <= j < NUM_IRQ :: irqMap[j] == 0
      modifies this`select, device, irqMap
      ensures Regs() == MapOverrides(old(Regs()), overrides)
      ensures forall j: u8 | j < NUM_IRQ :: irqMap[j] != 0 <==> Claimed(overrides, j)
    {
      hide MapEntry;
      ghost var regs := Regs();
      assert overrides[..0] == [];
      for i := 0 to |overrides|
        invariant Regs() == MapOverrides(regs, overrides[..i])
        invariant forall j: u8 | j < NUM_IRQ :: irqMap[j] != 0 <==> Claimed(overrides[..i], j)
      {
        var o := overrides[i];
        assert overrides[..i + 1] == overrides[..i] + [o];
        MapRedtblEntry(o.gsi % 0x100, o.irq);
        if o.gsi < 16 {
          irqMap[o.gsi] := 1;
        }
        ClaimedNext(overrides[..i], o);
      }
      assert overrides[..|overrides|] == overrides;
    }

    method MapRemaining()
      requires Valid() && forall j: u8 | j < NUM_IRQ :: irqMap[j] != 0 <==> Claimed(overrides, j)
      modifies this`select, device
      ensures Regs() == MapIdentity(old(Regs()), overrides, NUM_IRQ)
    {
      hide MapEntry, Claimed;
      ghost var regs := Regs();
      for i := 0 to NUM_IRQ
        invariant Regs() == MapIdentity(regs, overrides, i)
      {
        if irqMap[i] == 0 {
          MapRedtblEntry(i, i);
        }
      }
    }
  }

  lemma {:induction false} ClaimedNext(ov: seq<Override>, o: Override)
    ensures forall j: u8 :: Claimed(ov + [o], j) <==> Claimed(ov, j) || o.gsi == j
  {
    forall j: u8
      ensures Claimed(ov + [o], j) <==> Claimed(ov, j) || o.gsi == j
    {
      assert forall p :: p in ov + [o] <==> p in ov || p == o;
    }
  }
}
