/** Where interrupt requests end up: the redirection entries after set-up and over runs of masking. */
module IrqRouting {
  import opened Words
  import opened RedirectionTable
  import Bits

  /** The entry an 8-bit entry number made from a global interrupt number names. */
  function EntryOf(o: Override): u8 {
    o.gsi % 0x100
  }

  /** The loops of `ioapic_mask` and `ioapic_unmask`: the entry of the first override of `irq`. */
  function FirstFor(ov: seq<Override>, irq: u8): Option<u8> {
    if ov == [] then None
    else if ov[0].irq == irq then Some(EntryOf(ov[0]))
    else FirstFor(ov[1..], irq)
  }

  /** The entry a request line is masked and unmasked through; line 0 is never redirected. */
  function Target(ov: seq<Override>, irq: u8): u8 {
    if irq == 0 then 0
    else match FirstFor(ov, irq) case Some(e) => e case None => irq
  }

  /** `irq_map[i]`, set for the low global interrupt numbers some override claims. */
  predicate Claimed(ov: seq<Override>, i: u8) {
    exists o | o in ov :: o.gsi == i
  }

  function MaskFirst(regs: Registers, maxRedir: u8, k: nat): Registers
    requires k <= 0x100
  {
    if k == 0 then regs else MaskEntry(MaskFirst(regs, maxRedir, k - 1), maxRedir, k - 1)
  }

  function MapOverrides(regs: Registers, ov: seq<Override>): Registers {
    if ov == [] then regs
    else
      var last := ov[|ov| - 1];
      MapEntry(MapOverrides(regs, ov[..|ov| - 1]), EntryOf(last), last.irq)
  }

  function MapIdentity(regs: Registers, ov: seq<Override>, k: nat): Registers
    requires k <= NUM_IRQ
  {
    if k == 0 then regs
    else
      var before := MapIdentity(regs, ov, k - 1);
      if Claimed(ov, k - 1) then before else MapEntry(before, k - 1, k - 1)
  }

  /** `max_redir` as `ioapic_init` reads it: one more than the number of the last entry. */
  function MaxRedir(regs: Registers): u8 {
    (regs[IOAPICVER] / 0x1_0000 + 1) % 0x100
  }

  /** The registers after `ioapic_init`. */
  function Initial(regs: Registers, ov: seq<Override>): Registers {
    MapIdentity(MapOverrides(MaskFirst(regs, MaxRedir(regs), MaxRedir(regs) + 1), ov), ov, NUM_IRQ)
  }

  datatype Op = Mask(irq: u8) | Unmask(irq: u8)

  function Step(regs: Registers, ov: seq<Override>, maxRedir: u8, op: Op): Registers {
    match op
    case Mask(irq) => MaskEntry(regs, maxRedir, Target(ov, irq))
    case Unmask(irq) => UnmaskEntry(regs, maxRedir, Target(ov, irq))
  }

  function Run(regs: Registers, ov: seq<Override>, maxRedir: u8, ops: seq<Op>): Registers {
    if ops == [] then regs
    else Step(Run(regs, ov, maxRedir, ops[..|ops| - 1]), ov, maxRedir, ops[|ops| - 1])
  }

  // What the registers mean.

  /** The lower register of entry `e`. */
  function State(regs: Registers, e: u8): Fields {
    FieldsOf(regs[Offset(e)])
  }

  /** The request line of the last override that names entry `e`. */
  function LastFor(ov: seq<Override>, e: u8): Option<u8> {
    if ov == [] then None
    else if EntryOf(ov[|ov| - 1]) == e then Some(ov[|ov| - 1].irq)
    else LastFor(ov[..|ov| - 1], e)
  }

  /** The request line whose vector entry `e` carries: its last override's, or its own number. */
  function Assigned(ov: seq<Override>, e: u8): Option<u8> {
    match LastFor(ov, e)
    case Some(irq) => Some(irq)
    case None => if e < NUM_IRQ then Some(e) else None
  }

  function VectorOf(irq: u8): u8 {
    (irq + IDT_EXCEPTIONS as int) % 0x100
  }

  /** The entries enabled by a run that starts with all of them masked. */
  function Enabled(ov: seq<Override>, ops: seq<Op>): set<u8> {
    if ops == [] then {}
    else
      var before := Enabled(ov, ops[..|ops| - 1]);
      match ops[|ops| - 1]
      case Mask(irq) => before - {Target(ov, irq)}
      case Unmask(irq) => before + {Target(ov, irq)}
  }

  /** The device has entries 0 to `last`, every one with register numbers of its own and of its
      successor, and the overrides name entries of this device. */
  predicate Fits(regs: Registers, ov: seq<Override>, last: u8) {
    && last + 1 < MAX_ENTRIES
    && regs[1] / 0x1_0000 % 0x100 == last
    && forall o | o in ov :: o.gsi <= last
  }

  /** Bits 16 to 23 of the version register hold the number of the last entry. */
  lemma {:induction false} MaxRedirIs(regs: Registers, last: u8)
    requires regs[1] / 0x1_0000 % 0x100 == last < 255
    ensures MaxRedir(regs) == last + 1
  {
    var q := regs[1] / 0x1_0000;
    Bits.Euclid(q, 0x100);
    Bits.RemainderUnique(q + 1, 0x100, q / 0x100, last + 1);
  }

  /** Nothing but entry `n` changes in the lower registers, and there the mask bit and reserved bits only. */
  lemma {:induction false} MaskEntryIs(regs: Registers, maxRedir: u8, n: u8, e: u8)
    requires n < MAX_ENTRIES && e < MAX_ENTRIES
    ensures var f, g := State(MaskEntry(regs, maxRedir, n), e), State(regs, e);
            if e == n <= maxRedir then f == g.(masked := true, rest := f.rest) else f == g
    ensures var f, g := State(UnmaskEntry(regs, maxRedir, n), e), State(regs, e);
            if e == n <= maxRedir then f == g.(masked := false, rest := f.rest) else f == g
  {
    hide WithMask, WithoutMask, Low, Join, FieldsOf;
    WordsWritten(regs[Offset(n)], regs[Offset(n) + 1], 0);
  }

  lemma {:induction false} MapEntryIs(regs: Registers, n: u8, v: u8, e: u8)
    requires n < MAX_ENTRIES && e < MAX_ENTRIES
    ensures var f, g := State(MapEntry(regs, n, v), e), State(regs, e);
            if e == n then f == g.(masked := true, vector := VectorOf(v), rest := f.rest) else f == g
  {
    hide Mapped, Low, Join, FieldsOf;
    WordsWritten(regs[Offset(n)], regs[Offset(n) + 1], v);
  }

  lemma {:induction false} MaskFirstMasks(regs: Registers, maxRedir: u8, k: nat, e: u8)
    requires k <= maxRedir + 1 <= MAX_ENTRIES && e < MAX_ENTRIES
    ensures e < k ==> State(MaskFirst(regs, maxRedir, k), e).masked
    ensures State(MaskFirst(regs, maxRedir, k), e).delivery == State(regs, e).delivery
  {
    hide MaskEntry, State;
    if k == 0 {
    } else {
      MaskFirstMasks(regs, maxRedir, k - 1, e);
      MaskEntryIs(MaskFirst(regs, maxRedir, k - 1), maxRedir, k - 1, e);
    }
  }

  /** The masking loop of set-up and the bound check reach one entry beyond the last. */
  lemma {:induction false} OneEntryTooMany(regs: Registers, ov: seq<Override>, last: u8)
    requires Fits(regs, ov, last)
    ensures State(MaskFirst(regs, MaxRedir(regs), MaxRedir(regs) + 1), last + 1).masked
    ensures State(MaskEntry(regs, MaxRedir(regs), last + 1), last + 1).masked
    ensures last + 2 < MAX_ENTRIES ==> MaskEntry(regs, MaxRedir(regs), last + 2) == regs
  {
    MaxRedirIs(regs, last);
    MaskFirstMasks(regs, MaxRedir(regs), MaxRedir(regs) + 1, last + 1);
    MaskEntryIs(regs, MaxRedir(regs), last + 1, last + 1);
    hide State;
  }

  lemma {:induction false} MapOverridesIs(regs: Registers, ov: seq<Override>, last: u8, e: u8)
    requires last < MAX_ENTRIES && e < MAX_ENTRIES
    requires forall o | o in ov :: o.gsi <= last
    ensures var f := State(MapOverrides(regs, ov), e);
            match LastFor(ov, e)
            case Some(irq) => f == State(regs, e).(masked := true, vector := VectorOf(irq), rest := f.rest)
            case None => f == State(regs, e)
  {
    hide MapEntry, State, VectorOf;
    if ov == [] {
    } else {
      var o, front := ov[|ov| - 1], ov[..|ov| - 1];
      MapOverridesIs(regs, front, last, e);
      assert o in ov;
      MapEntryIs(MapOverrides(regs, front), EntryOf(o), o.irq, e);
    }
  }

  lemma {:induction false} MapIdentityIs(regs: Registers, ov: seq<Override>, k: nat, e: u8)
    requires k <= NUM_IRQ && e < MAX_ENTRIES
    ensures var f := State(MapIdentity(regs, ov, k), e);
            if e < k && !Claimed(ov, e)
            then f == State(regs, e).(masked := true, vector := VectorOf(e), rest := f.rest)
            else f == State(regs, e)
  {
    hide MapEntry, State, VectorOf, Claimed;
    if k == 0 {
    } else {
      MapIdentityIs(regs, ov, k - 1, e);
      MapEntryIs(MapIdentity(regs, ov, k - 1), k - 1, k - 1, e);
    }
  }

  lemma {:induction false} ClaimedIs(ov: seq<Override>, last: u8, e: u8)
    requires last < MAX_ENTRIES && forall o | o in ov :: o.gsi <= last
    ensures Claimed(ov, e) <==> LastFor(ov, e).Some?
  {
    if ov == [] {
    } else {
      var o, front := ov[|ov| - 1], ov[..|ov| - 1];
      assert ov == front + [o] && o in ov;
      ClaimedIs(front, last, e);
    }
  }

  /** After set-up every entry of the device is masked, and every entry a request line can reach
      carries the vector of the line assigned to it. */
  lemma {:induction false} InitialIs(regs: Registers, ov: seq<Override>, last: u8, e: u8)
    requires Fits(regs, ov, last) && e <= last
    ensures State(Initial(regs, ov), e).masked && State(Initial(regs, ov), e).delivery == State(regs, e).delivery
    ensures Assigned(ov, e).Some? ==> State(Initial(regs, ov), e).vector == VectorOf(Assigned(ov, e).value)
  {
    MaxRedirIs(regs, last);
    hide State, VectorOf, MaskFirst, MapOverrides, MapIdentity, Claimed, MaxRedir;
    var masked := MaskFirst(regs, MaxRedir(regs), MaxRedir(regs) + 1);
    MaskFirstMasks(regs, MaxRedir(regs), MaxRedir(regs) + 1, e);
    MapOverridesIs(masked, ov, last, e);
    MapIdentityIs(MapOverrides(masked, ov), ov, NUM_IRQ, e);
    ClaimedIs(ov, last, e);
  }

  lemma {:induction false} TargetInRange(ov: seq<Override>, last: u8, irq: u8)
    requires last < MAX_ENTRIES && forall o | o in ov :: o.gsi <= last
    ensures FirstFor(ov, irq).Some? ==> FirstFor(ov, irq).value <= last
  {
    if ov == [] || ov[0].irq == irq {
    } else {
      TargetInRange(ov[1..], last, irq);
    }
  }

  /** One masking or unmasking call: entry `Target` of the device changes, and only its mask bit. */
  lemma {:induction false} StepIs(regs: Registers, ov: seq<Override>, last: u8, op: Op, e: u8)
    requires last + 1 < MAX_ENTRIES && (forall o | o in ov :: o.gsi <= last) && e <= last
    ensures var f, g := State(Step(regs, ov, last + 1, op), e), State(regs, e);
            && f.vector == g.vector && f.delivery == g.delivery
            && f.masked == if e == Target(ov, op.irq) then op.Mask? else g.masked
  {
    hide MaskEntry, UnmaskEntry, State;
    TargetInRange(ov, last, op.irq);
    var n := Target(ov, op.irq);
    if n <= last + 1 {
      MaskEntryIs(regs, last + 1, n, e);
    } else {
      SkippedAbove(regs, last + 1, n);
    }
  }

  lemma {:induction false} SkippedAbove(regs: Registers, maxRedir: u8, n: u8)
    requires n > maxRedir
    ensures MaskEntry(regs, maxRedir, n) == UnmaskEntry(regs, maxRedir, n) == regs
  {
  }

  /** After set-up and any run of masking and unmasking, the entries of the device that are not
      masked are exactly those the run enabled, each still with the vector assigned to it. */
  lemma {:induction false} RunIsExact(regs: Registers, ov: seq<Override>, last: u8, ops: seq<Op>, e: u8)
    requires Fits(regs, ov, last) && e <= last
    ensures var f := State(Run(Initial(regs, ov), ov, last + 1, ops), e);
            && (f.masked <==> e !in Enabled(ov, ops))
            && f.delivery == State(regs, e).delivery
            && (Assigned(ov, e).Some? ==> f.vector == VectorOf(Assigned(ov, e).value))
  {
    hide State, Step, VectorOf, Initial, Assigned, Target;
    if ops == [] {
      InitialIs(regs, ov, last, e);
    } else {
      var front := ops[..|ops| - 1];
      RunIsExact(regs, ov, last, front, e);
      StepIs(Run(Initial(regs, ov), ov, last + 1, front), ov, last, ops[|ops| - 1], e);
    }
  }

  /** The run enables the entry: the last call whose line it is the target of unmasks. */
  ghost predicate LastUnmasks(ov: seq<Override>, ops: seq<Op>, e: u8, i: nat) {
    && i < |ops| && ops[i].Unmask? && Target(ov, ops[i].irq) == e
    && forall j | i < j < |ops| :: Target(ov, ops[j].irq) != e
  }

  /** An entry is enabled by a run exactly when the last call that names it unmasks. */
  lemma {:induction false} EnabledIs(ov: seq<Override>, ops: seq<Op>, e: u8)
    ensures e in Enabled(ov, ops) <==> exists i: nat :: LastUnmasks(ov, ops, e, i)
  {
    hide Target;
    if ops == [] {
    } else {
      var n := |ops| - 1;
      EnabledIs(ov, ops[..n], e);
      if Target(ov, ops[n].irq) == e {
        assert ops[n].Unmask? ==> LastUnmasks(ov, ops, e, n);
      } else {
        forall i: nat
          ensures LastUnmasks(ov, ops, e, i) <==> LastUnmasks(ov, ops[..n], e, i)
        {
        }
      }
    }
  }

  /** Unmasking one request line after set-up enables exactly one entry; it delivers the line's own
      vector exactly when that entry is assigned to the line. */
  lemma {:induction false} UnmaskRoutes(regs: Registers, ov: seq<Override>, last: u8, irq: u8)
    requires Fits(regs, ov, last) && irq < NUM_IRQ && Target(ov, irq) <= last
    ensures var after := Run(Initial(regs, ov), ov, last + 1, [Unmask(irq)]);
            && (forall e: u8 | e <= last :: !State(after, e).masked <==> e == Target(ov, irq))
            && (Assigned(ov, Target(ov, irq)).Some? ==>
                 (State(after, Target(ov, irq)).vector == 32 + irq
                  <==> Assigned(ov, Target(ov, irq)) == Some(irq)))
  {
    hide State, Initial, Run;
    assert Enabled(ov, [Unmask(irq)]) == {Target(ov, irq)};
    var after := Run(Initial(regs, ov), ov, last + 1, [Unmask(irq)]);
    forall e: u8 {:trigger State(after, e)} | e <= last
      ensures !State(after, e).masked <==> e == Target(ov, irq)
    {
      RunIsExact(regs, ov, last, [Unmask(irq)], e);
    }
    RunIsExact(regs, ov, last, [Unmask(irq)], Target(ov, irq));
  }

  // Where the entries deliver to: the upper registers.

  /** Mapping clears the upper register of the entry, and so sends it to processor 0; of the other registers
      it changes the lower one of the entry alone. */
  lemma {:induction false} MapEntryKeeps(regs: Registers, n: u8, v: u8, r: u8)
    requires n < MAX_ENTRIES
    ensures MapEntry(regs, n, v)[17 + 2 * n] == 0
    ensures r != 16 + 2 * n && r != 17 + 2 * n ==> MapEntry(regs, n, v)[r] == regs[r]
  {
    hide Mapped, Low, Join, FieldsOf, WithMask, WithoutMask;
    WordsWritten(regs[Offset(n)], regs[Offset(n) + 1], v);
    LowZero();
  }

  lemma {:induction false} LowZero()
    ensures Low(0) == 0
  {
  }

  /** Masking and unmasking change the lower register of the entry alone. */
  lemma {:induction false} MaskEntryKeeps(regs: Registers, maxRedir: u8, n: u8, r: u8)
    requires maxRedir < MAX_ENTRIES && r != 16 + 2 * n
    ensures MaskEntry(regs, maxRedir, n)[r] == UnmaskEntry(regs, maxRedir, n)[r] == regs[r]
  {
    hide Low, WithMask, WithoutMask, Entry;
  }

  /** The register is not the lower one of an entry. */
  predicate NoLower(r: u8) {
    r < 16 || r % 2 == 1
  }

  lemma {:induction false} MaskFirstKeeps(regs: Registers, maxRedir: u8, k: nat, r: u8)
    requires k <= maxRedir + 1 <= MAX_ENTRIES && NoLower(r)
    ensures MaskFirst(regs, maxRedir, k)[r] == regs[r]
  {
    hide MaskEntry;
    if k == 0 {
    } else {
      MaskFirstKeeps(regs, maxRedir, k - 1, r);
      MaskEntryKeeps(MaskFirst(regs, maxRedir, k - 1), maxRedir, k - 1, r);
    }
  }

  ghost predicate Named(ov: seq<Override>, e: int) {
    exists o | o in ov :: o.gsi == e
  }

  lemma {:induction false} MapOverridesKeeps(regs: Registers, ov: seq<Override>, r: u8)
    requires NoLower(r) && forall o | o in ov :: o.gsi < MAX_ENTRIES
    ensures MapOverrides(regs, ov)[r] == if r >= 16 && Named(ov, (r - 17) / 2) then 0 else regs[r]
  {
    hide MapEntry;
    if ov == [] {
    } else {
      var o, front := ov[|ov| - 1], ov[..|ov| - 1];
      assert o in ov && EntryOf(o) == o.gsi;
      MapOverridesKeeps(regs, front, r);
      MapEntryKeeps(MapOverrides(regs, front), EntryOf(o), o.irq, r);
      NamedNext(front, o, (r - 17) / 2);
      assert ov == front + [o];
    }
  }

  lemma {:induction false} NamedNext(front: seq<Override>, o: Override, e: int)
    ensures Named(front + [o], e) <==> Named(front, e) || o.gsi == e
  {
    assert forall p :: p in front + [o] <==> p in front || p == o;
  }

  lemma {:induction false} MapIdentityKeeps(regs: Registers, ov: seq<Override>, k: nat, r: u8)
    requires NoLower(r) && k <= NUM_IRQ
    ensures MapIdentity(regs, ov, k)[r]
            == if r >= 16 && (r - 17) / 2 < k && !Named(ov, (r - 17) / 2) then 0 else regs[r]
  {
    hide MapEntry;
    if k == 0 {
    } else {
      MapIdentityKeeps(regs, ov, k - 1, r);
      MapEntryKeeps(MapIdentity(regs, ov, k - 1), k - 1, k - 1, r);
    }
  }

  /** After set-up the entries below 16 and those an override names deliver to processor 0: their upper
      registers are clear. All other upper registers, and all registers below 16, are as they were. */
  lemma {:induction false} InitialDelivers(regs: Registers, ov: seq<Override>, last: u8, r: u8)
    requires Fits(regs, ov, last) && NoLower(r)
    ensures Initial(regs, ov)[r]
            == if r >= 16 && ((r - 17) / 2 < 16 || Named(ov, (r - 17) / 2)) then 0 else regs[r]
  {
    MaxRedirIs(regs, last);
    hide MaskFirst, MapOverrides, MapIdentity, MaxRedir, Named;
    var masked := MaskFirst(regs, MaxRedir(regs), MaxRedir(regs) + 1);
    MaskFirstKeeps(regs, MaxRedir(regs), MaxRedir(regs) + 1, r);
    MapOverridesKeeps(masked, ov, r);
    MapIdentityKeeps(MapOverrides(masked, ov), ov, NUM_IRQ, r);
  }

  /** No run of masking and unmasking changes where an entry delivers to. */
  lemma {:induction false} RunDelivers(regs: Registers, ov: seq<Override>, last: u8, ops: seq<Op>, r: u8)
    requires Fits(regs, ov, last) && NoLower(r)
    ensures Run(Initial(regs, ov), ov, last + 1, ops)[r]
            == if r >= 16 && ((r - 17) / 2 < 16 || Named(ov, (r - 17) / 2)) then 0 else regs[r]
  {
    hide MaskEntry, UnmaskEntry, Initial, Target, Named;
    if ops == [] {
      InitialDelivers(regs, ov, last, r);
    } else {
      var front, op := ops[..|ops| - 1], ops[|ops| - 1];
      RunDelivers(regs, ov, last, front, r);
      var before := Run(Initial(regs, ov), ov, last + 1, front);
      if Target(ov, op.irq) <= last + 1 {
        MaskEntryKeeps(before, last + 1, Target(ov, op.irq), r);
      } else {
        SkippedAbove(before, last + 1, Target(ov, op.irq));
      }
    }
  }

  /** No two overrides share a global interrupt number, and none takes the number of a request line
      that is not itself overridden. */
  predicate WellFormed(ov: seq<Override>) {
    && (forall i, j | 0 <= i < j < |ov| :: ov[i].gsi % 0x100 != ov[j].gsi % 0x100)
    && (forall o | o in ov && o.gsi % 0x100 < 16 :: exists p | p in ov :: p.irq == o.gsi % 0x100)
  }

  /** With well-formed overrides every line from 1 to 15 is assigned its own entry. */
  lemma {:induction false} WellFormedRoutes(ov: seq<Override>, irq: u8)
    requires WellFormed(ov) && 1 <= irq < NUM_IRQ
    ensures Assigned(ov, Target(ov, irq)) == Some(irq)
  {
    FirstForIs(ov, irq);
    LastForIs(ov, Target(ov, irq));
  }

  /** A line without an override keeps its own vector exactly when no override claims its number. With
      the usual override of line 0 to global interrupt 2, line 2 does not. */
  lemma {:induction false} PlainLineRoutes(ov: seq<Override>, irq: u8)
    requires 1 <= irq < NUM_IRQ && forall o | o in ov :: o.irq != irq
    ensures Assigned(ov, Target(ov, irq)) == Some(irq) <==> forall o | o in ov :: o.gsi % 0x100 != irq
  {
    FirstForIs(ov, irq);
    LastForIs(ov, irq);
  }

  /** The usual override: unmasking line 2 enables an entry that delivers the vector of line 0, and unmasking
      line 0 leaves that entry masked. */
  lemma {:induction false} TimerOverride(regs: Registers, ov: seq<Override>, last: u8, irq: u8)
    requires last >= 2 && Fits(regs, ov, last) && ov == [Override(0, 2)]
    ensures var after := Run(Initial(regs, ov), ov, last + 1, [Unmask(irq)]);
            && (irq == 2 ==> !State(after, irq).masked && State(after, irq).vector == 32)
            && (irq == 0 ==> !State(after, irq).masked && State(after, irq + 2).masked)
  {
    hide State, Initial, Run;
    assert ov[..0] == [] && ov[1..] == [];
    assert FirstFor(ov[1..], irq) == None;
    assert LastFor(ov, 2) == Some(0);
    assert irq == 2 ==> Target(ov, irq) == 2 && Assigned(ov, irq) == Some(0);
    assert Enabled(ov, [Unmask(irq)]) == {Target(ov, irq)};
    if irq <= last {
      RunIsExact(regs, ov, last, [Unmask(irq)], irq);
    }
    RunIsExact(regs, ov, last, [Unmask(irq)], 2);
  }

  lemma {:induction false} FirstForIs(ov: seq<Override>, irq: u8)
    ensures match FirstFor(ov, irq)
            case Some(e) => exists i: nat :: FirstNames(ov, irq, i) && ov[i].gsi % 0x100 == e
            case None => forall o | o in ov :: o.irq != irq
  {
    if ov == [] {
    } else {
      assert ov == [ov[0]] + ov[1..];
      FirstForIs(ov[1..], irq);
      if ov[0].irq == irq {
        assert FirstNames(ov, irq, 0);
      } else if FirstFor(ov[1..], irq).Some? {
        var i: nat :| FirstNames(ov[1..], irq, i) && ov[1..][i].gsi % 0x100 == FirstFor(ov[1..], irq).value;
        assert FirstNames(ov, irq, i + 1);
      }
    }
  }

  /** Override `i` is the first of its request line. */
  predicate FirstNames(ov: seq<Override>, irq: u8, i: nat) {
    i < |ov| && ov[i].irq == irq && forall j | 0 <= j < i :: ov[j].irq != irq
  }

  /** Override `i` is the last that names entry `e`. */
  predicate LastNames(ov: seq<Override>, e: u8, i: nat) {
    i < |ov| && ov[i].gsi % 0x100 == e && forall j | i < j < |ov| :: ov[j].gsi % 0x100 != e
  }

  lemma {:induction false} LastForIs(ov: seq<Override>, e: u8)
    ensures match LastFor(ov, e)
            case Some(irq) => exists i: nat :: LastNames(ov, e, i) && ov[i].irq == irq
            case None => forall o | o in ov :: o.gsi % 0x100 != e
  {
    if ov == [] {
    } else {
      var n := |ov| - 1;
      assert ov == ov[..n] + [ov[n]];
      LastForIs(ov[..n], e);
      if EntryOf(ov[n]) == e {
        assert LastNames(ov, e, n);
      } else if LastFor(ov[..n], e).Some? {
        var i: nat :| LastNames(ov[..n], e, i) && ov[..n][i].irq == LastFor(ov[..n], e).value;
        assert LastNames(ov, e, i);
      }
    }
  }

  /** `ioapic_mask_all` masks lines 32 to 47. */
  function MaskAllOps(k: nat): seq<Op>
    requires k <= NUM_IRQ
  {
    if k == 0 then [] else MaskAllOps(k - 1) + [Mask(IDT_EXCEPTIONS + k - 1)]
  }

  /** A line from 32 to 47 masked through the first `k` of them names the entry. */
  ghost predicate MaskAllNames(ov: seq<Override>, k: nat, e: u8)
    requires k <= NUM_IRQ
  {
    exists irq: u8 :: 32 <= irq < 32 + k && Target(ov, irq) == e
  }

  lemma {:induction false} MaskAllLeaves(ov: seq<Override>, ops: seq<Op>, k: nat, e: u8)
    requires k <= NUM_IRQ
    ensures e in Enabled(ov, ops + MaskAllOps(k)) <==> e in Enabled(ov, ops) && !MaskAllNames(ov, k, e)
  {
    hide Target;
    if k == 0 {
      assert ops + MaskAllOps(k) == ops;
    } else {
      MaskAllLeaves(ov, ops, k - 1, e);
      var all := ops + MaskAllOps(k);
      assert all[..|all| - 1] == ops + MaskAllOps(k - 1);
      NamesNext(ov, k, e);
    }
  }

  lemma {:induction false} NamesNext(ov: seq<Override>, k: nat, e: u8)
    requires 0 < k <= NUM_IRQ
    ensures MaskAllNames(ov, k, e) <==> MaskAllNames(ov, k - 1, e) || Target(ov, IDT_EXCEPTIONS + k - 1) == e
  {
    hide Target;
  }

  /** After set-up and any run, `ioapic_mask_all` leaves an entry masked exactly when it was masked before
      or is the entry of a request line from 32 to 47. */
  lemma {:induction false} MaskAllIs(regs: Registers, ov: seq<Override>, last: u8, ops: seq<Op>, e: u8)
    requires Fits(regs, ov, last) && e <= last
    ensures State(Run(Initial(regs, ov), ov, last + 1, ops + MaskAllOps(NUM_IRQ)), e).masked
            <==> State(Run(Initial(regs, ov), ov, last + 1, ops), e).masked || MaskAllNames(ov, NUM_IRQ, e)
  {
    hide State, Run, Initial, Enabled, MaskAllNames, MaskAllOps;
    RunIsExact(regs, ov, last, ops, e);
    RunIsExact(regs, ov, last, ops + MaskAllOps(NUM_IRQ), e);
    MaskAllLeaves(ov, ops, NUM_IRQ, e);
  }

  /** On a device with at most 31 entries whose overrides concern request lines below 32 it writes nothing. */
  lemma {:induction false} MaskAllMasksNothing(regs: Registers, ov: seq<Override>, maxRedir: u8, k: nat)
    requires maxRedir < IDT_EXCEPTIONS && k <= NUM_IRQ && forall o | o in ov :: o.irq < IDT_EXCEPTIONS
    ensures Run(regs, ov, maxRedir, MaskAllOps(k)) == regs
  {
    if k == 0 {
    } else {
      hide Target, MaskEntry;
      MaskAllMasksNothing(regs, ov, maxRedir, k - 1);
      var irq: u8 := IDT_EXCEPTIONS + k - 1;
      HighLine(ov, irq);
      SkippedAbove(regs, maxRedir, irq);
      assert MaskAllOps(k)[..k - 1] == MaskAllOps(k - 1) by { MaskAllLength(k - 1); }
      MaskAllLength(k);
    }
  }

  lemma {:induction false} HighLine(ov: seq<Override>, irq: u8)
    requires irq >= IDT_EXCEPTIONS && forall o | o in ov :: o.irq < IDT_EXCEPTIONS
    ensures Target(ov, irq) == irq
  {
    FirstForIs(ov, irq);
  }

  lemma {:induction false} MaskAllLength(k: nat)
    requires k <= NUM_IRQ
    ensures |MaskAllOps(k)| == k
  {
    if k == 0 {
    } else {
      MaskAllLength(k - 1);
    }
  }
}
