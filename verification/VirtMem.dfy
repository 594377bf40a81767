/** The page-table mapper, editing tables in physical memory. */
module VirtMem {
  import opened Words
  import opened Bitmap
  import opened FrameSearch
  import opened FrameLedger
  import opened PhysMem
  import opened PageEntry
  import opened PageWalk
  import opened PageTree

  class Vmm {
    const ram: array<Table>
    const pmm: Pmm
    const step: nat

    /** The table CR3 holds. Every access below goes through the window it maps. */
    const root: nat
    var cur: u64

    ghost predicate Ready()
      reads this, pmm
    {
      ram.Length == TABLES && pmm.Valid() && 1 <= step <= 2 && root < TABLES
    }

    ghost function Config(): Machine
      reads pmm
    {
      Machine(pmm.build, pmm.mmEnd, step, root)
    }

    ghost function State(): Vm
      reads this, ram, pmm.pmm
    {
      Vm(ram[..], pmm.pmm[..], cur)
    }

    constructor (ram: array<Table>, pmm: Pmm, step: nat, root: nat)
      requires ram.Length == TABLES && pmm.Valid() && 1 <= step <= 2 && root < TABLES
      ensures Ready() && cur == 0
      ensures this.ram == ram && this.pmm == pmm && this.step == step && this.root == root
    {
      this.ram, this.pmm, this.step, this.root, this.cur := ram, pmm, step, root, 0;
    }

    /** Whether the window leads to table `n`. */
    method Reaches(n: nat) returns (b: bool)
      requires Ready() && n < TABLES
      ensures b == Reached(ram[..], root, n)
    {
      b := Reached(ram[..], root, n);
    }

    /** `ok` is false when the `assert` on the frame fails or the frame lies outside the direct map. */
    method AllocPtBlock() returns (ok: bool, f: nat)
      requires Ready()
      modifies ram, pmm.pmm
      ensures match AllocBlock(Config(), old(State()))
              case Halt => !ok
              case Ok((st1, g)) => ok && f == g && State() == st1
      ensures ok ==> 0 < f && 512 * f + 511 < TABLES
    {
      OneFrame(pmm.build.reset, pmm.pmm[..], pmm.mmEnd);
      hide Search, MarkRun, FramesFor, ClearFrame, Reached;
      var page := pmm.PhysMalloc(FRAME);
      f := page / FRAME;
      ok := page != 0 && 512 * f + 511 < TABLES;
      if ok {
        ok := Reaches(512 * f);
      }
      if ok {
        ClearTables(f);
      }
    }

    /** The `memset` loop over the 512 tables of the frame. */
    method ClearTables(f: nat)
      requires ram.Length == TABLES && 512 * f + 511 < TABLES
      modifies ram
      ensures ram[..] == ClearFrame(old(ram[..]), f)
    {
      for i := 0 to 512
        invariant forall n | 0 <= n < TABLES ::
                    ram[n] == if 512 * f <= n < 512 * f + i then ZeroTable() else old(ram[n])
      {
        ram[512 * f + i] := ZeroTable();
      }
      forall n | 0 <= n < TABLES
        ensures (n / 512 == f) == (512 * f <= n < 512 * f + 512)
      {
      }
    }

    method NewPageTable() returns (ok: bool, n: nat)
      requires Ready()
      modifies this, ram, pmm.pmm
      ensures Ready()
      ensures match NewTable(Config(), old(State()))
              case Halt => !ok
              case Ok((st1, t)) => ok && n == t && State() == st1
    {
      n := 0;
      ok := EnsureBlock();
      if !ok {
        return;
      }
      ok := RollOver();
      if !ok {
        return;
      }
      ok, n := TakeTable();
    }

    /** Makes the first block. */
    method EnsureBlock() returns (ok: bool)
      requires Ready()
      modifies this, ram, pmm.pmm
      ensures Ready()
      ensures match FirstBlock(Config(), old(State()))
              case Halt => !ok
              case Ok(st1) => ok && State() == st1
    {
      ok := true;
      if cur == 0 {
        var f;
        ok, f := AllocPtBlock();
        if ok {
          cur := TableAddr(512 * f);
        }
      }
    }

    /** At the end of a block makes the next one and links the two. */
    method RollOver() returns (ok: bool)
      requires Ready()
      modifies this, ram, pmm.pmm
      ensures Ready()
      ensures match NextBlock(Config(), old(State()))
              case Halt => !ok
              case Ok(st1) => ok && State() == st1
    {
      var ctl := Control(cur);
      ok := ctl.Some?;
      if ok {
        ok := Reaches(ctl.value);
      }
      if ok && ram[ctl.value][0] >= 511 {
        var f;
        var prev := cur;
        ok, f := AllocPtBlock();
        if ok {
          cur := TableAddr(512 * f);
          ram[ctl.value] := ram[ctl.value][2 := cur];
          ram[512 * f + 511] := ram[512 * f + 511][1 := prev];
        }
      }
    }

    /** `cur->idx++` in the trace line when `step` is 2, then `&cur->dirs[cur->idx++]`. */
    method TakeTable() returns (ok: bool, n: nat)
      requires Ready()
      modifies ram
      ensures match Take(Config(), old(State()))
              case Halt => !ok
              case Ok((st1, t)) => ok && n == t && State() == st1
    {
      var ctl := Control(cur);
      n := 0;
      ok := ctl.Some?;
      if ok {
        ok := Reaches(ctl.value);
      }
      ok := ok && ram[ctl.value][0] + step <= 512;
      if ok {
        var control := ctl.value;
        ghost var ram0 := ram[..];
        if step == 2 {
          ram[control] := ram[control][0 := ram[control][0] + 1];
        }
        n := control - 511 + ram[control][0];
        ram[control] := ram[control][0 := ram[control][0] + 1];
        assert ram[control] == ram0[control][0 := ram0[control][0] + step];
        assert ram[..] == Write(ram0, control, 0, ram0[control][0] + step);
      }
    }

    method GetNextMapLevel(n: nat, i: nat) returns (ok: bool, next: nat)
      requires Ready() && n < TABLES && i < 512
      modifies this, ram, pmm.pmm
      ensures Ready()
      ensures match NextLevel(Config(), old(State()), n, i)
              case Halt => !ok
              case Ok((st1, t)) => ok && next == t && State() == st1
      ensures ok ==> next < TABLES
    {
      next := 0;
      ok := Reaches(n);
      if !ok {
        return;
      }
      var e := ram[n][i];
      if IsPresent(e) {
        var t := TableAt(NextTable(e));
        ok := t.Some?;
        if ok {
          next := t.value;
        }
      } else {
        ok, next := NewPageTable();
        if ok {
          ram[n] := ram[n][i := Link(next, TABLE_FLAGS)];
        }
      }
    }

    method VirtMapPage(p4: nat, phys: u64, virt: u64, flags: u32) returns (ok: bool)
      requires Ready() && p4 < TABLES
      modifies this, ram, pmm.pmm
      ensures Ready()
      ensures match MapPage(Config(), p4, old(State()), phys, virt, flags)
              case Halt => !ok
              case Ok(st1) => ok && State() == st1
    {
      var v, p := PageAlign(virt), PageAlign(phys);
      var page := PageOf(v);
      PageOfIs(v);
      var p3, p2;
      ok, p3 := GetNextMapLevel(p4, page.i4);
      if !ok {
        return;
      }
      ok, p2 := GetNextMapLevel(p3, page.i3);
      if !ok {
        return;
      }
      ok := Reaches(p2);
      if !ok {
        return;
      }
      ram[p2] := ram[p2][page.i2 := Leaf(p, flags)];
    }

    method VirtUnmapPage(p4: nat, virt: u64) returns (ok: bool)
      requires Ready() && p4 < TABLES
      modifies this, ram, pmm.pmm
      ensures Ready()
      ensures match MapPage(Config(), p4, old(State()), 0, virt, 0)
              case Halt => !ok
              case Ok(st1) => ok && State() == st1
    {
      ok := VirtMapPage(p4, 0, virt, 0);
    }
  }

  lemma {:induction false} OneFrame(reset: bool, words: seq<Word>, mmEnd: nat)
    requires mmEnd <= |words|
    ensures FramesFor(FRAME) == 1
    ensures var s := Search(reset, words, mmEnd, 1);
            s.Some? ==> s.value < 64 * |words| && (s.value * FRAME) / FRAME == s.value
  {
    SearchIsFirstFit(reset, words, mmEnd, 1);
  }
}
