/** The processor's walk through the tables, and the window the kernel reaches them through. */
module PageWalk {
  import opened Words
  import opened PageEntry

  /** A 4 KiB table of 512 words. */
  type Table = t: seq<u64> | |t| == 512 witness seq(512, _ => 0)

  datatype Mapping = Unmapped | Page2M(frame: int, low: int) | Page1G(entry: u64) | Table4K(entry: u64)

  function Decode(e: u64): Mapping {
    if !IsPresent(e) then Unmapped
    else if IsLarge(e) then Page2M(LeafFrame(e), e % 0x20_0000)
    else Table4K(e)
  }

  /** The walk from `p4` for a page (section 4.5 of Intel SDM Volume 3A), within the direct map. */
  function Translate(ram: seq<Table>, p4: nat, k: Page): Mapping
    requires |ram| == TABLES && p4 < TABLES && InTables(k)
  {
    var e4 := ram[p4][k.i4];
    if !IsPresent(e4) || WalkedTable(e4) >= TABLES then Unmapped
    else
      var e3 := ram[WalkedTable(e4)][k.i3];
      if !IsPresent(e3) then Unmapped
      else if IsLarge(e3) then Page1G(e3)
      else if WalkedTable(e3) >= TABLES then Unmapped
      else Decode(ram[WalkedTable(e3)][k.i2])
  }

  /** The page of the kernel's window that table `n` is read and written through. */
  function WindowPage(n: nat): (k: Page)
    ensures n < TABLES ==> InTables(k)
  {
    Page(511, 510, n / 512)
  }

  lemma {:induction false} WindowPageIs(n: nat)
    requires n < TABLES
    ensures PageOf(TableAddr(n)) == WindowPage(n)
  {
    hide PageOf;
    DirectMapPage(TABLE_SIZE * n);
  }

  /** The mapping is the 2 MiB page of frame `f`. */
  predicate Shows(t: Mapping, f: nat) {
    t.Page2M? && t.frame == 0x20_0000 * f
  }

  /** With `root` in CR3 the window leads to table `n` itself. */
  predicate Reached(ram: seq<Table>, root: nat, n: nat)
    requires |ram| == TABLES && root < TABLES && n < TABLES
  {
    Shows(Translate(ram, root, WindowPage(n)), n / 512)
  }
}
