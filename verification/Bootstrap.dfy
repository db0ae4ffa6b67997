// The direct-map window of the kernel's first page map: 2048 huge entries of
// 2 MiB each, from hhdm upwards.

module Bootstrap {
  import opened Machine
  import opened PageTable
  import opened TableEdits

  const WINDOW: nat := 2048

  function WindowAddr(hhdm: nat, j: nat): nat {
    hhdm + 0x20_0000 * j
  }

  // phys_addr | PRESENT | WRITE | HUGE
  function WindowEntry(j: nat): nat {
    0x20_0000 * j + 0x83
  }

  // For the kernel alone: it may read, write and execute, and user mode may nothing.
  const KERNEL := Access(true, false, true)

  // The two links on the way to virt and the entry of its page directory are the kernel's
  // alone, and no bits are set in them besides: present and writable, and huge in the last.
  ghost predicate KernelOnly(m: Mem, root: nat, virt: nat) {
    forall d :: 0 <= d < 3 ==>
      match HwWalk(m, root, virt, d)
      case Table(f) =>
        InMem(m, f) &&
        var e := Entry(m, f, Index(virt, d));
        EntryRights(e) == KERNEL && if d < 2 then e % 0x1000 == 3 else e % 0x20_0000 == 0x83
      case _ => false
  }

  // So are all present entries of the kernel's upper two levels.
  ghost predicate Guarded(m: Mem, tab: Tabs, kroot: nat) {
    forall f, i :: f in tab && tab[f].root == kroot && |tab[f].path| < 2 && InMem(m, f) && 0 <= i < 512 ==>
      (Present(Entry(m, f, i)) ==> EntryRights(Entry(m, f, i)) == KERNEL && Entry(m, f, i) % 0x1000 == 3)
  }

  // The page directory of window page j exists and its entry is in place.
  predicate HasWindow(m: Mem, kroot: nat, hhdm: nat, j: nat) {
    var v := WindowAddr(hhdm, j);
    match HwWalk(m, kroot, v, 2)
    case Table(f) => InMem(m, f) && Entry(m, f, Index(v, 2)) == WindowEntry(j)
    case _ => false
  }

  predicate Unmapped(m: Mem, kroot: nat, hhdm: nat, j: nat) {
    HwWalk(m, kroot, WindowAddr(hhdm, j), 3) == Fault
  }

  lemma WindowBits(j: nat, virt: nat)
    requires j < WINDOW
    ensures WindowEntry(j) < TWO64
    ensures Present(WindowEntry(j)) && Huge(WindowEntry(j))
    ensures HwDecode(WindowEntry(j), 2, virt) == Phys(0x20_0000 * j + virt % 0x20_0000)
    ensures EntryRights(WindowEntry(j)) == KERNEL && WindowEntry(j) % 0x20_0000 == 0x83
  {
    var e := WindowEntry(j);
    Quotient(0x10_0000 * j + 0x41, 2, 0x8_0000 * j + 0x20, 1);
    Quotient(e, 4, 0x8_0000 * j + 0x20, 3);
    Quotient(0x8_0000 * j + 0x20, 2, 0x4_0000 * j + 0x10, 0);
    Quotient(e, 2, 0x10_0000 * j + 0x41, 1);
    Quotient(e, 128, 0x4000 * j + 1, 3);
    Quotient(0x4000 * j + 1, 2, 0x2000 * j, 1);
    Quotient(e, 0x20_0000, j, 0x83);
  }

  lemma SameWindow(v: nat, w: nat)
    requires v / 0x20_0000 == w / 0x20_0000
    ensures Path(v, 3) == Path(w, 3) && Path(v, 2) == Path(w, 2) && Index(v, 2) == Index(w, 2)
  {
    var q := v / 0x20_0000;
    Quotient(v, 0x4000_0000, q / 512, q % 512 * 0x20_0000 + v % 0x20_0000);
    Quotient(w, 0x4000_0000, q / 512, q % 512 * 0x20_0000 + w % 0x20_0000);
    Quotient(v, 0x80_0000_0000, q / 0x4_0000, q % 0x4_0000 * 0x20_0000 + v % 0x20_0000);
    Quotient(w, 0x80_0000_0000, q / 0x4_0000, q % 0x4_0000 * 0x20_0000 + w % 0x20_0000);
    PathUnfolds(v);
    PathUnfolds(w);
  }

  lemma PathUnfolds(v: nat)
    ensures Path(v, 1) == [Index(v, 0)]
    ensures Path(v, 2) == [Index(v, 0), Index(v, 1)]
    ensures Path(v, 3) == [Index(v, 0), Index(v, 1), Index(v, 2)]
  {
    hide Index;
    assert Path(v, 0) == [];
  }

  // A window page in place translates its 2 MiB to themselves, hhdm above.
  lemma WindowTranslates(m: Mem, kroot: nat, hhdm: nat, x: nat)
    requires hhdm % 0x20_0000 == 0 && x < 0x1_0000_0000
    requires HasWindow(m, kroot, hhdm, x / 0x20_0000)
    ensures HwWalk(m, kroot, hhdm + x, 3) == Phys(x)
    ensures HwTranslate(m, kroot, hhdm + x) == Some(Mapping(x, WalkRights(m, kroot, hhdm + x, 4)))
  {
    hide Index, Entry, HwDecode, WindowEntry, WalkRights, EntryRights, Path, WindowAddr;
    var j := x / 0x20_0000;
    var v, w := WindowAddr(hhdm, j), hhdm + x;
    WindowSlot(hhdm, x);
    WalkByPath(m, kroot, v, w, 2);
    WindowBits(j, w);
    assert HwWalk(m, kroot, w, 3) == Phys(x);
  }

  // And with guarded tables above it, for the kernel alone.
  lemma WindowForKernel(m: Mem, tab: Tabs, kroot: nat, hhdm: nat, x: nat)
    requires Shape(m, tab, kroot) && IsRoot(tab, kroot) && Guarded(m, tab, kroot)
    requires hhdm % 0x20_0000 == 0 && x < 0x1_0000_0000
    requires HasWindow(m, kroot, hhdm, x / 0x20_0000)
    ensures KernelOnly(m, kroot, hhdm + x)
    ensures HwTranslate(m, kroot, hhdm + x) == Some(Mapping(x, KERNEL))
  {
    hide Index, Entry, HwWalk, Shape, EntryRights, HasWindow, WalkRights, WindowEntry, HwTranslate;
    var w := hhdm + x;
    WindowTranslates(m, kroot, hhdm, x);
    WindowAbove(m, kroot, hhdm, x);
    GuardedWalk(m, tab, kroot, w, 0);
    GuardedWalk(m, tab, kroot, w, 1);
    WindowBits(x / 0x20_0000, w);
    RightsUnfold(m, kroot, w);
  }

  // The directory entry that x is reached through, and the tables above it.
  lemma WindowAbove(m: Mem, kroot: nat, hhdm: nat, x: nat)
    requires hhdm % 0x20_0000 == 0 && x < 0x1_0000_0000
    requires HasWindow(m, kroot, hhdm, x / 0x20_0000)
    ensures var w, w2 := hhdm + x, HwWalk(m, kroot, hhdm + x, 2);
            && HwWalk(m, kroot, w, 0).Table? && HwWalk(m, kroot, w, 1).Table? && w2.Table? && InMem(m, w2.frame)
            && Entry(m, w2.frame, Index(w, 2)) == WindowEntry(x / 0x20_0000)
            && Present(Entry(m, w2.frame, Index(w, 2)))
  {
    hide Index, Entry, HwDecode, WindowEntry, EntryRights, Path, WindowAddr;
    var j := x / 0x20_0000;
    var v, w := WindowAddr(hhdm, j), hhdm + x;
    WindowSlot(hhdm, x);
    WalkByPath(m, kroot, v, w, 2);
    WindowBits(j, w);
    TableOneUp(m, kroot, w);
  }

  // An address of window page j has the indices of its first.
  lemma WindowSlot(hhdm: nat, x: nat)
    requires hhdm % 0x20_0000 == 0
    ensures var v, w := WindowAddr(hhdm, x / 0x20_0000), hhdm + x;
            Path(v, 3) == Path(w, 3) && Path(v, 2) == Path(w, 2) && Index(v, 2) == Index(w, 2)
    ensures (hhdm + x) % 0x20_0000 == x % 0x20_0000
  {
    hide Index, Path;
    var j := x / 0x20_0000;
    Quotient(WindowAddr(hhdm, j), 0x20_0000, hhdm / 0x20_0000 + j, 0);
    Quotient(hhdm + x, 0x20_0000, hhdm / 0x20_0000 + j, x % 0x20_0000);
    SameWindow(WindowAddr(hhdm, j), hhdm + x);
  }

  lemma GuardedWalk(m: Mem, tab: Tabs, kroot: nat, virt: nat, d: nat)
    requires Shape(m, tab, kroot) && IsRoot(tab, kroot) && Guarded(m, tab, kroot) && d < 2
    requires HwWalk(m, kroot, virt, d).Table? && HwWalk(m, kroot, virt, d + 1).Table?
    ensures var f := HwWalk(m, kroot, virt, d).frame;
            && InMem(m, f) && Present(Entry(m, f, Index(virt, d)))
            && EntryRights(Entry(m, f, Index(virt, d))) == KERNEL && Entry(m, f, Index(virt, d)) % 0x1000 == 3
  {
    hide Index, Entry, Shape, EntryRights, Path;
    WalkMeets(m, tab, kroot, kroot, virt, d);
  }

  lemma RightsUnfold(m: Mem, root: nat, virt: nat)
    requires HwWalk(m, root, virt, 3).Phys?
    ensures var s0 := StepRights(m, HwWalk(m, root, virt, 0), 0, virt);
            var s1 := StepRights(m, HwWalk(m, root, virt, 1), 1, virt);
            WalkRights(m, root, virt, 4) == Both(Both(s0, s1), StepRights(m, HwWalk(m, root, virt, 2), 2, virt))
  {
    hide HwWalk, Index, Entry, EntryRights;
    assert WalkRights(m, root, virt, 0) == ANY;
    assert WalkRights(m, root, virt, 1) == StepRights(m, HwWalk(m, root, virt, 0), 0, virt);
    assert WalkRights(m, root, virt, 3) == WalkRights(m, root, virt, 4);
  }

  // ---------- what keeps the tables guarded ----------

  lemma GuardedFirst(m: Mem, tab: Tabs, c: nat)
    requires Shape(m, tab, 0) && c !in tab && ZeroTable(m, c)
    ensures Guarded(m, tab[c := Tab(c, [], c)], c)
  {
    hide Entry, EntryRights, Shape;
    forall f | f in tab
      ensures tab[f].root != c
    {
      RootIsTable(m, tab, 0, f);
    }
  }

  lemma GuardedSame(m: Mem, m1: Mem, tab: Tabs, kroot: nat)
    requires SameTables(m, m1, tab) && Guarded(m, tab, kroot)
    ensures Guarded(m1, tab, kroot)
  {
    hide Entry, EntryRights, Present;
  }

  // A link of vmm_init is writable and not for user mode.
  lemma GuardedHang(m: Mem, tab: Tabs, kroot: nat, f: nat, i: nat, c: nat, e: Word)
    requires Guarded(m, tab, kroot) && e == 0x1000 * c + 3 && CanHang(m, tab, kroot, f, i, c, e)
    ensures Guarded(Put(m, f, i, e), HungTabs(tab, f, i, c), kroot)
  {
    hide Entry, EntryRights, Present, Shape, Put;
    HangFacts(m, tab, kroot, f, i, c, e);
    LinkRights(e, c);
    Quotient(e, 0x1000, c, 3);
    NothingPresent();
    var m', tab' := Put(m, f, i, e), HungTabs(tab, f, i, c);
    forall g, j | g in tab' && tab'[g].root == kroot && |tab'[g].path| < 2 && InMem(m', g) && 0 <= j < 512
        && Present(Entry(m', g, j))
      ensures EntryRights(Entry(m', g, j)) == KERNEL && Entry(m', g, j) % 0x1000 == 3
    {
      EntryAfterPut(m, f, i, e, g, j);
    }
  }

  lemma NothingPresent()
    ensures !Present(0)
  {
  }

  lemma GuardedWrite(m: Mem, tab: Tabs, kroot: nat, f: nat, i: nat, e: Word)
    requires Guarded(m, tab, kroot) && f in tab && |tab[f].path| >= 2 && InMem(m, f) && i < 512
    ensures Guarded(Put(m, f, i, e), tab, kroot)
  {
    hide Entry, EntryRights, Present, Put;
    var m' := Put(m, f, i, e);
    forall g, j | g in tab && tab[g].root == kroot && |tab[g].path| < 2 && InMem(m', g) && 0 <= j < 512
        && Present(Entry(m', g, j))
      ensures EntryRights(Entry(m', g, j)) == KERNEL && Entry(m', g, j) % 0x1000 == 3
    {
      EntryAfterPut(m, f, i, e, g, j);
    }
  }

  lemma WindowDistinct(hhdm: nat, i: nat, j: nat)
    requires hhdm % 0x20_0000 == 0 && i < WINDOW && j < WINDOW
    requires Path(WindowAddr(hhdm, i), 3) == Path(WindowAddr(hhdm, j), 3)
    ensures i == j
  {
    hide Path, Index, SamePage;
    var v, w := WindowAddr(hhdm, i), WindowAddr(hhdm, j);
    WindowPage(hhdm, i, j);
    WindowPage(hhdm, j, i);
    SamePath(v, w);
  }

  lemma WindowPage(hhdm: nat, i: nat, j: nat)
    requires hhdm % 0x20_0000 == 0 && i < WINDOW && j < WINDOW
    ensures Index(WindowAddr(hhdm, i), 3) == 0
    ensures SamePage(WindowAddr(hhdm, i), WindowAddr(hhdm, j)) ==> i == j
  {
    var b := hhdm / 0x20_0000;
    var p, q := 512 * (b + i), 512 * (b + j);
    Quotient(WindowAddr(hhdm, i), 0x1000, p, 0);
    Quotient(WindowAddr(hhdm, j), 0x1000, q, 0);
    Quotient(p, 512, b + i, 0);
    Scale(0x10_0000_0000, p / 0x10_0000_0000 - q / 0x10_0000_0000);
  }

  // Keeping present entries keeps the window pages in place.
  lemma WindowKept(m: Mem, m': Mem, tab: Tabs, kroot: nat, hhdm: nat, j: nat)
    requires Shape(m, tab, kroot) && IsRoot(tab, kroot) && EntriesKept(m, m', tab)
    requires j < WINDOW && HasWindow(m, kroot, hhdm, j)
    ensures HasWindow(m', kroot, hhdm, j)
  {
    hide Index, Entry, Shape, HwWalk, WindowEntry, Present, EntryRights;
    var v := WindowAddr(hhdm, j);
    WalkMeets(m, tab, kroot, kroot, v, 2);
    KeptWalk(m, m', tab, kroot, kroot, v, 2);
    WindowBits(j, v);
  }

  // Writing window page i puts it in place and disturbs no other.
  lemma WindowWritten(m: Mem, tab: Tabs, kroot: nat, hhdm: nat, f: nat, i: nat, j: nat)
    requires hhdm % 0x20_0000 == 0 && IsRoot(tab, kroot) && i < WINDOW && j < WINDOW
    requires WindowEntry(i) < TWO64
    requires CanWrite(m, tab, kroot, f, Index(WindowAddr(hhdm, i), 2), WindowEntry(i)) && InMem(m, f)
    requires HwWalk(m, kroot, WindowAddr(hhdm, i), 2) == Table(f)
    ensures var m' := Put(m, f, Index(WindowAddr(hhdm, i), 2), WindowEntry(i));
            && HasWindow(m', kroot, hhdm, i)
            && (HasWindow(m, kroot, hhdm, j) ==> HasWindow(m', kroot, hhdm, j))
            && (j != i && Unmapped(m, kroot, hhdm, j) ==> Unmapped(m', kroot, hhdm, j))
  {
    hide Index, Entry, Put, CanWrite, HwWalk, WindowEntry, HwDecode, EntryRights;
    var v, w, e := WindowAddr(hhdm, i), WindowAddr(hhdm, j), WindowEntry(i);
    WriteFacts(m, tab, kroot, f, Index(v, 2), e);
    WalkMeets(m, tab, kroot, kroot, v, 2);
    WriteWalk(m, tab, kroot, f, Index(v, 2), e, kroot, v, 2);
    EntryAfterPut(m, f, Index(v, 2), e, f, Index(v, 2));
    WalkMeets(m, tab, kroot, kroot, w, 2);
    WriteWalk(m, tab, kroot, f, Index(v, 2), e, kroot, w, 2);
    WriteWalk(m, tab, kroot, f, Index(v, 2), e, kroot, w, 3);
    if j != i {
      if HwWalk(m, kroot, w, 2) == Table(f) && Index(w, 2) == Index(v, 2) {
        PathUnfolds(v);
        PathUnfolds(w);
        assert Path(v, 3) == Path(w, 3);
        WindowDistinct(hhdm, i, j);
        assert false;
      }
      if HwWalk(m, kroot, w, 2).Table? {
        var g := HwWalk(m, kroot, w, 2).frame;
        if InMem(m, g) {
          EntryAfterPut(m, f, Index(v, 2), e, g, Index(w, 2));
        }
      }
    }
  }

  // ---------- how many frames the window takes ----------

  // Root, page-directory-pointer tables and page directories made before page i.
  function Spent(hhdm: nat, i: nat): nat {
    var b := hhdm / 0x20_0000;
    if i == 0 then 1
    else 3 + ((b + i - 1) / 512 - b / 512) + ((b + i - 1) / 0x4_0000 - b / 0x4_0000)
  }

  // Eight frames always suffice for the whole window.
  lemma SpentBound(hhdm: nat, i: nat)
    requires i <= WINDOW
    ensures Spent(hhdm, i) <= Spent(hhdm, WINDOW) <= 8
  {
    var b := hhdm / 0x20_0000;
    if i > 0 {
      FloorGrows(b, i - 1, 2047);
    }
    FloorGrows(b, 0, 2047);
  }

  lemma FloorGrows(b: nat, k: nat, n: nat)
    requires k <= n <= 2047
    ensures (b + k) / 512 <= (b + n) / 512 <= b / 512 + 4
    ensures (b + k) / 0x4_0000 <= (b + n) / 0x4_0000 <= b / 0x4_0000 + 1
  {
  }

  // After page i-1 the walk for page i lacks what its crossings call for, and its page table.
  lemma WindowMissing(m: Mem, kroot: nat, hhdm: nat, i: nat)
    requires hhdm % 0x20_0000 == 0 && 1 <= i < WINDOW && HasWindow(m, kroot, hhdm, i - 1)
    ensures var v := WindowAddr(hhdm, i);
            && (HwWalk(m, kroot, v, 1).Table? || Spent(hhdm, i + 1) >= Spent(hhdm, i) + 2)
            && ((HwWalk(m, kroot, v, 1).Table? && HwWalk(m, kroot, v, 2).Table?)
                || Spent(hhdm, i + 1) >= Spent(hhdm, i) + 1)
  {
    hide Index, Entry, HwWalk, Path, WindowEntry;
    var b := hhdm / 0x20_0000;
    var v, w := WindowAddr(hhdm, i), WindowAddr(hhdm, i - 1);
    TableOneUp(m, kroot, w);
    Crossing(hhdm, i);
    if (b + i) / 0x4_0000 == (b + i - 1) / 0x4_0000 {
      WalkByPath(m, kroot, w, v, 1);
    }
    if (b + i) / 512 == (b + i - 1) / 512 {
      WalkByPath(m, kroot, w, v, 2);
      TableOneUp(m, kroot, v);
    }
  }

  lemma TableOneUp(m: Mem, root: nat, v: nat)
    ensures HwWalk(m, root, v, 2).Table? ==> HwWalk(m, root, v, 1).Table?
  {
    hide Index, Entry, HwDecode;
  }

  lemma Crossing(hhdm: nat, i: nat)
    requires hhdm % 0x20_0000 == 0 && 1 <= i
    ensures var b := hhdm / 0x20_0000;
            && ((b + i) / 0x4_0000 == (b + i - 1) / 0x4_0000 ==>
                  Path(WindowAddr(hhdm, i), 1) == Path(WindowAddr(hhdm, i - 1), 1))
            && ((b + i) / 512 == (b + i - 1) / 512 ==>
                  Path(WindowAddr(hhdm, i), 2) == Path(WindowAddr(hhdm, i - 1), 2))
  {
    var b := hhdm / 0x20_0000;
    var v, w := WindowAddr(hhdm, i), WindowAddr(hhdm, i - 1);
    Quotient(v, 0x4000_0000, (b + i) / 512, (b + i) % 512 * 0x20_0000);
    Quotient(w, 0x4000_0000, (b + i - 1) / 512, (b + i - 1) % 512 * 0x20_0000);
    Quotient(v, 0x80_0000_0000, (b + i) / 0x4_0000, (b + i) % 0x4_0000 * 0x20_0000);
    Quotient(w, 0x80_0000_0000, (b + i - 1) / 0x4_0000, (b + i - 1) % 0x4_0000 * 0x20_0000);
    PathUnfolds(v);
    PathUnfolds(w);
    if (b + i) / 512 == (b + i - 1) / 512 {
      assert (b + i) / 0x4_0000 == (b + i - 1) / 0x4_0000;
    }
  }
}
