// The page-table builder of the kernel: tables live in physical memory, are
// reached through the direct map at hhdm, and come from the frame allocator.

module Vmm {
  import opened Machine
  import opened PageTable
  import opened TableEdits
  import opened Bootstrap
  import opened Spaces
  import P = Pmm

  class AddressSpaces {
    const pmm: P.Allocator
    const mem: array<Word>
    const hhdm: nat
    var kernelPagemap: nat
    ghost var tab: Tabs

    ghost predicate Valid()
      reads this, pmm, pmm.bitmap, mem
    {
      && pmm.Valid()
      && (mem as object) != (pmm.bitmap as object?)
      && mem.Length == 512 * pmm.total && DirectMapOk()
      && (kernelPagemap != 0 ==> kernelPagemap > hhdm && kernelPagemap % 0x1000 == 0 && IsRoot(tab, KernelRoot()))
      && tab.Keys !! pmm.Free()
      && Shape(M(), tab, KernelRoot())
    }

    // Memory is whole frames, all of them inside the direct map.
    ghost predicate DirectMapOk() {
      && mem.Length % 512 == 0 && mem.Length <= 512 * 0x100_0000_0000
      && hhdm % 0x1000 == 0 && hhdm + 8 * mem.Length <= TWO64
    }

    ghost function M(): Mem
      requires mem.Length % 512 == 0 && mem.Length <= 512 * 0x100_0000_0000
      reads mem
    {
      mem[..]
    }

    // The frame of the kernel's root table, 0 while there is none.
    ghost function KernelRoot(): nat
      reads this`kernelPagemap
    {
      if kernelPagemap > hhdm then (kernelPagemap - hhdm) / 0x1000 else 0
    }

    constructor (pmm: P.Allocator, mem: array<Word>, hhdm: nat)
      requires pmm.Valid() && (mem as object) != (pmm.bitmap as object?)
      requires mem.Length == 512 * pmm.total && pmm.total <= 0x100_0000_0000
      requires hhdm % 0x1000 == 0 && hhdm + 0x1000 * pmm.total <= TWO64
      ensures Valid() && this.pmm == pmm && this.mem == mem && this.hhdm == hhdm
      ensures kernelPagemap == 0 && tab == map[]
    {
      this.pmm, this.mem, this.hhdm := pmm, mem, hhdm;
      kernelPagemap, tab := 0, map[];
    }

    // ---------- pointers ----------

    function PhysToVirt(phys: nat): nat {
      (phys + hhdm) % 0x1_0000_0000_0000_0000
    }

    function VirtToPhysPtr(virt: nat): nat {
      (virt - hhdm) % 0x1_0000_0000_0000_0000
    }

    lemma DirectMap(f: nat, i: nat)
      requires hhdm % 0x1000 == 0 && 0x1000 * f + hhdm + 0x1000 <= TWO64 && i < 512
      ensures PhysToVirt(0x1000 * f) == 0x1000 * f + hhdm
      ensures VirtToPhysPtr(0x1000 * f + hhdm) == 0x1000 * f
      ensures (0x1000 * f + hhdm + 8 * i - hhdm) / 8 == 512 * f + i
    {
    }

    // Word i of the table at a virtual address.
    method Load(table: nat, i: nat, ghost f: nat) returns (e: Word)
      requires DirectMapOk() && i < 512 && InMem(M(), f) && table == 0x1000 * f + hhdm
      ensures e == Entry(M(), f, i)
    {
      DirectMap(f, i);
      e := mem[(table + 8 * i - hhdm) / 8];
    }

    method Store(table: nat, i: nat, e: Word, ghost f: nat)
      requires DirectMapOk() && i < 512 && InMem(M(), f) && table == 0x1000 * f + hhdm
      modifies mem
      ensures M() == Put(old(M()), f, i, e)
    {
      DirectMap(f, i);
      mem[(table + 8 * i - hhdm) / 8] := e;
    }

    // ---------- alloc_table ----------

    method AllocTable() returns (phys: nat)
      requires Valid()
      modifies mem, pmm`freePages, pmm`log, pmm.bitmap
      ensures Valid()
      ensures phys == 0 <==> old(pmm.Available()) == {}
      ensures phys == 0 ==> M() == old(M()) && pmm.Free() == old(pmm.Free())
      ensures phys != 0 ==>
                var c := phys / 0x1000;
                && phys == 0x1000 * c && c in old(pmm.Available()) && c !in tab && c >= 1
                && Zeroed(old(M()), M(), c) && InMem(M(), c)
                && pmm.Free() == old(pmm.Free()) - {c} && pmm.Available() == old(pmm.Available()) - {c}
      ensures SameTables(old(M()), M(), tab)
    {
      hide Entry, Put, Shape, ZeroTable, P.Allocator.Valid, P.Allocator.Free, SameTables, Zeroed;
      phys := pmm.AllocPage();
      if phys == 0 {
        NothingZeroed(M(), tab);
        return;
      }
      ghost var c := phys / 0x1000;
      ZeroFrame(phys + hhdm, c);
      ZeroedTables(old(M()), M(), tab, KernelRoot(), c);
    }

    method ZeroFrame(table: nat, ghost c: nat)
      requires DirectMapOk() && InMem(M(), c) && table == 0x1000 * c + hhdm
      modifies mem
      ensures Zeroed(old(M()), M(), c)
    {
      for i := 0 to 512
        invariant forall j :: 0 <= j < i ==> Entry(M(), c, j) == 0
        invariant forall f, j :: InMem(M(), f) && 0 <= j < 512 && f != c ==> Entry(M(), f, j) == Entry(old(M()), f, j)
      {
        ghost var before := M();
        Store(table, i, 0, c);
        forall f, j | InMem(M(), f) && 0 <= j < 512
          ensures Entry(M(), f, j) == if f == c && j == i then 0 else Entry(before, f, j)
        {
          EntryAfterPut(before, c, i, 0, f, j);
        }
      }
    }

    // phys_to_virt of a table frame.
    method TablePtr(phys: nat, ghost f: nat) returns (ptr: nat)
      requires phys == 0x1000 * f && f >= 1 && hhdm % 0x1000 == 0 && 0x1000 * f + hhdm + 0x1000 <= TWO64
      ensures ptr == 0x1000 * f + hhdm && ptr != 0
    {
      DirectMap(f, 0);
      ptr := PhysToVirt(phys);
    }

    // ---------- get_or_create ----------

    // Entry i of table f points at frame c with these low bits.
    ghost predicate Linked(f: nat, i: nat, c: nat, low: nat)
      requires DirectMapOk()
      reads mem
    {
      i < 512 && InMem(M(), f) && Entry(M(), f, i) == 0x1000 * c + low
    }

    // The table behind slot i of table f on the way to virt, made if absent; 0 when no frame is left.
    method GetOrCreate(table: nat, i: nat, flags: Word, ghost f: nat, ghost root: nat, ghost virt: nat)
      returns (next: nat, ghost c: nat)
      requires Valid() && IsRoot(tab, root) && f in tab && |tab[f].path| < 3
      requires HwWalk(M(), root, virt, |tab[f].path|) == Table(f) && !HwWalk(M(), root, virt, 3).Phys?
      requires i == Index(virt, |tab[f].path|) && table == 0x1000 * f + hhdm
      modifies this`tab, mem, pmm`freePages, pmm`log, pmm.bitmap
      ensures Valid()
      ensures Grown(old(M()), old(tab), old(pmm.Free()), M(), tab, pmm.Free(), KernelRoot(), root, virt)
      ensures !HwWalk(M(), root, virt, 3).Phys? && SameRights(old(M()), M(), old(tab))
      ensures next == 0 ==> pmm.Available() == {} && Missing(M(), root, virt) > 0
      ensures next == 0 ==> M() == old(M()) && tab == old(tab) && pmm.Free() == old(pmm.Free())
      ensures next != 0 ==>
                && next == 0x1000 * c + hhdm && c in tab && |tab[c].path| == old(|tab[f].path|) + 1
                && HwWalk(M(), root, virt, old(|tab[f].path|) + 1) == Table(c)
                && |pmm.Available()| - Missing(M(), root, virt) == old(|pmm.Available()| - Missing(M(), root, virt))
      ensures next != 0 && !old(Present(Entry(M(), f, i))) ==> Linked(f, i, c, 7)
      ensures old(Present(Entry(M(), f, i))) ==> M() == old(M()) && tab == old(tab)
    {
      var e := Load(table, i, f);
      if Present(e) {
        NextTable(M(), tab, KernelRoot(), root, virt, f);
        SameTablesTranslate(M(), M(), tab, KernelRoot());
        c := FrameOf(e);
        next := TablePtr(e - e % 0x1000, c);
      } else {
        next, c := CreateTable(table, i, 7, f, root, virt);
      }
    }

    method CreateTable(table: nat, i: nat, low: nat, ghost f: nat, ghost root: nat, ghost virt: nat)
      returns (next: nat, ghost c: nat)
      requires low == 7 || low == 3
      requires Valid() && IsRoot(tab, root) && f in tab && |tab[f].path| < 3
      requires HwWalk(M(), root, virt, |tab[f].path|) == Table(f)
      requires i == Index(virt, |tab[f].path|) && table == 0x1000 * f + hhdm && !Present(Entry(M(), f, i))
      modifies this`tab, mem, pmm`freePages, pmm`log, pmm.bitmap
      ensures Valid()
      ensures Grown(old(M()), old(tab), old(pmm.Free()), M(), tab, pmm.Free(), KernelRoot(), root, virt)
      ensures !HwWalk(M(), root, virt, 3).Phys?
      ensures next == 0 ==> pmm.Available() == {} && Missing(M(), root, virt) >= 3 - old(|tab[f].path|)
      ensures old(|tab[f].path|) < 2 ==> StillFaults(old(M()), M(), old(tab))
      ensures low == 7 ==> SameRights(old(M()), M(), old(tab))
      ensures low == 3 && Guarded(old(M()), old(tab), KernelRoot()) ==> Guarded(M(), tab, KernelRoot())
      ensures next == 0 ==> M() == old(M()) && tab == old(tab) && pmm.Free() == old(pmm.Free())
      ensures next != 0 ==>
                && next == 0x1000 * c + hhdm && c in tab && |tab[c].path| == old(|tab[f].path|) + 1
                && HwWalk(M(), root, virt, old(|tab[f].path|) + 1) == Table(c)
                && |pmm.Available()| - Missing(M(), root, virt) == old(|pmm.Available()| - Missing(M(), root, virt))
                && Linked(f, i, c, low)
    {
      hide Entry, Put, HwWalk, Shape, Index, Missing, Zeroed, Grown, StillFaults, P.Allocator.Valid;
      hide P.Allocator.Free, Present, SameRights, Guarded;
      ghost var kroot := KernelRoot();
      TableInMem(M(), tab, kroot, f);
      AbsentFaults(M(), root, virt, |tab[f].path|, f);
      FaultMissing(M(), root, virt, |tab[f].path| + 1);
      var phys := AllocTable();
      c := phys / 0x1000;
      if phys == 0 {
        SameTablesTranslate(M(), M(), tab, kroot);
        GrownNot(M(), tab, pmm.Free(), kroot, root, virt);
        return 0, c;
      }
      ghost var m1 := M();
      Store(table, i, phys + low, f);
      Created(old(M()), tab, old(pmm.Free()), m1, kroot, f, c, phys + low, root, virt);
      EntryAfterPut(m1, f, i, phys + low, f, i);
      tab := HungTabs(tab, f, i, c);
      next := TablePtr(phys, c);
    }

    // Overwrites an entry that leads to no table with another such.
    method WriteEntry(table: nat, i: nat, e: Word, ghost f: nat)
      requires Valid() && CanWrite(M(), tab, KernelRoot(), f, i, e) && InMem(M(), f) && table == 0x1000 * f + hhdm
      modifies mem
      ensures Valid() && M() == Put(old(M()), f, i, e)
    {
      hide Entry, Put, Shape, CanWrite, P.Allocator.Valid, P.Allocator.Free;
      WriteFacts(M(), tab, KernelRoot(), f, i, e);
      WriteShape(M(), tab, KernelRoot(), f, i, e);
      Store(table, i, e, f);
    }

    // ---------- vmm_map ----------

    // pm is the physical address of a root table. Fails exactly when the missing
    // tables outnumber the frames left, and then changes no translation.
    method Map(pm: nat, virt: Word, phys: Word, flags: Word) returns (r: int)
      requires Valid()
      requires pm != 0 ==>
                 pm % 0x1000 == 0 && IsRoot(tab, pm / 0x1000) && !HwWalk(M(), pm / 0x1000, virt, 3).Phys?
      modifies this`tab, mem, pmm`freePages, pmm`log, pmm.bitmap
      ensures Valid()
      ensures r == 0 || r == -1
      ensures pm == 0 ==> r == -1 && M() == old(M()) && tab == old(tab) && pmm.Free() == old(pmm.Free())
      ensures pm != 0 ==>
                var root := pm / 0x1000;
                && (r == 0 <==> Missing(old(M()), root, virt) <= |old(pmm.Available())|)
                && Extends(old(tab), tab) && AddedUnder(old(tab), tab, KernelRoot(), root, virt)
                && Conserved(old(pmm.Free()), old(tab), pmm.Free(), tab)
                && OutsideUnchanged(old(M()), M(), tab) && NoNewHuge(old(M()), M(), old(tab))
                && SameRights(old(M()), M(), old(tab))
                && (r == 0 ==>
                      && Remapped(old(M()), M(), old(tab), root, virt, Present(flags), phys / 0x1000 % 0x100_0000_0000,
                                  Asked(phys, flags))
                      && SoftLeaf(M(), root, virt).Some?
                      && AsAsked(SoftLeaf(M(), root, virt).value, phys, flags))
                && (r == -1 ==> SameTranslations(old(M()), M(), old(tab)) && pmm.Available() == {})
    {
      hide Entry, Put, HwWalk, Shape, Index, Missing, HwTranslate, Grown, Remapped, SameTranslations, LeafEntry;
      hide AddedUnder, Conserved, OutsideUnchanged, NoNewHuge, SoftLeaf, P.Allocator.Valid, P.Allocator.Free;
      hide Present, CanWrite, SameRights, AsAsked, Asked, EntryRights;
      if pm == 0 {
        return -1;
      }
      ghost var root, kroot := pm / 0x1000, KernelRoot();
      var pt, f := PageTableFor(pm, virt, flags);
      if pt == 0 {
        GrownParts(old(M()), old(tab), old(pmm.Free()), M(), tab, pmm.Free(), kroot, root, virt);
        return -1;
      }
      ghost var m1 := M();
      FrameFacts(f);
      LeafBits(phys, flags);
      LeafAsAsked(LeafEntry(phys, flags), phys, flags);
      LeafRights(LeafEntry(phys, flags), phys, flags);
      LeafWritable(m1, tab, kroot, f, Index(virt, 3), LeafEntry(phys, flags));
      WriteEntry(pt, Index(virt, 3), LeafEntry(phys, flags), f);
      Mapped(old(M()), old(tab), old(pmm.Free()), m1, tab, pmm.Free(), kroot, root, virt, f, LeafEntry(phys, flags));
      return 0;
    }

    lemma AvailableFree()
      ensures pmm.Available() <= pmm.Free()
    {
    }

    lemma KernelPtr()
      requires Valid() && kernelPagemap != 0
      ensures kernelPagemap == 0x1000 * KernelRoot() + hhdm && KernelRoot() >= 1 && IsRoot(tab, KernelRoot())
    {
      hide Shape, P.Allocator.Valid, P.Allocator.Free;
    }

    lemma RootFrame(c: nat)
      ensures kernelPagemap == 0 ==> KernelRoot() == 0
      ensures kernelPagemap == 0x1000 * c + hhdm && c >= 1 ==> KernelRoot() == c
      ensures kernelPagemap == 0x1000 * c + hhdm && hhdm % 0x1000 == 0 ==> kernelPagemap % 0x1000 == 0
    {
    }

    // What Valid says about one table.
    lemma FrameFacts(f: nat)
      requires Valid() && f in tab
      ensures DirectMapOk() && 0x1000 * f + hhdm + 0x1000 <= TWO64
      ensures f >= 1 && InMem(M(), f) && |tab[f].path| <= 3
      ensures Shape(M(), tab, KernelRoot())
      ensures IsRoot(tab, f) ==> tab[f].path == [] && forall v: nat :: HwWalk(M(), f, v, 0) == Table(f)
    {
      hide Entry, Rooted, Hangs, Child;
    }

    // The page table that holds virt's entry, its ancestors made as needed.
    method PageTableFor(pm: nat, virt: Word, flags: Word) returns (pt: nat, ghost f: nat)
      requires Valid() && pm % 0x1000 == 0 && IsRoot(tab, pm / 0x1000) && !HwWalk(M(), pm / 0x1000, virt, 3).Phys?
      modifies this`tab, mem, pmm`freePages, pmm`log, pmm.bitmap
      ensures Valid()
      ensures var root := pm / 0x1000;
              && Grown(old(M()), old(tab), old(pmm.Free()), M(), tab, pmm.Free(), KernelRoot(), root, virt)
              && SameRights(old(M()), M(), old(tab))
              && (pt == 0 ==> pmm.Available() == {} && Missing(old(M()), root, virt) > |old(pmm.Available())|)
              && (pt != 0 ==>
                    && pt == 0x1000 * f + hhdm && f in tab && |tab[f].path| == 3
                    && HwWalk(M(), root, virt, 3) == Table(f)
                    && Missing(old(M()), root, virt) <= |old(pmm.Available())|)
    {
      hide Entry, Put, HwWalk, Shape, Index, Missing, Grown, P.Allocator.Valid, P.Allocator.Free, Present, SameRights;
      ghost var root, kroot := pm / 0x1000, KernelRoot();
      FrameFacts(root);
      var pml4 := TablePtr(pm, root);
      var pdpt, f1 := GetOrCreate(pml4, Index(virt, 0), flags, root, root, virt);
      if pdpt == 0 {
        return 0, f1;
      }
      ghost var m1, tab1, free1 := M(), tab, pmm.Free();
      GrownRoot(old(M()), old(tab), old(pmm.Free()), m1, tab1, free1, kroot, root, virt);
      var pd, f2 := GetOrCreate(pdpt, Index(virt, 1), flags, f1, root, virt);
      ghost var m2, tab2, free2 := M(), tab, pmm.Free();
      GrownTwice(old(M()), old(tab), old(pmm.Free()), m1, tab1, free1, m2, tab2, free2, kroot, root, virt);
      GrownExtends(old(M()), old(tab), old(pmm.Free()), m1, tab1, free1, kroot, root, virt);
      SameRightsTwice(old(M()), m1, m2, old(tab), tab1);
      GrownRoot(old(M()), old(tab), old(pmm.Free()), m2, tab2, free2, kroot, root, virt);
      if pd == 0 {
        return 0, f2;
      }
      pt, f := GetOrCreate(pd, Index(virt, 2), flags, f2, root, virt);
      GrownTwice(old(M()), old(tab), old(pmm.Free()), m2, tab2, free2, M(), tab, pmm.Free(), kroot, root, virt);
      GrownExtends(old(M()), old(tab), old(pmm.Free()), m2, tab2, free2, kroot, root, virt);
      SameRightsTwice(old(M()), m2, M(), old(tab), tab2);
      NoneMissing(M(), root, virt);
    }

    // ---------- vmm_unmap and vmm_virt_to_phys ----------

    // One read of the walk: the table behind slot d of virt, 0 when the entry is absent.
    method Follow(table: nat, i: nat, ghost f: nat, ghost root: nat, ghost virt: nat) returns (next: nat, ghost c: nat)
      requires Valid() && IsRoot(tab, root) && f in tab && |tab[f].path| < 3 && table == 0x1000 * f + hhdm
      requires HwWalk(M(), root, virt, |tab[f].path|) == Table(f) && !HwWalk(M(), root, virt, 3).Phys?
      requires i == Index(virt, |tab[f].path|)
      ensures next == 0 ==> HwWalk(M(), root, virt, 3) == Fault
      ensures next != 0 ==>
                && next == 0x1000 * c + hhdm && c in tab && |tab[c].path| == |tab[f].path| + 1
                && HwWalk(M(), root, virt, |tab[f].path| + 1) == Table(c)
    {
      hide Entry, HwWalk, Shape, Index, P.Allocator.Valid, P.Allocator.Free, Present;
      FrameFacts(f);
      var e := Load(table, i, f);
      if !Present(e) {
        AbsentFaults(M(), root, virt, |tab[f].path|, f);
        FaultStays(M(), root, virt, |tab[f].path| + 1, 3);
        return 0, f;
      }
      NextTable(M(), tab, KernelRoot(), root, virt, f);
      c := FrameOf(e);
      FrameFacts(c);
      next := TablePtr(e - e % 0x1000, c);
    }

    // The three reads both functions start with; 0 when a table is absent.
    method FindTable(pm: nat, virt: Word) returns (pt: nat, ghost f: nat)
      requires Valid() && pm % 0x1000 == 0 && IsRoot(tab, pm / 0x1000) && !HwWalk(M(), pm / 0x1000, virt, 3).Phys?
      ensures pt == 0 ==> HwWalk(M(), pm / 0x1000, virt, 3) == Fault
      ensures pt != 0 ==>
                && pt == 0x1000 * f + hhdm && f in tab && |tab[f].path| == 3
                && HwWalk(M(), pm / 0x1000, virt, 3) == Table(f)
    {
      hide Entry, HwWalk, Shape, Index, P.Allocator.Valid, P.Allocator.Free, Present;
      ghost var root := pm / 0x1000;
      FrameFacts(root);
      var pml4 := TablePtr(pm, root);
      var pdpt, f1 := Follow(pml4, Index(virt, 0), root, root, virt);
      if pdpt == 0 {
        return 0, f1;
      }
      var pd, f2 := Follow(pdpt, Index(virt, 1), f1, root, virt);
      if pd == 0 {
        return 0, f2;
      }
      pt, f := Follow(pd, Index(virt, 2), f2, root, virt);
    }

    method Unmap(pm: nat, virt: Word)
      requires Valid()
      requires pm != 0 ==>
                 pm % 0x1000 == 0 && IsRoot(tab, pm / 0x1000) && !HwWalk(M(), pm / 0x1000, virt, 3).Phys?
      modifies mem
      ensures Valid()
      ensures pm == 0 ==> M() == old(M())
      ensures pm != 0 ==>
                && Remapped(old(M()), M(), tab, pm / 0x1000, virt, false, 0, NOTHING)
                && SameRights(old(M()), M(), tab)
                && OutsideUnchanged(old(M()), M(), tab) && NoNewHuge(old(M()), M(), tab)
    {
      hide Entry, Put, HwWalk, Shape, Index, P.Allocator.Valid, P.Allocator.Free, Present, CanWrite, Remapped;
      hide SameRights;
      if pm == 0 {
        return;
      }
      ghost var root, kroot := pm / 0x1000, KernelRoot();
      var pt, f := FindTable(pm, virt);
      if pt == 0 {
        AbsentPage(M(), tab, root, virt);
        return;
      }
      FrameFacts(f);
      LeafWritable(M(), tab, kroot, f, Index(virt, 3), 0);
      LeafEffect(M(), tab, kroot, root, virt, f, 0);
      PutOutside(M(), f, Index(virt, 3), 0, tab);
      WriteEntry(pt, Index(virt, 3), 0, f);
      NothingThere();
    }

    lemma NothingThere()
      ensures !Present(0) && HwFrame(0) == 0 && EntryRights(0) == NOTHING
    {
    }

    method Translate(pm: nat, virt: Word) returns (phys: nat)
      requires Valid()
      requires pm != 0 ==>
                 pm % 0x1000 == 0 && IsRoot(tab, pm / 0x1000) && !HwWalk(M(), pm / 0x1000, virt, 3).Phys?
      ensures pm == 0 ==> phys == 0
      ensures pm != 0 ==>
                match HwTranslate(M(), pm / 0x1000, virt)
                case None => phys == 0
                case Some(Mapping(addr, _)) =>
                  && SoftLeaf(M(), pm / 0x1000, virt).Some? && addr == phys % 0x10_0000_0000_0000
                  && (addr == phys <==> SoftLeaf(M(), pm / 0x1000, virt).value < 0x10_0000_0000_0000)
                  && phys == SoftAddress(SoftLeaf(M(), pm / 0x1000, virt).value, virt)
    {
      hide Entry, HwWalk, Shape, Index, P.Allocator.Valid, P.Allocator.Free, Present, HwTranslate;
      if pm == 0 {
        return 0;
      }
      SoftAgrees(M(), pm / 0x1000, virt);
      var pt, f := FindTable(pm, virt);
      if pt == 0 {
        return 0;
      }
      FrameFacts(f);
      var e := Load(pt, Index(virt, 3), f);
      if !Present(e) {
        return 0;
      }
      return e - e % 0x1000 + virt % 0x1000;
    }

    // ---------- vmm_map_range ----------

    // Maps pages until one fails: n of them, all of them exactly when r is 0.
    method MapRange(pm: nat, virtStart: Word, physStart: Word, size: Word, flags: Word) returns (r: int, ghost n: nat)
      requires Valid()
      requires pm != 0 ==> pm % 0x1000 == 0 && IsRoot(tab, pm / 0x1000)
      requires pm != 0 ==> forall i: nat :: i < PagesOf(size) ==>
                                 !HwWalk(M(), pm / 0x1000, PageAt(virtStart, i), 3).Phys?
      modifies this`tab, mem, pmm`freePages, pmm`log, pmm.bitmap
      ensures Valid()
      ensures r == 0 || r == -1
      ensures n <= PagesOf(size) && (r == 0 <==> n == PagesOf(size))
      ensures Extends(old(tab), tab) && Conserved(old(pmm.Free()), old(tab), pmm.Free(), tab)
      ensures n == 0 ==> SameTranslations(old(M()), M(), old(tab))
      ensures pm != 0 ==>
                && OutsideUnchanged(old(M()), M(), tab)
                && RangeMapped(old(M()), M(), pm / 0x1000, virtStart, physStart, n, flags)
                && OthersKept(old(M()), M(), old(tab), pm / 0x1000)
                && SameRights(old(M()), M(), old(tab))
      ensures pm != 0 && Aligned(virtStart, physStart, size, flags) ==>
                && InStep(old(M()), M(), pm / 0x1000, virtStart, physStart, n, flags)
                && (r == 0 ==> forall v: nat :: virtStart <= v < virtStart + size ==>
                      HwTranslate(M(), pm / 0x1000, v)
                      == Some(StepMeaning(old(M()), pm / 0x1000, virtStart, physStart, flags, v)))
    {
      hide Entry, HwWalk, Shape, Index, P.Allocator.Valid, P.Allocator.Free, Present, HwTranslate;
      hide Remapped, Conserved, AddedUnder, Missing, LeafEntry, SoftLeaf, OutsideUnchanged, Meaning, SamePage;
      hide RangeMapped, InStep, Aligned, PagesOf, PageAt, SameRights, AsAsked, Asked, StepMeaning, SameTranslations;
      ghost var root := pm / 0x1000;
      var i := 0;
      var pages := PagesOf(size);
      RangeStart(M(), tab, pmm.Free(), root, virtStart, physStart, flags);
      while i < pages
        invariant Valid() && i <= pages
        invariant Extends(old(tab), tab) && Conserved(old(pmm.Free()), old(tab), pmm.Free(), tab)
        invariant i == 0 ==> SameTranslations(old(M()), M(), old(tab))
        invariant pm != 0 ==>
                    && OutsideUnchanged(old(M()), M(), tab) && NoNewHuge(old(M()), M(), old(tab))
                    && RangeMapped(old(M()), M(), root, virtStart, physStart, i, flags)
                    && OthersKept(old(M()), M(), old(tab), root) && SameRights(old(M()), M(), old(tab))
      {
        ghost var m1, tab1, free1 := M(), tab, pmm.Free();
        if pm != 0 {
          RootKept(old(tab), tab, root);
        }
        r := Map(pm, PageAt(virtStart, i), PageAt(physStart, i), flags);
        KeptTwice(old(tab), tab1, tab, old(pmm.Free()), free1, pmm.Free());
        if pm != 0 {
          OutsideTwice(old(M()), m1, M(), tab1, tab);
          NoNewHugeTwice(old(M()), m1, M(), old(tab), tab1);
          SameRightsTwice(old(M()), m1, M(), old(tab), tab1);
        }
        if r != 0 {
          if pm != 0 {
            RangeFails(old(M()), m1, M(), old(tab), tab1, root, virtStart, physStart, i, flags);
            if Aligned(virtStart, physStart, size, flags) {
              RangeInStep(old(M()), M(), root, virtStart, physStart, size, i, flags);
            }
          }
          n := i;
          return;
        }
        RangeStep(old(M()), m1, M(), old(tab), tab1, root, virtStart, physStart, i, flags);
        i := i + 1;
      }
      if pm != 0 && Aligned(virtStart, physStart, size, flags) {
        RangeInStep(old(M()), M(), root, virtStart, physStart, size, i, flags);
      }
      n := i;
      r := 0;
    }

    // ---------- vmm_create_pagemap ----------

    // A new address space: nothing below, the kernel's upper half above. The
    // handle returned is the virtual address of the root.
    method CreatePagemap() returns (pm: nat, ghost c: nat)
      requires Valid()
      modifies this`tab, mem, pmm`freePages, pmm`log, pmm.bitmap
      ensures Valid()
      ensures pm == 0 <==> old(pmm.Available()) == {}
      ensures pm == 0 ==> M() == old(M()) && tab == old(tab) && pmm.Free() == old(pmm.Free())
      ensures pm != 0 ==>
                && pm == 0x1000 * c + hhdm && c in old(pmm.Available()) && c !in old(tab)
                && tab == old(tab)[c := Tab(c, [], c)] && pmm.Free() == old(pmm.Free()) - {c}
                && OutsideUnchanged(old(M()), M(), tab)
                && SameTranslations(old(M()), M(), old(tab)) && NoNewHuge(old(M()), M(), old(tab))
                && SameRights(old(M()), M(), old(tab))
                && forall v: nat :: HwTranslate(M(), c, v) ==
                     if Index(v, 0) >= 256 && kernelPagemap != 0 then HwTranslate(M(), KernelRoot(), v) else None
      ensures pm != 0 ==>
                forall i :: 0 <= i < 512 ==>
                  && TopEntry(M(), KernelRoot(), i) == old(TopEntry(M(), KernelRoot(), i))
                  && TopEntry(M(), c, i) == if i >= 256 then TopEntry(M(), KernelRoot(), i) else 0
    {
      hide Entry, HwWalk, Shape, Index, P.Allocator.Valid, P.Allocator.Free, Present, HwTranslate, Put, ZeroTable;
      hide TopEntry, WalkRights;
      ghost var kroot := KernelRoot();
      var phys := AllocTable();
      c := phys / 0x1000;
      if phys == 0 {
        return 0, c;
      }
      pm := TablePtr(phys, c);
      ghost var m1 := M();
      if kernelPagemap != 0 {
        FrameFacts(kroot);
        CopyUpperHalf(pm, c);
      }
      Rooting(old(M()), m1, M(), tab, kroot, c);
      RootEntries(old(M()), m1, M(), kroot, c);
      tab := tab[c := Tab(c, [], c)];
    }

    method CopyUpperHalf(pm: nat, ghost c: nat)
      requires Valid() && kernelPagemap != 0 && c != KernelRoot() && InMem(M(), c) && pm == 0x1000 * c + hhdm
      modifies mem
      ensures forall f, i :: InMem(M(), f) && 0 <= i < 512 ==>
                Entry(M(), f, i) == Entry(old(M()), if f == c && i >= 256 then KernelRoot() else f, i)
    {
      hide Entry, HwWalk, Shape, Index, P.Allocator.Valid, P.Allocator.Free, Present, HwTranslate;
      ghost var kroot := KernelRoot();
      FrameFacts(kroot);
      for i := 256 to 512
        invariant forall f, j :: InMem(M(), f) && 0 <= j < 512 ==>
                    Entry(M(), f, j) == Entry(old(M()), if f == c && 256 <= j < i then kroot else f, j)
      {
        ghost var m := M();
        var e := Load(kernelPagemap, i, kroot);
        Store(pm, i, e, c);
        forall f, j | InMem(M(), f) && 0 <= j < 512
          ensures Entry(M(), f, j) == if f == c && j == i then e else Entry(m, f, j)
        {
          EntryAfterPut(m, c, i, e, f, j);
        }
      }
    }

    // ---------- vmm_destroy_pagemap ----------

    // The handle is the virtual address of the root. Gives back, each once, the
    // root and the tables below its lower half; freed lists them.
    method DestroyPagemap(pm: nat) returns (ghost freed: seq<nat>)
      requires Valid()
      requires pm != 0 ==>
                 pm > hhdm && pm == 0x1000 * ((pm - hhdm) / 0x1000) + hhdm && IsRoot(tab, (pm - hhdm) / 0x1000)
      modifies this`tab, pmm`freePages, pmm`log, pmm.bitmap
      ensures Valid()
      ensures pm == 0 || pm == kernelPagemap ==> tab == old(tab) && pmm.Free() == old(pmm.Free()) && freed == []
      ensures pm != 0 && pm != kernelPagemap ==>
                var r := (pm - hhdm) / 0x1000;
                && tab == Without(old(tab), r)
                && Doomed(old(tab), r) !! old(pmm.Free())
                && pmm.Free() == old(pmm.Free()) + Doomed(old(tab), r)
                && FreedExactly(old(pmm.log), pmm.log, Doomed(old(tab), r), freed)
                && (Conserved(old(pmm.Free()), old(tab), pmm.Free(), tab) <==> SharedAbove(M(), KernelRoot(), r))
    {
      hide Entry, HwWalk, Shape, Index, P.Allocator.Valid, P.Allocator.Free, Present, FreedExactly, Under, Rooted;
      hide Doomed, Without, SharedAbove;
      freed := [];
      if pm == 0 || pm == kernelPagemap {
        return;
      }
      ghost var r, kroot := (pm - hhdm) / 0x1000, KernelRoot();
      FrameFacts(r);
      freed := FreeTables(pm, r);
      DropShape(M(), tab, kroot, r);
      DropFree(tab, old(pmm.Free()), r);
      LeakExactly(M(), tab, kroot, r);
      tab := Without(tab, r);
    }

    method FreeTables(pm: nat, ghost r: nat) returns (ghost freed: seq<nat>)
      requires Freeable(r, r) && IsRoot(tab, r) && pm == 0x1000 * r + hhdm
      modifies pmm`freePages, pmm`log, pmm.bitmap
      ensures pmm.Valid() && pmm.Free() == old(pmm.Free()) + Doomed(tab, r)
      ensures FreedExactly(old(pmm.log), pmm.log, Doomed(tab, r), freed)
    {
      hide Entry, HwWalk, Shape, Index, P.Allocator.Valid, P.Allocator.Free, FreedExactly, Under, Doomed;
      TableInMem(M(), tab, KernelRoot(), r);
      RootDoomed(M(), tab, KernelRoot(), r);
      freed := FreeLevel0(pm, r, r);
      ghost var log1 := pmm.log;
      DirectMap(r, 0);
      GiveBack(VirtToPhysPtr(pm), r);
      FreedOne(log1, r);
      FreedTwice(old(pmm.log), log1, pmm.log, Under(tab, r, [], 256), {r}, freed, [r]);
      freed := freed + [r];
    }

    // The loop over the lower half of the root.
    method FreeLevel0(pml4: nat, ghost f: nat, ghost r: nat) returns (ghost freed: seq<nat>)
      requires Freeable(f, r) && IsRoot(tab, f) && pml4 == 0x1000 * f + hhdm
      modifies pmm`freePages, pmm`log, pmm.bitmap
      ensures pmm.Valid() && pmm.Free() == old(pmm.Free()) + Under(tab, r, tab[f].path, 256)
      ensures FreedExactly(old(pmm.log), pmm.log, Under(tab, r, tab[f].path, 256), freed)
    {
      hide Entry, HwWalk, Shape, Index, P.Allocator.Valid, P.Allocator.Free, Present, FrameOf, FreedExactly, Under;
      hide Slot;
      ghost var p := tab[f].path;
      UnderNone(tab, r, p);
      FreedOne(pmm.log, r);
      freed := [];
      for i := 0 to 256
        invariant pmm.Valid() && pmm.Free() == old(pmm.Free()) + Under(tab, r, p, i)
        invariant FreedExactly(old(pmm.log), pmm.log, Under(tab, r, p, i), freed)
      {
        ghost var log1 := pmm.log;
        ghost var gs := FreeSlot0(pml4, i, f, r);
        UnderSlot(tab, r, p, i);
        FreedTwice(old(pmm.log), log1, pmm.log, Under(tab, r, p, i), Slot(tab, r, p, i), freed, gs);
        freed := freed + gs;
      }
    }

    method FreeSlot0(pml4: nat, i: nat, ghost f: nat, ghost r: nat) returns (ghost freed: seq<nat>)
      requires Freeable(f, r) && IsRoot(tab, f) && pml4 == 0x1000 * f + hhdm && i < 256
      modifies pmm`freePages, pmm`log, pmm.bitmap
      ensures pmm.Valid() && pmm.Free() == old(pmm.Free()) + Slot(tab, r, tab[f].path, i)
      ensures FreedExactly(old(pmm.log), pmm.log, Slot(tab, r, tab[f].path, i), freed)
    {
      hide Entry, HwWalk, Shape, Index, P.Allocator.Valid, P.Allocator.Free, Present, FrameOf, FreedExactly, Under;
      hide Slot;
      ghost var kroot, p := KernelRoot(), tab[f].path;
      TableInMem(M(), tab, kroot, f);
      SlotHolds(M(), tab, kroot, f, i);
      FreedOne(pmm.log, r);
      var e := Load(pml4, i, f);
      if !Present(e) {
        return [];
      }
      ghost var c := FrameOf(e);
      EntryFrame(e);
      var pdpt := TablePtr(e - e % 0x1000, c);
      freed := FreeLevel1(pdpt, c, r);
      ghost var log1 := pmm.log;
      GiveBack(e - e % 0x1000, c);
      FreedOne(log1, c);
      FreedTwice(old(pmm.log), log1, pmm.log, Under(tab, r, p + [i], 512), {c}, freed, [c]);
      freed := freed + [c];
    }

    // The loop over one page-directory-pointer table.
    method FreeLevel1(pdpt: nat, ghost f: nat, ghost r: nat) returns (ghost freed: seq<nat>)
      requires Freeable(f, r) && |tab[f].path| == 1 && pdpt == 0x1000 * f + hhdm
      modifies pmm`freePages, pmm`log, pmm.bitmap
      ensures pmm.Valid() && pmm.Free() == old(pmm.Free()) + Under(tab, r, tab[f].path, 512)
      ensures FreedExactly(old(pmm.log), pmm.log, Under(tab, r, tab[f].path, 512), freed)
    {
      hide Entry, HwWalk, Shape, Index, P.Allocator.Valid, P.Allocator.Free, Present, FrameOf, FreedExactly, Under;
      hide Slot;
      ghost var p := tab[f].path;
      UnderNone(tab, r, p);
      FreedOne(pmm.log, r);
      freed := [];
      for i := 0 to 512
        invariant pmm.Valid() && pmm.Free() == old(pmm.Free()) + Under(tab, r, p, i)
        invariant FreedExactly(old(pmm.log), pmm.log, Under(tab, r, p, i), freed)
      {
        ghost var log1 := pmm.log;
        ghost var gs := FreeSlot1(pdpt, i, f, r);
        UnderSlot(tab, r, p, i);
        FreedTwice(old(pmm.log), log1, pmm.log, Under(tab, r, p, i), Slot(tab, r, p, i), freed, gs);
        freed := freed + gs;
      }
    }

    method FreeSlot1(pdpt: nat, i: nat, ghost f: nat, ghost r: nat) returns (ghost freed: seq<nat>)
      requires Freeable(f, r) && |tab[f].path| == 1 && pdpt == 0x1000 * f + hhdm && i < 512
      modifies pmm`freePages, pmm`log, pmm.bitmap
      ensures pmm.Valid() && pmm.Free() == old(pmm.Free()) + Slot(tab, r, tab[f].path, i)
      ensures FreedExactly(old(pmm.log), pmm.log, Slot(tab, r, tab[f].path, i), freed)
    {
      hide Entry, HwWalk, Shape, Index, P.Allocator.Valid, P.Allocator.Free, Present, FrameOf, FreedExactly, Under;
      hide Slot;
      ghost var kroot, p := KernelRoot(), tab[f].path;
      TableInMem(M(), tab, kroot, f);
      SlotHolds(M(), tab, kroot, f, i);
      FreedOne(pmm.log, r);
      var e := Load(pdpt, i, f);
      if !Present(e) {
        return [];
      }
      ghost var c := FrameOf(e);
      EntryFrame(e);
      var pd := TablePtr(e - e % 0x1000, c);
      freed := FreeLevel2(pd, c, r);
      ghost var log1 := pmm.log;
      GiveBack(e - e % 0x1000, c);
      FreedOne(log1, c);
      FreedTwice(old(pmm.log), log1, pmm.log, Under(tab, r, p + [i], 512), {c}, freed, [c]);
      freed := freed + [c];
    }

    // The loop over one page directory.
    method FreeLevel2(pd: nat, ghost f: nat, ghost r: nat) returns (ghost freed: seq<nat>)
      requires Freeable(f, r) && |tab[f].path| == 2 && pd == 0x1000 * f + hhdm
      modifies pmm`freePages, pmm`log, pmm.bitmap
      ensures pmm.Valid() && pmm.Free() == old(pmm.Free()) + Under(tab, r, tab[f].path, 512)
      ensures FreedExactly(old(pmm.log), pmm.log, Under(tab, r, tab[f].path, 512), freed)
    {
      hide Entry, HwWalk, Shape, Index, P.Allocator.Valid, P.Allocator.Free, Present, FrameOf, FreedExactly, Under;
      hide Slot;
      ghost var p := tab[f].path;
      UnderNone(tab, r, p);
      FreedOne(pmm.log, r);
      freed := [];
      for i := 0 to 512
        invariant pmm.Valid() && pmm.Free() == old(pmm.Free()) + Under(tab, r, p, i)
        invariant FreedExactly(old(pmm.log), pmm.log, Under(tab, r, p, i), freed)
      {
        ghost var log1 := pmm.log;
        ghost var gs := FreeSlot2(pd, i, f, r);
        UnderSlot(tab, r, p, i);
        FreedTwice(old(pmm.log), log1, pmm.log, Under(tab, r, p, i), Slot(tab, r, p, i), freed, gs);
        freed := freed + gs;
      }
    }

    method FreeSlot2(pd: nat, i: nat, ghost f: nat, ghost r: nat) returns (ghost freed: seq<nat>)
      requires Freeable(f, r) && |tab[f].path| == 2 && pd == 0x1000 * f + hhdm && i < 512
      modifies pmm`freePages, pmm`log, pmm.bitmap
      ensures pmm.Valid() && pmm.Free() == old(pmm.Free()) + Slot(tab, r, tab[f].path, i)
      ensures FreedExactly(old(pmm.log), pmm.log, Slot(tab, r, tab[f].path, i), freed)
    {
      hide Entry, HwWalk, Shape, Index, P.Allocator.Valid, P.Allocator.Free, Present, FrameOf, FreedExactly, Under;
      hide Slot;
      ghost var kroot, p := KernelRoot(), tab[f].path;
      TableInMem(M(), tab, kroot, f);
      SlotHolds(M(), tab, kroot, f, i);
      FreedOne(pmm.log, r);
      var e := Load(pd, i, f);
      if !Present(e) {
        return [];
      }
      ghost var c := FrameOf(e);
      EntryFrame(e);
      UnderLeaf(M(), tab, kroot, r, p + [i]);
      assert Slot(tab, r, p, i) == {c};
      GiveBack(e - e % 0x1000, c);
      FreedOne(old(pmm.log), c);
      freed := [c];
    }

    // pmm_free_page on a table frame.
    method GiveBack(phys: nat, ghost c: nat)
      requires pmm.Valid() && phys == 0x1000 * c && c < pmm.total
      modifies pmm`freePages, pmm`log, pmm.bitmap
      ensures pmm.Valid() && pmm.Free() == old(pmm.Free()) + {c} && pmm.log == old(pmm.log) + [P.Event.Free(c)]
    {
      hide P.Allocator.Valid, P.Allocator.Free;
      pmm.FreePage(phys);
    }

    // Table f of a user space, ready to be scanned by vmm_destroy_pagemap.
    ghost predicate Freeable(f: nat, r: nat)
      reads this, pmm, pmm.bitmap, mem
    {
      && pmm.Valid() && (mem as object) != (pmm.bitmap as object?) && mem.Length == 512 * pmm.total && DirectMapOk()
      && Shape(M(), tab, KernelRoot()) && r != KernelRoot() && f in tab && tab[f].root == r
    }

    // ---------- vmm_init ----------

    // The inline twin of get_or_create in vmm_init, for the two upper levels.
    method EnsureTable(table: nat, i: nat, ghost f: nat, ghost root: nat, ghost virt: nat)
      returns (next: nat, ghost c: nat)
      requires Valid() && IsRoot(tab, root) && f in tab && |tab[f].path| < 2
      requires HwWalk(M(), root, virt, |tab[f].path|) == Table(f) && HwWalk(M(), root, virt, 3) == Fault
      requires i == Index(virt, |tab[f].path|) && table == 0x1000 * f + hhdm
      modifies this`tab, mem, pmm`freePages, pmm`log, pmm.bitmap
      ensures Valid()
      ensures Grown(old(M()), old(tab), old(pmm.Free()), M(), tab, pmm.Free(), KernelRoot(), root, virt)
      ensures StillFaults(old(M()), M(), old(tab)) && HwWalk(M(), root, virt, 3) == Fault
      ensures Guarded(old(M()), old(tab), KernelRoot()) ==> Guarded(M(), tab, KernelRoot())
      ensures |pmm.Available()| - Missing(M(), root, virt) == old(|pmm.Available()| - Missing(M(), root, virt))
      ensures next == 0 ==> pmm.Available() == {} && Missing(M(), root, virt) >= 2
      ensures next != 0 ==>
                && next == 0x1000 * c + hhdm && c in tab && |tab[c].path| == old(|tab[f].path|) + 1
                && HwWalk(M(), root, virt, old(|tab[f].path|) + 1) == Table(c)
      ensures next != 0 && !old(Present(Entry(M(), f, i))) ==> Linked(f, i, c, 3)
      ensures old(Present(Entry(M(), f, i))) ==> M() == old(M()) && tab == old(tab)
    {
      hide Entry, HwWalk, Shape, Index, Missing, Grown, P.Allocator.Valid, P.Allocator.Free, Present, StillFaults;
      hide Guarded, SameRights;
      FrameFacts(f);
      FaultMissing(M(), root, virt, 3);
      var e := Load(table, i, f);
      if !Present(e) {
        next, c := CreateTable(table, i, 3, f, root, virt);
        FaultsStill(old(M()), M(), old(tab), root, virt);
      } else {
        NextTable(M(), tab, KernelRoot(), root, virt, f);
        c := FrameOf(e);
        FrameFacts(c);
        next := TablePtr(e - e % 0x1000, c);
        SameTablesTranslate(M(), M(), tab, KernelRoot());
        GrownNot(M(), tab, pmm.Free(), KernelRoot(), root, virt);
      }
    }

    // Builds the kernel map. When frames suffice, all of the first 4 GiB of
    // physical memory appears at hhdm through 2 MiB entries, writable and executable but
    // not for user mode at any level.
    method Init() returns (ok: bool)
      requires Valid() && kernelPagemap == 0 && hhdm % 0x20_0000 == 0 && hhdm + 0x1_0000_0000 <= TWO64
      modifies this`tab, this`kernelPagemap, mem, pmm`freePages, pmm`log, pmm.bitmap
      ensures Valid()
      ensures Conserved(old(pmm.Free()), old(tab), pmm.Free(), tab)
      ensures |old(pmm.Available())| >= Spent(hhdm, WINDOW) ==> ok
      ensures ok ==> kernelPagemap != 0
      ensures ok ==> WindowMapped(M(), KernelRoot(), hhdm)
    {
      hide Entry, HwWalk, Shape, Index, Missing, Grown, P.Allocator.Valid, P.Allocator.Free, Present, StillFaults;
      hide HasWindow, Unmapped, Spent, HwTranslate, KernelRoot, WindowAddr, IsRoot, P.Allocator.Available, Conserved;
      hide Guarded, WindowMapped;
      SpentFirst(hhdm);
      SpentBound(hhdm, 0);
      ok := MakeRoot();
      if !ok {
        return;
      }
      ghost var tab1, free1 := tab, pmm.Free();
      ok := MapWindow();
      ConservedTwice(old(pmm.Free()), old(tab), free1, tab1, pmm.Free(), tab);
      if ok {
        assert HasWindow(M(), KernelRoot(), hhdm, 0xFEE0_0000 / 0x20_0000);
        MapApic();
        ShapeFacts();
        WholeWindow(M(), tab, KernelRoot(), hhdm);
      }
    }

    lemma ShapeFacts()
      requires Valid() && kernelPagemap != 0
      ensures Shape(M(), tab, KernelRoot()) && IsRoot(tab, KernelRoot())
    {
      hide Shape, P.Allocator.Valid, P.Allocator.Free;
    }

    // The loop of vmm_init.
    method MapWindow() returns (ok: bool)
      requires Valid() && kernelPagemap != 0 && hhdm % 0x20_0000 == 0 && hhdm + 0x1_0000_0000 <= TWO64
      requires forall j :: 0 <= j < WINDOW ==> Unmapped(M(), KernelRoot(), hhdm, j)
      requires Guarded(M(), tab, KernelRoot())
      modifies this`tab, mem, pmm`freePages, pmm`log, pmm.bitmap
      ensures Valid() && Conserved(old(pmm.Free()), old(tab), pmm.Free(), tab)
      ensures Guarded(M(), tab, KernelRoot())
      ensures |old(pmm.Available())| + Spent(hhdm, 0) >= Spent(hhdm, WINDOW) ==> ok
      ensures ok ==> forall j :: 0 <= j < WINDOW ==> HasWindow(M(), KernelRoot(), hhdm, j)
    {
      hide Entry, HwWalk, Shape, Index, Missing, Grown, P.Allocator.Valid, P.Allocator.Free, Present, StillFaults;
      hide HasWindow, Unmapped, Spent, HwTranslate, KernelRoot, WindowAddr, IsRoot, P.Allocator.Available, Conserved;
      hide Guarded;
      ConservedTwice(pmm.Free(), tab, pmm.Free(), tab, pmm.Free(), tab);
      for i := 0 to WINDOW
        invariant Valid() && Guarded(M(), tab, KernelRoot())
        invariant forall j :: 0 <= j < i ==> HasWindow(M(), KernelRoot(), hhdm, j)
        invariant forall j :: i <= j < WINDOW ==> Unmapped(M(), KernelRoot(), hhdm, j)
        invariant |pmm.Available()| + Spent(hhdm, i) >= |old(pmm.Available())| + Spent(hhdm, 0)
        invariant Conserved(old(pmm.Free()), old(tab), pmm.Free(), tab)
      {
        ghost var tab1, free1 := tab, pmm.Free();
        SpentBound(hhdm, i + 1);
        ok := MapWindowPage(i);
        ConservedTwice(old(pmm.Free()), old(tab), free1, tab1, pmm.Free(), tab);
        if !ok {
          return;
        }
      }
      ok := true;
    }

    method MakeRoot() returns (ok: bool)
      requires Valid() && kernelPagemap == 0
      modifies this`tab, this`kernelPagemap, mem, pmm`freePages, pmm`log, pmm.bitmap
      ensures Valid()
      ensures Conserved(old(pmm.Free()), old(tab), pmm.Free(), tab)
      ensures ok <==> old(pmm.Available()) != {}
      ensures ok ==> kernelPagemap != 0 && |pmm.Available()| + 1 == |old(pmm.Available())|
      ensures ok ==> forall j :: 0 <= j < WINDOW ==> Unmapped(M(), KernelRoot(), hhdm, j)
      ensures ok ==> Guarded(M(), tab, KernelRoot())
    {
      hide Entry, HwWalk, Shape, Index, P.Allocator.Valid, P.Allocator.Free, Present, ZeroTable, Unmapped, Zeroed;
      hide SameTables, Conserved, KernelRoot, P.Allocator.Available, Guarded;
      ghost var free0, tab0 := pmm.Free(), tab;
      RootFrame(0);
      ConservedTwice(free0, tab0, free0, tab0, free0, tab0);
      AvailableFree();
      var phys := AllocTable();
      if phys == 0 {
        return false;
      }
      ghost var c := phys / 0x1000;
      RootConserved(free0, tab0, c, Tab(c, [], c));
      ZeroedFacts(old(M()), M(), c);
      KernelRootShape(M(), tab, c);
      GuardedFirst(M(), tab, c);
      kernelPagemap := TablePtr(phys, c);
      tab := tab[c := Tab(c, [], c)];
      RootFrame(c);
      EmptyWindow(M(), c, hhdm);
      return true;
    }

    // One turn of the loop in vmm_init.
    method MapWindowPage(i: nat) returns (ok: bool)
      requires Valid() && kernelPagemap != 0 && i < WINDOW
      requires hhdm % 0x20_0000 == 0 && hhdm + 0x1_0000_0000 <= TWO64
      requires forall j :: 0 <= j < i ==> HasWindow(M(), KernelRoot(), hhdm, j)
      requires forall j :: i <= j < WINDOW ==> Unmapped(M(), KernelRoot(), hhdm, j)
      requires Guarded(M(), tab, KernelRoot())
      modifies this`tab, mem, pmm`freePages, pmm`log, pmm.bitmap
      ensures Valid() && Guarded(M(), tab, KernelRoot())
      ensures Conserved(old(pmm.Free()), old(tab), pmm.Free(), tab)
      ensures !ok ==> |old(pmm.Available())| + Spent(hhdm, i) < Spent(hhdm, i + 1)
      ensures ok ==>
                && (forall j :: 0 <= j <= i ==> HasWindow(M(), KernelRoot(), hhdm, j))
                && (forall j :: i < j < WINDOW ==> Unmapped(M(), KernelRoot(), hhdm, j))
                && |pmm.Available()| + Spent(hhdm, i + 1) >= |old(pmm.Available())| + Spent(hhdm, i)
    {
      hide Entry, HwWalk, Shape, Index, Missing, P.Allocator.Valid, P.Allocator.Free, Present, StillFaults, Hangs;
      hide HasWindow, Spent, Extends, AddedUnder, Conserved, OutsideUnchanged, SameTranslations, NoNewHuge, EntriesKept;
      hide Guarded, Put, CanWrite;
      var virt, physAddr := hhdm + i * 0x20_0000, i * 0x20_0000;
      ghost var kroot, m0, tab0 := KernelRoot(), M(), tab;
      assert virt == WindowAddr(hhdm, i) && Unmapped(m0, kroot, hhdm, i);
      FrameFacts(kroot);
      MissingBound(m0, kroot, hhdm, i);
      var pdpt, f1 := EnsureTable(kernelPagemap, Index(virt, 0), kroot, kroot, virt);
      if pdpt == 0 {
        return false;
      }
      ghost var m1, tab1, free1 := M(), tab, pmm.Free();
      RootKept(tab0, tab1, kroot);
      var pd, f2 := EnsureTable(pdpt, Index(virt, 1), f1, kroot, virt);
      KeptTwice(tab0, tab1, tab, old(pmm.Free()), free1, pmm.Free());
      if pd == 0 {
        return false;
      }
      ghost var m2 := M();
      RootKept(tab1, tab, kroot);
      WindowAfter(m0, m1, m2, tab0, tab1, kroot, hhdm, i);
      FrameFacts(f2);
      ReadyEntry(m2, tab, kroot, virt, f2, i);
      WindowMore(m2, tab, kroot, hhdm, f2, i, physAddr + 0x83);
      WriteEntry(pd, Index(virt, 2), physAddr + 0x83, f2);
      return true;
    }

    // The APIC page lies in the window: its entry is rewritten with its own value.
    method MapApic()
      requires Valid() && kernelPagemap != 0 && hhdm % 0x20_0000 == 0 && hhdm + 0x1_0000_0000 <= TWO64
      requires HasWindow(M(), KernelRoot(), hhdm, 0xFEE0_0000 / 0x20_0000)
      modifies mem
      ensures M() == old(M())
    {
      hide Entry, HwWalk, Shape, Index, P.Allocator.Valid, P.Allocator.Free, Present, HasWindow, FrameOf, KernelRoot;
      var apicPhys := 0xFEE0_0000;
      var virt := apicPhys + hhdm;
      ghost var kroot := KernelRoot();
      assert virt == WindowAddr(hhdm, apicPhys / 0x20_0000);
      KernelPtr();
      FrameFacts(kroot);
      ghost var f1, f2 := WindowPath(M(), tab, kroot, hhdm, apicPhys / 0x20_0000);
      var e := Load(kernelPagemap, Index(virt, 0), kroot);
      if !Present(e) {
        assert false;
      }
      FrameFacts(f1);
      EntryFrame(e);
      var pdpt := TablePtr(e - e % 0x1000, f1);
      e := Load(pdpt, Index(virt, 1), f1);
      if !Present(e) {
        assert false;
      }
      FrameFacts(f2);
      EntryFrame(e);
      var pd := TablePtr(e - e % 0x1000, f2);
      SameValue(M(), f2, Index(virt, 2));
      Store(pd, Index(virt, 2), apicPhys + 0x83, f2);
    }

    // ---------- whole runs ----------

    // The state between the steps of a run that started from tab0, free0 and m0.
    ghost predicate Running(tab0: Tabs, free0: set<nat>, m0: Mem, spaces: set<nat>, roots: set<nat>)
      reads this, pmm, pmm.bitmap, mem
    {
      && Valid() && OpenSpaces(tab0, tab, KernelRoot(), roots)
      && Conserved(free0, tab0, pmm.Free(), tab) && SameTranslations(m0, M(), tab0)
      && spaces == Handles(roots, hhdm)
    }

    // Whatever a client does with address spaces of its own - creating them,
    // mapping and unmapping below the upper half, failing for want of frames,
    // destroying some along the way - once the rest are destroyed the free frames
    // and the tables are exactly what they were, and no older space ever saw a change.
    method Run(ops: seq<Op>)
      requires Valid() && forall i :: 0 <= i < |ops| ==> ops[i].Lower()
      modifies this`tab, mem, pmm`freePages, pmm`log, pmm.bitmap
      ensures Valid()
      ensures pmm.Free() == old(pmm.Free()) && tab == old(tab)
      ensures SameTranslations(old(M()), M(), tab)
    {
      hide Shape, OpenSpaces, Conserved, SameTranslations, P.Allocator.Valid, P.Allocator.Free;
      OpenFirst(M(), tab, KernelRoot());
      ConservedTwice(pmm.Free(), tab, pmm.Free(), tab, pmm.Free(), tab);
      SameTablesTranslate(M(), M(), tab, KernelRoot());
      var spaces: set<nat> := {};
      ghost var roots: set<nat> := {};
      for i := 0 to |ops|
        invariant Running(old(tab), old(pmm.Free()), old(M()), spaces, roots)
      {
        spaces, roots := Perform(ops[i], spaces, old(tab), old(pmm.Free()), old(M()), roots);
      }
      while spaces != {}
        invariant Running(old(tab), old(pmm.Free()), old(M()), spaces, roots)
        decreases |spaces|
      {
        var pm :| pm in spaces;
        spaces, roots := Close(pm, spaces, old(tab), old(pmm.Free()), old(M()), roots);
      }
      NoHandles(roots, hhdm);
      OpenLast(old(tab), old(pmm.Free()), tab, pmm.Free(), KernelRoot());
    }

    // One step; a handle that is not open is left alone.
    method Perform(op: Op, spaces: set<nat>, ghost tab0: Tabs, ghost free0: set<nat>, ghost m0: Mem,
                   ghost roots: set<nat>)
      returns (spaces': set<nat>, ghost roots': set<nat>)
      requires op.Lower() && Running(tab0, free0, m0, spaces, roots)
      modifies this`tab, mem, pmm`freePages, pmm`log, pmm.bitmap
      ensures Running(tab0, free0, m0, spaces', roots')
      ensures OutsideUnchanged(old(M()), M(), tab)
      ensures op.Destroy? ==> spaces' == spaces - {op.space}
    {
      hide Running, Index;
      spaces', roots' := spaces, roots;
      match op {
        case Create =>
          spaces', roots' := Open(spaces, tab0, free0, m0, roots);
        case MapPage(pm, virt, phys, flags) =>
          if pm in spaces {
            MapIn(pm, virt, phys, flags, spaces, tab0, free0, m0, roots);
          }
        case UnmapPage(pm, virt) =>
          if pm in spaces {
            UnmapIn(pm, virt, spaces, tab0, free0, m0, roots);
          }
        case Destroy(pm) =>
          if pm in spaces {
            spaces', roots' := Close(pm, spaces, tab0, free0, m0, roots);
          }
      }
    }

    method Open(spaces: set<nat>, ghost tab0: Tabs, ghost free0: set<nat>, ghost m0: Mem, ghost roots: set<nat>)
      returns (spaces': set<nat>, ghost roots': set<nat>)
      requires Running(tab0, free0, m0, spaces, roots)
      modifies this`tab, mem, pmm`freePages, pmm`log, pmm.bitmap
      ensures Running(tab0, free0, m0, spaces', roots')
      ensures OutsideUnchanged(old(M()), M(), tab)
    {
      hide Shape, OpenSpaces, Conserved, SameTranslations, P.Allocator.Valid, P.Allocator.Free, HwTranslate, Index;
      hide OutsideUnchanged, NoNewHuge, Handles, SameRights;
      ghost var m1, tab1, free1, kroot := M(), tab, pmm.Free(), KernelRoot();
      AvailableFree();
      OpenOld(tab0, tab, kroot, roots);
      var pm, c := CreatePagemap();
      if pm == 0 {
        OutsideSame(M(), tab);
        return spaces, roots;
      }
      OpenOne(tab0, tab1, kroot, roots, c);
      RootConserved(free1, tab1, c, Tab(c, [], c));
      ConservedTwice(free0, tab0, free1, tab1, pmm.Free(), tab);
      SameTwice(m0, m1, M(), tab0, tab1);
      HandleAdded(roots, hhdm, c);
      return spaces + {pm}, roots + {c};
    }

    // The handle returned by vmm_create_pagemap, turned physical for vmm_map.
    method Physical(pm: nat, spaces: set<nat>, ghost tab0: Tabs, ghost roots: set<nat>)
      returns (phys: nat, ghost r: nat)
      requires Valid() && OpenSpaces(tab0, tab, KernelRoot(), roots) && spaces == Handles(roots, hhdm) && pm in spaces
      ensures r in roots && r == phys / 0x1000 && phys == 0x1000 * r && phys != 0 && pm == 0x1000 * r + hhdm
      ensures r == (pm - hhdm) / 0x1000
      ensures IsRoot(tab, r) && r !in tab0 && r != KernelRoot() && Extends(tab0, tab)
      ensures forall v: nat :: Index(v, 0) < 256 ==> !HwWalk(M(), r, v, 3).Phys?
    {
      hide Shape, P.Allocator.Valid, P.Allocator.Free, HwWalk, Index, OpenSpaces, Handles, KernelRoot, IsRoot, Extends;
      r := OfHandle(roots, hhdm, pm);
      OpenOld(tab0, tab, KernelRoot(), roots);
      RootInTab(tab, r);
      FrameFacts(r);
      DirectMap(r, 0);
      forall v: nat | Index(v, 0) < 256
        ensures !HwWalk(M(), r, v, 3).Phys?
      {
        UserWalk(M(), tab, KernelRoot(), r, v, 3);
      }
      phys := VirtToPhysPtr(pm);
    }

    method MapIn(pm: nat, virt: Word, phys: Word, flags: Word, spaces: set<nat>,
                 ghost tab0: Tabs, ghost free0: set<nat>, ghost m0: Mem, ghost roots: set<nat>)
      requires Running(tab0, free0, m0, spaces, roots) && pm in spaces && Index(virt, 0) < 256
      modifies this`tab, mem, pmm`freePages, pmm`log, pmm.bitmap
      ensures Running(tab0, free0, m0, spaces, roots)
      ensures OutsideUnchanged(old(M()), M(), tab)
    {
      hide Shape, OpenSpaces, Conserved, SameTranslations, P.Allocator.Valid, P.Allocator.Free, HwTranslate, Index;
      hide OutsideUnchanged, NoNewHuge, Handles, HwWalk, Missing, AddedUnder, Extends, Remapped, SoftLeaf, Present;
      hide SameRights, AsAsked, Asked;
      ghost var m1, tab1, free1, kroot := M(), tab, pmm.Free(), KernelRoot();
      var root, r := Physical(pm, spaces, tab0, roots);
      var res := Map(root, virt, phys, flags);
      OpenGrows(tab0, tab1, tab, kroot, roots, r, virt);
      ConservedTwice(free0, tab0, free1, tab1, pmm.Free(), tab);
      if res == 0 {
        RemappedElsewhere(m0, m1, M(), tab0, tab1, r, virt, Present(flags), phys / 0x1000 % 0x100_0000_0000,
                          Asked(phys, flags));
      } else {
        SameTwice(m0, m1, M(), tab0, tab1);
      }
    }

    method UnmapIn(pm: nat, virt: Word, spaces: set<nat>,
                   ghost tab0: Tabs, ghost free0: set<nat>, ghost m0: Mem, ghost roots: set<nat>)
      requires Running(tab0, free0, m0, spaces, roots) && pm in spaces && Index(virt, 0) < 256
      modifies this`tab, mem, pmm`freePages, pmm`log, pmm.bitmap
      ensures Running(tab0, free0, m0, spaces, roots)
      ensures OutsideUnchanged(old(M()), M(), tab)
    {
      hide Shape, OpenSpaces, Conserved, SameTranslations, P.Allocator.Valid, P.Allocator.Free, HwTranslate, Index;
      hide OutsideUnchanged, NoNewHuge, Handles, HwWalk, Extends, Remapped, SameRights;
      ghost var m1 := M();
      var root, r := Physical(pm, spaces, tab0, roots);
      Unmap(root, virt);
      RemappedElsewhere(m0, m1, M(), tab0, tab, r, virt, false, 0, NOTHING);
    }

    method Close(pm: nat, spaces: set<nat>, ghost tab0: Tabs, ghost free0: set<nat>, ghost m0: Mem,
                 ghost roots: set<nat>)
      returns (spaces': set<nat>, ghost roots': set<nat>)
      requires Running(tab0, free0, m0, spaces, roots) && pm in spaces
      modifies this`tab, pmm`freePages, pmm`log, pmm.bitmap
      ensures Running(tab0, free0, m0, spaces', roots') && spaces' == spaces - {pm}
      ensures OutsideUnchanged(old(M()), M(), tab)
    {
      hide Shape, OpenSpaces, Conserved, SameTranslations, P.Allocator.Valid, P.Allocator.Free, HwTranslate, Index;
      hide Handles, HwWalk, Extends, FreedExactly, Doomed, Without, IsRoot, KernelRoot;
      ghost var tab1, free1, kroot := tab, pmm.Free(), KernelRoot();
      var root, r := Physical(pm, spaces, tab0, roots);
      RootInTab(tab, r);
      FrameFacts(r);
      if kernelPagemap != 0 {
        KernelPtr();
      }
      OpenCloses(tab0, tab, free1, kroot, roots, r);
      HandleRemoved(roots, hhdm, r);
      ghost var freed := DestroyPagemap(pm);
      ConservedTwice(free0, tab0, free1, tab1, pmm.Free(), tab);
      return spaces - {pm}, roots - {r};
    }

    // ---------- a space that leaks ----------

    // Creating a space, mapping a page in a slot of the upper half that the
    // kernel does not use, and destroying the space: the tables made for the page
    // are afterwards neither free nor anyone's tables.
    method CreateMapDestroy(virt: Word, phys: Word)
      requires Valid() && |pmm.Available()| >= 4 && Index(virt, 0) >= 256
      requires !Present(TopEntry(M(), KernelRoot(), Index(virt, 0)))
      modifies this`tab, mem, pmm`freePages, pmm`log, pmm.bitmap
      ensures Valid() && tab == old(tab) && pmm.Free() < old(pmm.Free())
    {
      hide Shape, Conserved, SameTranslations, P.Allocator.Valid, P.Allocator.Free, HwTranslate, Index, Present;
      hide OutsideUnchanged, NoNewHuge, HwWalk, AddedUnder, Remapped, SoftLeaf, TopEntry, Without, Doomed;
      hide FreedExactly, SharedAbove, Extends, RootsInside, Missing, SameRights, AsAsked, Asked;
      ghost var tab0, free0, kroot := tab, pmm.Free(), KernelRoot();
      RootsAreTables(M(), tab0, kroot);
      AvailableFree();
      ghost var avail := pmm.Available();
      var pm, c := CreatePagemap();
      assert pmm.Available() == avail - {c};
      ghost var m1, tab1 := M(), tab;
      FrameFacts(c);
      DirectMap(c, 0);
      EmptyTop(m1, tab1, kroot, c, virt);
      if kernelPagemap != 0 {
        KernelPtr();
      }
      var r := Map(VirtToPhysPtr(pm), virt, phys, 1);
      ghost var f := OwnUpper(m1, tab1, M(), tab, kroot, c, virt);
      RootKept(tab1, tab, c);
      ghost var tab2, free2 := tab, pmm.Free();
      ghost var freed := DestroyPagemap(pm);
      LostFrame(free0, tab0, tab1, free2, tab2, c, f);
    }
  }
}
