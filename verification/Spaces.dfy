// Facts about address spaces as values: leaf entries, the tables a map adds,
// ranges of pages, the tables a destroy gives back, and runs of such calls.

module Spaces {
  import opened Machine
  import opened PageTable
  import opened TableEdits
  import opened Bootstrap
  import P = Pmm

  // (phys & ~0xFFF) | (flags & 0xFFF) | (flags & NX)
  function LeafEntry(phys: Word, flags: Word): Word {
    var e := phys - phys % 0x1000 + flags % 0x1000;
    if flags >= NX && e < NX then e + NX else e
  }

  lemma LeafBits(phys: Word, flags: Word)
    ensures var e := LeafEntry(phys, flags);
            && (Present(e) <==> Present(flags))
            && HwFrame(e) == phys / 0x1000 % 0x100_0000_0000
  {
    var q, a, low := phys / 0x1000, flags / 0x1000, flags % 0x1000;
    var e := 0x1000 * q + low;
    var hi := if flags >= NX && e < NX then 1 else 0;
    Quotient(flags, 2, 2048 * a + low / 2, low % 2);
    Quotient(e + hi * NX, 2, hi * (NX / 2) + 2048 * q + low / 2, low % 2);
    Quotient(e + hi * NX, 0x1000, hi * 0x8_0000_0000_0000 + q, low);
    Quotient(hi * 0x8_0000_0000_0000 + q, 0x100_0000_0000, hi * 0x800 + q / 0x100_0000_0000, q % 0x100_0000_0000);
  }

  // The entry asked for: bits 0 to 11 are those of flags, bits 12 to 62 those of phys, and
  // bit 63 is set when either has it.
  predicate AsAsked(e: Word, phys: Word, flags: Word) {
    && e % 0x1000 == flags % 0x1000
    && e / 0x1000 % 0x8_0000_0000_0000 == phys / 0x1000 % 0x8_0000_0000_0000
    && (e >= NX <==> flags >= NX || phys >= NX)
  }

  // The rights asked for.
  function Asked(phys: Word, flags: Word): Access {
    Access(flags / 2 % 2 == 1, flags / 4 % 2 == 1, flags < NX && phys < NX)
  }

  // vmm_map writes that entry and no other.
  lemma LeafAsAsked(e: Word, phys: Word, flags: Word)
    ensures AsAsked(e, phys, flags) <==> e == LeafEntry(phys, flags)
  {
    LeafParts(phys, flags);
    if AsAsked(e, phys, flags) {
      TopBit(e);
      TopBit(LeafEntry(phys, flags));
    }
  }

  lemma LeafParts(phys: Word, flags: Word)
    ensures AsAsked(LeafEntry(phys, flags), phys, flags)
  {
    var q, low := phys / 0x1000, flags % 0x1000;
    var e := 0x1000 * q + low;
    var hi := if flags >= NX && e < NX then 1 else 0;
    Quotient(e + hi * NX, 0x1000, hi * 0x8_0000_0000_0000 + q, low);
    TopBit(e + hi * NX);
    TopBit(phys);
  }

  lemma TopBit(e: Word)
    ensures e / 0x1000 == e / 0x1000 % 0x8_0000_0000_0000 + if e >= NX then 0x8_0000_0000_0000 else 0
  {
  }

  // So the page may be used as flags say.
  lemma LeafRights(e: Word, phys: Word, flags: Word)
    requires AsAsked(e, phys, flags)
    ensures EntryRights(e) == Asked(phys, flags) && (Present(e) <==> Present(flags))
  {
    LowBits(e);
    LowBits(flags);
  }

  lemma LowBits(e: Word)
    ensures e % 2 == e % 0x1000 % 2 && e / 2 % 2 == e % 0x1000 / 2 % 2 && e / 4 % 2 == e % 0x1000 / 4 % 2
  {
    var q, low := e / 0x1000, e % 0x1000;
    Quotient(e, 2, 2048 * q + low / 2, low % 2);
    Quotient(2048 * q + low / 2, 2, 1024 * q + low / 2 / 2, low / 2 % 2);
    Quotient(e, 4, 1024 * q + low / 4, low % 4);
    Quotient(1024 * q + low / 4, 2, 512 * q + low / 4 / 2, low / 4 % 2);
  }

  // How many tables the walk for virt still lacks.
  function Missing(m: Mem, root: nat, virt: nat): nat {
    if !HwWalk(m, root, virt, 1).Table? then 3
    else if !HwWalk(m, root, virt, 2).Table? then 2
    else if !HwWalk(m, root, virt, 3).Table? then 1
    else 0
  }

  lemma HangMissing(m: Mem, tab: Tabs, kroot: nat, f: nat, c: nat, e: Word, root: nat, virt: nat)
    requires f in tab && |tab[f].path| < 3 && IsRoot(tab, root)
    requires CanHang(m, tab, kroot, f, Index(virt, |tab[f].path|), c, e)
    requires HwWalk(m, root, virt, |tab[f].path|) == Table(f)
    ensures var m' := Put(m, f, Index(virt, |tab[f].path|), e);
            && Missing(m', root, virt) == Missing(m, root, virt) - 1
            && !HwWalk(m', root, virt, 3).Phys?
  {
    var d := |tab[f].path|;
    var i := Index(virt, d);
    HangReaches(m, tab, kroot, f, i, c, e, root, virt);
    HangWalk(m, tab, kroot, f, i, c, e, root, virt, 1);
    HangWalk(m, tab, kroot, f, i, c, e, root, virt, 2);
    HangWalk(m, tab, kroot, f, i, c, e, root, virt, 3);
    hide Index, Entry, Put, CanHang;
    assert HwWalk(m, root, virt, d + 1) == Fault by {
      AbsentFaults(m, root, virt, d, f);
    }
    FaultStays(m, root, virt, d + 1, 3);
    TableBefore(m, root, virt, d, f);
  }

  lemma AbsentFaults(m: Mem, root: nat, virt: nat, d: nat, f: nat)
    requires d < 4 && HwWalk(m, root, virt, d) == Table(f) && InMem(m, f) && !Present(Entry(m, f, Index(virt, d)))
    ensures HwWalk(m, root, virt, d + 1) == Fault
  {
  }

  lemma {:induction false} FaultStays(m: Mem, root: nat, virt: nat, d: nat, k: nat)
    requires d <= k <= 4 && HwWalk(m, root, virt, d) == Fault
    ensures HwWalk(m, root, virt, k) == Fault
    ensures forall j :: d <= j <= k ==> HwWalk(m, root, virt, j) == Fault
  {
    if d < k {
      FaultStays(m, root, virt, d, k - 1);
    }
  }

  lemma FaultMissing(m: Mem, root: nat, virt: nat, d: nat)
    requires d <= 3 && HwWalk(m, root, virt, d) == Fault
    ensures Missing(m, root, virt) >= 4 - d && !HwWalk(m, root, virt, 3).Phys?
  {
    FaultStays(m, root, virt, d, 3);
  }

  lemma {:induction false} TableBefore(m: Mem, root: nat, virt: nat, d: nat, f: nat)
    requires d <= 4 && HwWalk(m, root, virt, d) == Table(f)
    ensures forall j :: 0 <= j <= d ==> HwWalk(m, root, virt, j).Table?
  {
    if d > 0 {
      hide Index, Entry, HwDecode;
      TableBefore(m, root, virt, d - 1, HwWalk(m, root, virt, d - 1).frame);
    }
  }

  // Along a path without huge entries a present entry leads to a table.
  lemma NextTable(m: Mem, tab: Tabs, kroot: nat, root: nat, virt: nat, f: nat)
    requires Shape(m, tab, kroot) && IsRoot(tab, root) && f in tab && |tab[f].path| < 3
    requires HwWalk(m, root, virt, |tab[f].path|) == Table(f) && !HwWalk(m, root, virt, 3).Phys?
    requires Present(Entry(m, f, Index(virt, |tab[f].path|)))
    ensures var d := |tab[f].path|; var c := FrameOf(Entry(m, f, Index(virt, d)));
            && Child(m, f, Index(virt, d), d) && c in tab && InMem(m, c) && c >= 1
            && |tab[c].path| == d + 1 && HwWalk(m, root, virt, d + 1) == Table(c)
  {
    var d := |tab[f].path|;
    PhysStays(m, root, virt, d + 1, 3);
    assert Child(m, f, Index(virt, d), d) by {
      hide Index, Entry;
    }
    ChildOf(m, tab, kroot, f, Index(virt, d));
    hide Index, Entry, FrameOf, HwFrame;
    WalkMeets(m, tab, kroot, root, virt, d + 1);
  }

  lemma {:induction false} PhysStays(m: Mem, root: nat, virt: nat, d: nat, k: nat)
    requires d <= k <= 4
    ensures HwWalk(m, root, virt, d).Phys? ==> HwWalk(m, root, virt, k) == HwWalk(m, root, virt, d)
  {
    if d < k {
      PhysStays(m, root, virt, d, k - 1);
    }
  }

  // Unmapping a page whose table is absent changes nothing, rightly.
  lemma AbsentPage(m: Mem, tab: Tabs, root: nat, virt: nat)
    requires IsRoot(tab, root) && HwWalk(m, root, virt, 3) == Fault
    ensures Remapped(m, m, tab, root, virt, false, 0, NOTHING) && OutsideUnchanged(m, m, tab) && NoNewHuge(m, m, tab)
    ensures SameRights(m, m, tab)
  {
    hide SamePage, Index, WalkRights;
    forall v: nat | SamePage(v, virt)
      ensures HwTranslate(m, root, v) == None
    {
      SamePath(v, virt);
      WalkByPath(m, root, virt, v, 3);
    }
  }

  // The entry vmm_virt_to_phys ends up reading, when it gets that far.
  function SoftLeaf(m: Mem, root: nat, virt: nat): Option<Word> {
    match HwWalk(m, root, virt, 3)
    case Table(f) => if InMem(m, f) then Some(Entry(m, f, Index(virt, 3))) else None
    case _ => None
  }

  // vmm_virt_to_phys's answer for an entry it found present.
  function SoftAddress(e: Word, virt: nat): nat {
    e - e % 0x1000 + virt % 0x1000
  }

  // The kernel's own reading of a page table agrees with the processor's up to
  // the entry's bits 52 to 63, and fully exactly when those are clear.
  lemma SoftAgrees(m: Mem, root: nat, virt: nat)
    requires !HwWalk(m, root, virt, 3).Phys?
    ensures match SoftLeaf(m, root, virt)
            case Some(e) =>
              if Present(e) then
                && HwTranslate(m, root, virt).Some?
                && HwTranslate(m, root, virt).value.addr == SoftAddress(e, virt) % 0x10_0000_0000_0000
                && (HwTranslate(m, root, virt).value.addr == SoftAddress(e, virt) <==> e < 0x10_0000_0000_0000)
              else HwTranslate(m, root, virt) == None
            case None => HwTranslate(m, root, virt) == None
  {
    hide Index, Entry, Present, HwFrame, WalkRights;
    match SoftLeaf(m, root, virt) {
      case Some(e) =>
        SoftBits(e, virt);
        assert HwWalk(m, root, virt, 4) == HwDecode(e, 3, virt);
      case None =>
    }
  }

  lemma SoftBits(e: Word, virt: nat)
    ensures 0x1000 * HwFrame(e) + virt % 0x1000 == SoftAddress(e, virt) % 0x10_0000_0000_0000
    ensures SoftAddress(e, virt) < 0x10_0000_0000_0000 <==> e < 0x10_0000_0000_0000
  {
    var q, off := e / 0x1000, virt % 0x1000;
    var hi, frame := q / 0x100_0000_0000, q % 0x100_0000_0000;
    Quotient(0x1000 * q + off, 0x10_0000_0000_0000, hi, 0x1000 * frame + off);
  }

  // A mapping made with NX reads back with bit 63 set.
  lemma NxReadsBack(phys: Word, flags: Word, virt: nat)
    requires Present(flags)
    ensures SoftAddress(LeafEntry(phys, flags), virt) ==
            phys - phys % 0x1000 + virt % 0x1000 + if flags >= NX && phys < NX then NX else 0
    ensures SoftAddress(LeafEntry(phys, flags), virt) == phys - phys % 0x1000 + virt % 0x1000 <==>
            flags < NX || phys >= NX
  {
    var q, low := phys / 0x1000, flags % 0x1000;
    Quotient(0x1000 * q + low, 0x1000, q, low);
    Quotient(0x1000 * (q + 0x8_0000_0000_0000) + low, 0x1000, q + 0x8_0000_0000_0000, low);
  }

  // The tables vmm_destroy_pagemap gives back.
  function Doomed(tab: Tabs, r: nat): set<nat> {
    set f | f in tab && tab[f].root == r && (tab[f].path == [] || tab[f].path[0] < 256)
  }

  ghost predicate Extends(tab: Tabs, tab': Tabs) {
    forall f :: f in tab ==> f in tab' && tab'[f] == tab[f]
  }

  // The tables added on the way to virt hang below its own top-level slot, and
  // one that hangs in that slot is the root's.
  ghost predicate AddedUnder(tab: Tabs, tab': Tabs, kroot: nat, root: nat, virt: nat) {
    forall f :: f in tab' && f !in tab ==>
      && tab'[f].path != [] && tab'[f].path[0] == Index(virt, 0) && Belongs(tab', kroot, root, virt, f)
      && (|tab'[f].path| == 1 ==> tab'[f].root == root)
  }

  ghost predicate OutsideUnchanged(m: Mem, m': Mem, tab: Tabs) {
    |m| == |m'| && forall f, i :: f !in tab && InMem(m, f) && 0 <= i < 512 ==> Entry(m', f, i) == Entry(m, f, i)
  }

  // Frames are neither lost nor made: what left the free set became a table.
  ghost predicate Conserved(free: set<nat>, tab: Tabs, free': set<nat>, tab': Tabs) {
    free' + tab'.Keys == free + tab.Keys
  }

  // What every edit on the way to virt keeps: tables are only added, under virt's
  // own slot; no translation changes; frames are conserved; memory outside the
  // tables is untouched.
  ghost predicate Grown(m: Mem, tab: Tabs, free: set<nat>, m': Mem, tab': Tabs, free': set<nat>,
                        kroot: nat, root: nat, virt: nat) {
    && Extends(tab, tab')
    && AddedUnder(tab, tab', kroot, root, virt)
    && Conserved(free, tab, free', tab')
    && OutsideUnchanged(m, m', tab')
    && SameTranslations(m, m', tab)
    && NoNewHuge(m, m', tab)
    && EntriesKept(m, m', tab)
  }

  lemma GrownNot(m: Mem, tab: Tabs, free: set<nat>, kroot: nat, root: nat, virt: nat)
    ensures Grown(m, tab, free, m, tab, free, kroot, root, virt)
  {
  }

  lemma GrownRoot(m: Mem, tab: Tabs, free: set<nat>, m': Mem, tab': Tabs, free': set<nat>,
                  kroot: nat, root: nat, virt: nat)
    requires Grown(m, tab, free, m', tab', free', kroot, root, virt) && IsRoot(tab, root)
    ensures IsRoot(tab', root)
  {
  }

  lemma GrownExtends(m: Mem, tab: Tabs, free: set<nat>, m': Mem, tab': Tabs, free': set<nat>,
                     kroot: nat, root: nat, virt: nat)
    requires Grown(m, tab, free, m', tab', free', kroot, root, virt)
    ensures Extends(tab, tab')
  {
  }

  lemma NoneMissing(m: Mem, root: nat, virt: nat)
    ensures HwWalk(m, root, virt, 3).Table? ==> Missing(m, root, virt) == 0
  {
    hide Index, HwStep;
    if HwWalk(m, root, virt, 3).Table? {
      TableBefore(m, root, virt, 3, HwWalk(m, root, virt, 3).frame);
    }
  }

  lemma GrownParts(m: Mem, tab: Tabs, free: set<nat>, m': Mem, tab': Tabs, free': set<nat>,
                   kroot: nat, root: nat, virt: nat)
    requires Grown(m, tab, free, m', tab', free', kroot, root, virt)
    ensures Extends(tab, tab') && AddedUnder(tab, tab', kroot, root, virt) && Conserved(free, tab, free', tab')
    ensures OutsideUnchanged(m, m', tab') && SameTranslations(m, m', tab) && NoNewHuge(m, m', tab)
    ensures EntriesKept(m, m', tab)
  {
  }

  // The tables grew and then the leaf for virt was written.
  lemma Mapped(m: Mem, tab: Tabs, free: set<nat>, m1: Mem, tab1: Tabs, free1: set<nat>,
               kroot: nat, root: nat, virt: nat, f: nat, e: Word)
    requires Grown(m, tab, free, m1, tab1, free1, kroot, root, virt)
    requires Shape(m1, tab1, kroot) && IsRoot(tab, root) && f in tab1 && InMem(m1, f)
    requires HwWalk(m1, root, virt, 3) == Table(f) && |tab1[f].path| == 3 && SameRights(m, m1, tab)
    ensures var m2 := Put(m1, f, Index(virt, 3), e);
            && Shape(m2, tab1, kroot)
            && Extends(tab, tab1) && AddedUnder(tab, tab1, kroot, root, virt) && Conserved(free, tab, free1, tab1)
            && OutsideUnchanged(m, m2, tab1)
            && Remapped(m, m2, tab, root, virt, Present(e), HwFrame(e), EntryRights(e)) && NoNewHuge(m, m2, tab)
            && SameRights(m, m2, tab) && SoftLeaf(m2, root, virt) == Some(e)
  {
    hide Entry, Put, HwWalk, Shape, Index, HwTranslate, Present, HwFrame, Remapped, SameTranslations, AddedUnder;
    hide SameRights, EntryRights;
    var i := Index(virt, 3);
    LeafWritable(m1, tab1, kroot, f, i, e);
    WriteShape(m1, tab1, kroot, f, i, e);
    LeafEffect(m1, tab1, kroot, root, virt, f, e);
    RemapAfter(m, m1, Put(m1, f, i, e), tab, tab1, root, virt, Present(e), HwFrame(e), EntryRights(e));
    SameRightsTwice(m, m1, Put(m1, f, i, e), tab, tab1);
    PutOutside(m1, f, i, e, tab1);
    NoNewHugeTwice(m, m1, Put(m1, f, i, e), tab, tab1);
    LeafRead(m1, tab1, kroot, root, virt, f, e);
  }

  lemma NoNewHugeTwice(m: Mem, m1: Mem, m2: Mem, tab: Tabs, tab1: Tabs)
    requires NoNewHuge(m, m1, tab) && NoNewHuge(m1, m2, tab1) && Extends(tab, tab1)
    ensures NoNewHuge(m, m2, tab)
  {
    hide HwWalk;
    forall r, v: nat | IsRoot(tab, r) && HwWalk(m2, r, v, 3).Phys?
      ensures HwWalk(m, r, v, 3).Phys?
    {
      assert IsRoot(tab1, r) && HwWalk(m1, r, v, 3).Phys?;
    }
  }

  lemma LeafRead(m: Mem, tab: Tabs, kroot: nat, root: nat, virt: nat, f: nat, e: Word)
    requires CanWrite(m, tab, kroot, f, Index(virt, 3), e) && |tab[f].path| == 3
    requires InMem(m, f) && IsRoot(tab, root) && HwWalk(m, root, virt, 3) == Table(f)
    ensures SoftLeaf(Put(m, f, Index(virt, 3), e), root, virt) == Some(e)
  {
    hide Index, Put, CanWrite, HwWalk, Entry;
    WriteWalk(m, tab, kroot, f, Index(virt, 3), e, root, virt, 3);
    EntryAfterPut(m, f, Index(virt, 3), e, f, Index(virt, 3));
  }

  lemma LeafWritable(m: Mem, tab: Tabs, kroot: nat, f: nat, i: nat, e: Word)
    requires Shape(m, tab, kroot) && f in tab && |tab[f].path| == 3 && i < 512 && InMem(m, f)
    ensures CanWrite(m, tab, kroot, f, i, e)
  {
    hide Shape;
  }

  lemma GrownTwice(m: Mem, tab: Tabs, free: set<nat>, m1: Mem, tab1: Tabs, free1: set<nat>,
                   m2: Mem, tab2: Tabs, free2: set<nat>, kroot: nat, root: nat, virt: nat)
    requires Grown(m, tab, free, m1, tab1, free1, kroot, root, virt)
    requires Grown(m1, tab1, free1, m2, tab2, free2, kroot, root, virt)
    ensures Grown(m, tab, free, m2, tab2, free2, kroot, root, virt)
  {
    hide Entry, HwTranslate, Index;
    assert Extends(tab, tab2);
    forall f | f in tab2 && f !in tab
      ensures tab2[f].path != [] && tab2[f].path[0] == Index(virt, 0) && Belongs(tab2, kroot, root, virt, f)
      ensures |tab2[f].path| == 1 ==> tab2[f].root == root
    {
    }
    forall r, v: nat | IsRoot(tab, r)
      ensures HwTranslate(m2, r, v) == HwTranslate(m, r, v)
    {
      assert IsRoot(tab1, r);
    }
    NoNewHugeTwice(m, m1, m2, tab, tab1);
  }

  lemma HungAdded(tab: Tabs, kroot: nat, f: nat, c: nat, root: nat, virt: nat)
    requires f in tab && c !in tab && |tab[f].path| < 3
    requires tab[f].path == Path(virt, |tab[f].path|) && Belongs(tab, kroot, root, virt, f)
    requires tab[f].path == [] ==> tab[f].root == root
    ensures var tab' := HungTabs(tab, f, Index(virt, |tab[f].path|), c);
            && Extends(tab, tab') && AddedUnder(tab, tab', kroot, root, virt)
  {
    hide Path, Index;
    PathTop(virt, |tab[f].path|);
  }

  lemma PutOutside(m: Mem, f: nat, i: nat, e: Word, tab: Tabs)
    requires InMem(m, f) && i < 512 && f in tab
    ensures OutsideUnchanged(m, Put(m, f, i, e), tab)
  {
    hide Entry;
    forall g, j | InMem(m, g) && 0 <= j < 512 && g !in tab
      ensures Entry(Put(m, f, i, e), g, j) == Entry(m, g, j)
    {
      EntryAfterPut(m, f, i, e, g, j);
    }
  }

  lemma PathTop(virt: nat, d: nat)
    requires d < 4
    ensures (Path(virt, d) + [Index(virt, d)])[0] == Index(virt, 0)
  {
    PathIndex(virt, d + 1);
    assert Path(virt, d + 1) == Path(virt, d) + [Index(virt, d)];
  }

  lemma WalkStart(m: Mem, tab: Tabs, root: nat, virt: nat, f: nat)
    requires f in tab && |tab[f].path| < 4 && IsRoot(tab, root) && HwWalk(m, root, virt, |tab[f].path|) == Table(f)
    ensures tab[f].path == [] ==> tab[f].root == root
  {
  }

  lemma HungKeys(tab: Tabs, f: nat, i: nat, c: nat)
    requires f in tab
    ensures HungTabs(tab, f, i, c).Keys == tab.Keys + {c}
  {
  }

  // Hanging a zeroed frame c at the slot of f that virt selects.
  lemma Hung(m: Mem, tab: Tabs, kroot: nat, f: nat, c: nat, e: Word, root: nat, virt: nat)
    requires f in tab && |tab[f].path| < 3 && IsRoot(tab, root)
    requires CanHang(m, tab, kroot, f, Index(virt, |tab[f].path|), c, e)
    requires HwWalk(m, root, virt, |tab[f].path|) == Table(f)
    ensures var d := |tab[f].path|; var i := Index(virt, d);
            var m', tab' := Put(m, f, i, e), HungTabs(tab, f, i, c);
            && Shape(m', tab', kroot) && Extends(tab, tab') && AddedUnder(tab, tab', kroot, root, virt)
            && SameTranslations(m, m', tab) && NoNewHuge(m, m', tab) && OutsideUnchanged(m, m', tab')
            && EntriesKept(m, m', tab) && (d < 2 ==> StillFaults(m, m', tab))
            && HwWalk(m', root, virt, d + 1) == Table(c) && !HwWalk(m', root, virt, 3).Phys?
            && Missing(m', root, virt) == Missing(m, root, virt) - 1
            && (e == 0x1000 * c + 7 ==> SameRights(m, m', tab))
            && (e == 0x1000 * c + 3 && Guarded(m, tab, kroot) ==> Guarded(m', tab', kroot))
  {
    hide *;
    var d := |tab[f].path|;
    var i := Index(virt, d);
    HangFacts(m, tab, kroot, f, i, c, e);
    WalkMeets(m, tab, kroot, root, virt, d);
    WalkStart(m, tab, root, virt, f);
    HungAdded(tab, kroot, f, c, root, virt);
    HungKeys(tab, f, i, c);
    PutOutside(m, f, i, e, HungTabs(tab, f, i, c));
    HangShape(m, tab, kroot, f, i, c, e);
    HangTranslate(m, tab, kroot, f, i, c, e);
    HangReaches(m, tab, kroot, f, i, c, e, root, virt);
    HangMissing(m, tab, kroot, f, c, e, root, virt);
    PutKeeps(m, tab, kroot, f, i, c, e);
    if e == 0x1000 * c + 3 && Guarded(m, tab, kroot) {
      GuardedHang(m, tab, kroot, f, i, c, e);
    }
  }

  lemma PutKeeps(m: Mem, tab: Tabs, kroot: nat, f: nat, i: nat, c: nat, e: Word)
    requires CanHang(m, tab, kroot, f, i, c, e) && InMem(m, f)
    ensures EntriesKept(m, Put(m, f, i, e), tab)
  {
    hide Entry, Put, Present, Shape;
    forall g, j | g in tab && InMem(m, g) && 0 <= j < 512 && Present(Entry(m, g, j))
      ensures Entry(Put(m, f, i, e), g, j) == Entry(m, g, j)
    {
      EntryAfterPut(m, f, i, e, g, j);
    }
  }

  // Frame c was zeroed and no other frame touched.
  ghost predicate Zeroed(m: Mem, m': Mem, c: nat) {
    && |m'| == |m| && ZeroTable(m', c)
    && forall f, i :: InMem(m, f) && 0 <= i < 512 && f != c ==> Entry(m', f, i) == Entry(m, f, i)
  }

  lemma NothingZeroed(m: Mem, tab: Tabs)
    ensures SameTables(m, m, tab)
  {
  }

  lemma ZeroedTables(m: Mem, m1: Mem, tab: Tabs, kroot: nat, c: nat)
    requires Shape(m, tab, kroot) && Zeroed(m, m1, c) && c !in tab
    ensures SameTables(m, m1, tab) && Shape(m1, tab, kroot) && ZeroTable(m1, c)
  {
    hide Entry, Shape;
    SameTablesShape(m, m1, tab, kroot);
  }

  // Zeroing a frame that is no table changes no walk.
  lemma ZeroedWalk(m: Mem, m1: Mem, c: nat, tab: Tabs, kroot: nat, root: nat, virt: nat)
    requires Shape(m, tab, kroot) && Zeroed(m, m1, c) && c !in tab && IsRoot(tab, root)
    ensures Shape(m1, tab, kroot)
    ensures SameTranslations(m, m1, tab) && NoNewHuge(m, m1, tab) && Missing(m1, root, virt) == Missing(m, root, virt)
    ensures EntriesKept(m, m1, tab) && StillFaults(m, m1, tab) && SameRights(m, m1, tab)
    ensures Guarded(m, tab, kroot) ==> Guarded(m1, tab, kroot)
    ensures forall d :: 0 <= d <= 3 ==> HwWalk(m1, root, virt, d) == HwWalk(m, root, virt, d)
  {
    hide HwWalk, Shape, WalkRights, Guarded;
    SameTablesShape(m, m1, tab, kroot);
    SameTablesTranslate(m, m1, tab, kroot);
    if Guarded(m, tab, kroot) {
      GuardedSame(m, m1, tab, kroot);
    }
    forall d | 0 <= d <= 3
      ensures HwWalk(m1, root, virt, d) == HwWalk(m, root, virt, d)
    {
      SameTablesWalk(m, m1, tab, kroot, root, virt, d);
    }
  }

  // A zeroed frame taken from the free set and hung on the way to virt.
  lemma Created(m: Mem, tab: Tabs, free: set<nat>, m1: Mem, kroot: nat, f: nat, c: nat, e: Word, root: nat, virt: nat)
    requires Shape(m, tab, kroot) && f in tab && |tab[f].path| < 3 && IsRoot(tab, root)
    requires HwWalk(m, root, virt, |tab[f].path|) == Table(f)
    requires !Present(Entry(m, f, Index(virt, |tab[f].path|)))
    requires Zeroed(m, m1, c) && c in free && c !in tab && c >= 1 && c != kroot && Link(e, c)
    ensures var d := |tab[f].path|; var i := Index(virt, d);
            var m', tab' := Put(m1, f, i, e), HungTabs(tab, f, i, c);
            && Shape(m', tab', kroot) && tab'.Keys == tab.Keys + {c}
            && Grown(m, tab, free, m', tab', free - {c}, kroot, root, virt)
            && HwWalk(m', root, virt, d + 1) == Table(c) && !HwWalk(m', root, virt, 3).Phys?
            && Missing(m', root, virt) == Missing(m, root, virt) - 1
            && (d < 2 ==> StillFaults(m, m', tab))
            && (e == 0x1000 * c + 7 ==> SameRights(m, m', tab))
            && (e == 0x1000 * c + 3 && Guarded(m, tab, kroot) ==> Guarded(m', tab', kroot))
  {
    hide Entry, Put, HwWalk, Shape, Index, Missing, HwTranslate, Present, Link, Hangs, Guarded, WalkRights;
    var d := |tab[f].path|;
    var i := Index(virt, d);
    TableInMem(m, tab, kroot, f);
    ZeroedWalk(m, m1, c, tab, kroot, root, virt);
    Hung(m1, tab, kroot, f, c, e, root, virt);
  }

  // ---------- ranges ----------

  // (size + 0xFFF) / 0x1000 in 64 bits.
  function PagesOf(size: Word): nat {
    (size + 0xFFF) % 0x1_0000_0000_0000_0000 / 0x1000
  }

  // start + i * 0x1000 in 64 bits.
  function PageAt(start: Word, i: nat): Word {
    (start + i * 0x1000) % 0x1_0000_0000_0000_0000
  }

  // What v means after the first n pages of a range were mapped in turn.
  function RangeMeaning(before: Option<Mapping>, path: Access, v: nat, virtStart: Word, physStart: Word, n: nat,
                        flags: Word): Option<Mapping> {
    if n == 0 then before
    else if SamePage(v, PageAt(virtStart, n - 1)) then
      var phys := PageAt(physStart, n - 1);
      Meaning(Present(flags), phys / 0x1000 % 0x100_0000_0000, path, Asked(phys, flags), v)
    else RangeMeaning(before, path, v, virtStart, physStart, n - 1, flags)
  }

  ghost predicate RangeMapped(m: Mem, m': Mem, root: nat, virtStart: Word, physStart: Word, n: nat, flags: Word) {
    forall v: nat :: HwTranslate(m', root, v) ==
      RangeMeaning(HwTranslate(m, root, v), WalkRights(m, root, v, 3), v, virtStart, physStart, n, flags)
  }

  // Outside the shared upper half no other address space sees a change.
  ghost predicate OthersKept(m: Mem, m': Mem, tab: Tabs, root: nat) {
    forall r, v: nat :: IsRoot(tab, r) && r != root && Index(v, 0) < 256 ==>
      HwTranslate(m', r, v) == HwTranslate(m, r, v)
  }

  lemma RangeStart(m: Mem, tab: Tabs, free: set<nat>, root: nat, virtStart: Word, physStart: Word, flags: Word)
    ensures Extends(tab, tab) && Conserved(free, tab, free, tab) && SameTranslations(m, m, tab)
    ensures OutsideUnchanged(m, m, tab) && NoNewHuge(m, m, tab) && OthersKept(m, m, tab, root)
    ensures RangeMapped(m, m, root, virtStart, physStart, 0, flags) && SameRights(m, m, tab)
  {
  }

  lemma RangeStep(m: Mem, m1: Mem, m2: Mem, tab: Tabs, tab1: Tabs, root: nat,
                  virtStart: Word, physStart: Word, n: nat, flags: Word)
    requires RangeMapped(m, m1, root, virtStart, physStart, n, flags) && OthersKept(m, m1, tab, root)
    requires Extends(tab, tab1) && IsRoot(tab, root) && SameRights(m, m1, tab)
    requires Remapped(m1, m2, tab1, root, PageAt(virtStart, n), Present(flags),
                      PageAt(physStart, n) / 0x1000 % 0x100_0000_0000, Asked(PageAt(physStart, n), flags))
    ensures RangeMapped(m, m2, root, virtStart, physStart, n + 1, flags) && OthersKept(m, m2, tab, root)
  {
    hide HwTranslate, SamePage, Meaning, Index, PageAt, Present, WalkRights, Asked;
    assert IsRoot(tab1, root);
    forall v: nat | SamePage(v, PageAt(virtStart, n))
      ensures WalkRights(m1, root, PageAt(virtStart, n), 3) == WalkRights(m, root, v, 3)
    {
      SamePath(v, PageAt(virtStart, n));
      RightsByPath(m1, root, v, PageAt(virtStart, n), 3);
    }
    forall r, v: nat | IsRoot(tab, r) && r != root && Index(v, 0) < 256
      ensures HwTranslate(m2, r, v) == HwTranslate(m, r, v)
    {
      assert IsRoot(tab1, r);
      SamePath(v, PageAt(virtStart, n));
      if SamePage(v, PageAt(virtStart, n)) {
        SameTop(v, PageAt(virtStart, n));
      }
    }
  }

  lemma RangeFails(m: Mem, m1: Mem, m2: Mem, tab: Tabs, tab1: Tabs, root: nat,
                   virtStart: Word, physStart: Word, n: nat, flags: Word)
    requires RangeMapped(m, m1, root, virtStart, physStart, n, flags) && OthersKept(m, m1, tab, root)
    requires Extends(tab, tab1) && IsRoot(tab, root) && SameTranslations(m1, m2, tab1)
    ensures RangeMapped(m, m2, root, virtStart, physStart, n, flags) && OthersKept(m, m2, tab, root)
    ensures SameTranslations(m, m1, tab) ==> SameTranslations(m, m2, tab)
  {
    hide HwTranslate, RangeMeaning, Index, WalkRights;
    assert IsRoot(tab1, root);
    forall r, v: nat | IsRoot(tab, r)
      ensures HwTranslate(m2, r, v) == HwTranslate(m1, r, v)
    {
      assert IsRoot(tab1, r);
    }
  }

  lemma RootKept(tab: Tabs, tab1: Tabs, root: nat)
    requires Extends(tab, tab1) && IsRoot(tab, root)
    ensures IsRoot(tab1, root)
  {
  }

  lemma KeptTwice(tab: Tabs, tab1: Tabs, tab2: Tabs, free: set<nat>, free1: set<nat>, free2: set<nat>)
    requires Extends(tab, tab1) && Extends(tab1, tab2)
    requires Conserved(free, tab, free1, tab1) && Conserved(free1, tab1, free2, tab2)
    ensures Extends(tab, tab2) && Conserved(free, tab, free2, tab2)
  {
  }

  lemma OutsideSame(m: Mem, tab: Tabs)
    ensures OutsideUnchanged(m, m, tab)
  {
  }

  lemma OutsideTwice(m: Mem, m1: Mem, m2: Mem, tab1: Tabs, tab2: Tabs)
    requires OutsideUnchanged(m, m1, tab1) && OutsideUnchanged(m1, m2, tab2) && Extends(tab1, tab2)
    ensures OutsideUnchanged(m, m2, tab2)
  {
    hide Entry;
  }

  // What a mapped range means. With n pages done, the first 0x1000 * n bytes
  // translate in step and every address on no mapped page keeps its meaning.
  lemma {:induction false} RangeExact(before: Option<Mapping>, path: Access, virtStart: Word, physStart: Word,
                                      n: nat, flags: Word, k: nat)
    requires virtStart % 0x1000 == 0 && physStart % 0x1000 == 0 && Present(flags)
    requires n <= 0x10_0000_0000 && virtStart + 0x1000 * n <= TWO64 && physStart + 0x1000 * n <= 0x10_0000_0000_0000
    requires k < 0x1_0000_0000_0000
    ensures RangeMeaning(before, path, virtStart + k, virtStart, physStart, n, flags) ==
            if k < 0x1000 * n then Some(Mapping(physStart + k, Both(path, EntryRights(flags)))) else before
  {
    hide Present, SamePage, PageAt, EntryRights, Asked;
    if n > 0 {
      PageInRange(virtStart, n - 1, k);
      PageInRange(physStart, n - 1, k);
      AskedLow(PageAt(physStart, n - 1), flags);
      assert k / 0x1000 == n - 1 <==> 0x1000 * (n - 1) <= k < 0x1000 * n;
      RangeExact(before, path, virtStart, physStart, n - 1, flags, k);
    }
  }

  lemma AskedLow(phys: Word, flags: Word)
    ensures phys < NX ==> Asked(phys, flags) == EntryRights(flags)
  {
  }

  lemma PageInRange(start: Word, i: nat, k: nat)
    requires start % 0x1000 == 0 && i < 0x10_0000_0000 && start + 0x1000 * i + 0x1000 <= TWO64
    requires k < 0x1_0000_0000_0000
    ensures SamePage(start + k, PageAt(start, i)) <==> k / 0x1000 == i
    ensures PageAt(start, i) == start + 0x1000 * i
    ensures start + 0x1000 * i < 0x10_0000_0000_0000 && k / 0x1000 == i ==>
              0x1000 * (PageAt(start, i) / 0x1000 % 0x100_0000_0000) + k % 0x1000 == start + k
    ensures (start + k) % 0x1000 == k % 0x1000
  {
    var s, j, off := start / 0x1000, k / 0x1000, k % 0x1000;
    assert PageAt(start, i) == start + 0x1000 * i;
    Quotient(start + k, 0x1000, s + j, off);
    Quotient(start + 0x1000 * i, 0x1000, s + i, 0);
    if (s + j) % 0x10_0000_0000 == (s + i) % 0x10_0000_0000 {
      Scale(0x10_0000_0000, (s + j) / 0x10_0000_0000 - (s + i) / 0x10_0000_0000);
    }
  }

  // Whole pages, present, on either side below the end of the address space.
  predicate Aligned(virtStart: Word, physStart: Word, size: Word, flags: Word) {
    && virtStart % 0x1000 == 0 && physStart % 0x1000 == 0 && Present(flags) && size <= 0x1_0000_0000_0000
    && virtStart + size <= TWO64 && physStart + size <= 0x10_0000_0000_0000
  }

  // v in step with the range, with the rights of flags as far as the tables on its path allow.
  function StepMeaning(m: Mem, root: nat, virtStart: nat, physStart: nat, flags: Word, v: nat): Mapping
    requires virtStart <= v
  {
    Mapping(physStart + (v - virtStart), Both(WalkRights(m, root, v, 3), EntryRights(flags)))
  }

  // The first n pages of the range translate in step and the rest as before.
  ghost predicate InStep(m: Mem, m': Mem, root: nat, virtStart: Word, physStart: Word, n: nat, flags: Word) {
    forall v: nat :: virtStart <= v < virtStart + 0x1_0000_0000_0000 ==>
      HwTranslate(m', root, v) ==
      if v < virtStart + 0x1000 * n then Some(StepMeaning(m, root, virtStart, physStart, flags, v))
      else HwTranslate(m, root, v)
  }

  lemma PagesCover(start: nat, size: Word, end: nat)
    requires start % 0x1000 == 0 && end % 0x1000 == 0 && start + size <= end && size <= 0x1_0000_0000_0000
    ensures size <= 0x1000 * PagesOf(size) && start + 0x1000 * PagesOf(size) <= end
    ensures PagesOf(size) <= 0x10_0000_0000
  {
    var n := (size + 0xFFF) / 0x1000;
    assert PagesOf(size) == n && 0x1000 * n < size + 0x1000;
  }

  // A mapped range means what it should, byte by byte.
  lemma RangeInStep(m: Mem, m': Mem, root: nat, virtStart: Word, physStart: Word, size: Word, n: nat, flags: Word)
    requires Aligned(virtStart, physStart, size, flags) && n <= PagesOf(size)
    requires RangeMapped(m, m', root, virtStart, physStart, n, flags)
    ensures InStep(m, m', root, virtStart, physStart, n, flags)
    ensures n == PagesOf(size) ==>
              forall v: nat :: virtStart <= v < virtStart + size ==>
                HwTranslate(m', root, v) == Some(StepMeaning(m, root, virtStart, physStart, flags, v))
  {
    hide HwTranslate, Present, PagesOf, RangeMeaning, WalkRights, EntryRights;
    PagesCover(virtStart, size, TWO64);
    PagesCover(physStart, size, 0x10_0000_0000_0000);
    forall v: nat | virtStart <= v < virtStart + 0x1_0000_0000_0000
      ensures HwTranslate(m', root, v) ==
              if v < virtStart + 0x1000 * n then Some(StepMeaning(m, root, virtStart, physStart, flags, v))
              else HwTranslate(m, root, v)
    {
      RangeExact(HwTranslate(m, root, v), WalkRights(m, root, v, 3), virtStart, physStart, n, flags, v - virtStart);
    }
  }

  // Top-level entry i of the root, 0 without a root.
  function TopEntry(m: Mem, root: nat, i: nat): Word {
    if root != 0 && i < 512 && InMem(m, root) then Entry(m, root, i) else 0
  }

  // The root it makes, entry by entry.
  lemma RootEntries(m: Mem, m1: Mem, m2: Mem, kroot: nat, c: nat)
    requires Zeroed(m, m1, c) && c >= 1 && c != kroot && InMem(m, c) && |m2| == |m1|
    requires forall f, i :: InMem(m1, f) && 0 <= i < 512 ==>
               Entry(m2, f, i) == if f == c && i >= 256 && kroot != 0 && InMem(m1, kroot) then Entry(m1, kroot, i)
                                  else Entry(m1, f, i)
    ensures forall i :: 0 <= i < 512 ==>
              && TopEntry(m2, kroot, i) == TopEntry(m, kroot, i)
              && TopEntry(m2, c, i) == if i >= 256 then TopEntry(m2, kroot, i) else 0
  {
    hide Entry;
  }

  // A fresh frame became a root with the kernel's upper half.
  lemma Rooting(m: Mem, m1: Mem, m2: Mem, tab: Tabs, kroot: nat, c: nat)
    requires Shape(m, tab, kroot) && Zeroed(m, m1, c) && c !in tab && c >= 1 && c != kroot && InMem(m, c)
    requires |m2| == |m1|
    requires kroot == 0 || IsRoot(tab, kroot)
    requires forall f, i :: InMem(m1, f) && 0 <= i < 512 ==>
               Entry(m2, f, i) == if f == c && i >= 256 && kroot != 0 && InMem(m1, kroot) then Entry(m1, kroot, i)
                                  else Entry(m1, f, i)
    ensures Shape(m2, tab[c := Tab(c, [], c)], kroot)
    ensures OutsideUnchanged(m, m2, tab[c := Tab(c, [], c)])
    ensures SameTranslations(m, m2, tab) && NoNewHuge(m, m2, tab) && SameRights(m, m2, tab)
    ensures forall v: nat :: HwTranslate(m2, c, v) ==
              if Index(v, 0) >= 256 && kroot != 0 then HwTranslate(m2, kroot, v) else None
  {
    hide Entry, HwWalk, Shape, Index, WalkRights;
    SameTablesShape(m, m2, tab, kroot);
    SameTablesTranslate(m, m2, tab, kroot);
    if kroot != 0 {
      TableInMem(m2, tab, kroot, kroot);
    } else if 0 in tab {
      TableInMem(m2, tab, kroot, 0);
    }
    assert NewRoot(m2, tab, kroot, c);
    RootShape(m2, tab, kroot, c);
    forall v: nat
      ensures HwTranslate(m2, c, v) == if Index(v, 0) >= 256 && kroot != 0 then HwTranslate(m2, kroot, v) else None
    {
      RootWalk(m2, tab, kroot, c, v, 4);
    }
  }

  // ---------- giving tables back ----------

  // The tables of r that hang below slots 0 to i-1 of its table at path p.
  function Under(tab: Tabs, r: nat, p: seq<nat>, i: nat): set<nat> {
    set f | f in tab && tab[f].root == r && |tab[f].path| > |p| && tab[f].path[..|p|] == p && tab[f].path[|p|] < i
  }

  lemma EntryFrame(e: Word)
    ensures e - e % 0x1000 == 0x1000 * FrameOf(e) && (e - e % 0x1000) / 0x1000 == FrameOf(e)
  {
  }

  lemma UnderLeaf(m: Mem, tab: Tabs, kroot: nat, r: nat, p: seq<nat>)
    requires Shape(m, tab, kroot) && |p| == 3
    ensures Under(tab, r, p, 512) == {}
  {
    hide Entry, Rooted, Hangs, Child;
  }

  // What is given back is no longer a table; what stays was not free.
  lemma DropFree(tab: Tabs, free: set<nat>, r: nat)
    requires tab.Keys !! free
    ensures Doomed(tab, r) !! free && Without(tab, r).Keys !! free + Doomed(tab, r)
    ensures forall k :: IsRoot(tab, k) && k != r ==> IsRoot(Without(tab, r), k)
  {
  }

  lemma RootDoomed(m: Mem, tab: Tabs, kroot: nat, r: nat)
    requires Shape(m, tab, kroot) && IsRoot(tab, r)
    ensures Doomed(tab, r) == Under(tab, r, [], 256) + {r} && r !in Under(tab, r, [], 256)
  {
    hide Entry, Child;
    forall f | f in Doomed(tab, r)
      ensures f == r || f in Under(tab, r, [], 256)
    {
      assert Rooted(m, tab, f);
    }
  }

  // Two tables of one space with one path are the same table.
  lemma {:induction false} PathIsUnique(m: Mem, tab: Tabs, kroot: nat, f: nat, g: nat)
    requires Shape(m, tab, kroot) && f in tab && g in tab
    requires tab[f].root == tab[g].root && tab[f].path == tab[g].path
    ensures f == g
    decreases |tab[f].path|
  {
    hide Entry, FrameOf, Child;
    assert Rooted(m, tab, f) && Rooted(m, tab, g);
    if tab[f].path != [] {
      PathIsUnique(m, tab, kroot, tab[f].parent, tab[g].parent);
    }
  }

  // A table has an ancestor at every prefix of its path.
  lemma {:induction false} Ancestor(m: Mem, tab: Tabs, kroot: nat, g: nat, n: nat) returns (a: nat)
    requires Shape(m, tab, kroot) && g in tab && n <= |tab[g].path|
    ensures a in tab && tab[a].root == tab[g].root && tab[a].path == tab[g].path[..n]
    decreases |tab[g].path|
  {
    hide Entry, FrameOf, Child;
    assert Rooted(m, tab, g);
    if n == |tab[g].path| {
      a := g;
    } else {
      a := Ancestor(m, tab, kroot, tab[g].parent, n);
      assert tab[g].path[..|tab[g].path| - 1][..n] == tab[g].path[..n];
    }
  }

  // Each top-level entry of the upper half holds the frame of the kernel root's
  // entry in that slot; without a kernel root none is present.
  ghost predicate SharedAbove(m: Mem, kroot: nat, r: nat)
    requires InMem(m, r)
  {
    forall i :: 256 <= i < 512 && Present(Entry(m, r, i)) ==>
      && kroot != 0 && InMem(m, kroot) && Present(Entry(m, kroot, i))
      && FrameOf(Entry(m, kroot, i)) == FrameOf(Entry(m, r, i))
  }

  lemma TopSlot(m: Mem, tab: Tabs, kroot: nat, r: nat, f: nat)
    requires Shape(m, tab, kroot) && IsRoot(tab, r) && InMem(m, r) && r != kroot
    requires kroot == 0 || IsRoot(tab, kroot)
    requires f in tab && tab[f].root == r && tab[f].path != [] && tab[f].path[0] >= 256
    ensures !SharedAbove(m, kroot, r)
  {
    hide Entry, FrameOf;
    var a := Ancestor(m, tab, kroot, f, 1);
    assert Rooted(m, tab, a);
    PathIsUnique(m, tab, kroot, r, tab[a].parent);
    var i := tab[f].path[0];
    assert tab[a].path[0] == i;
    if kroot != 0 && Present(Entry(m, kroot, i)) {
      ChildOf(m, tab, kroot, kroot, i);
    }
  }

  // The table behind an upper-half entry of r, when it is not r's own, is the
  // one behind the kernel's entry.
  lemma UpperSlot(m: Mem, tab: Tabs, kroot: nat, r: nat, i: nat)
    requires Shape(m, tab, kroot) && IsRoot(tab, r) && InMem(m, r) && r != kroot && 256 <= i < 512
    requires Present(Entry(m, r, i)) && tab.Keys == Without(tab, r).Keys + Doomed(tab, r)
    ensures kroot != 0 && InMem(m, kroot) && Present(Entry(m, kroot, i))
    ensures FrameOf(Entry(m, kroot, i)) == FrameOf(Entry(m, r, i))
  {
    hide Entry, FrameOf, Rooted, Hangs;
    ChildOf(m, tab, kroot, r, i);
    var c := FrameOf(Entry(m, r, i));
    SharedSlot(tab, kroot, r, i, c);
    assert Rooted(m, tab, c);
    KernelSlot(m, tab, kroot, i, c);
  }

  lemma SharedSlot(tab: Tabs, kroot: nat, r: nat, i: nat, c: nat)
    requires IsRoot(tab, r) && r != kroot && i >= 256 && Hangs(tab, kroot, r, i, c)
    requires tab.Keys == Without(tab, r).Keys + Doomed(tab, r)
    ensures IsRoot(tab, kroot) && c in tab && tab[c] == Tab(kroot, [i], kroot)
  {
    assert c in Without(tab, r).Keys + Doomed(tab, r);
  }

  lemma KernelSlot(m: Mem, tab: Tabs, kroot: nat, i: nat, c: nat)
    requires Shape(m, tab, kroot) && IsRoot(tab, kroot) && c in tab && tab[c] == Tab(kroot, [i], kroot)
    requires Rooted(m, tab, c) && i < 512
    ensures kroot != 0 && InMem(m, kroot) && Present(Entry(m, kroot, i)) && FrameOf(Entry(m, kroot, i)) == c
  {
    hide Entry, FrameOf, Hangs;
    TableInMem(m, tab, kroot, kroot);
  }

  // vmm_destroy_pagemap scans the lower half only: it gives back every table of
  // the space exactly when its upper half is still the kernel's.
  lemma LeakExactly(m: Mem, tab: Tabs, kroot: nat, r: nat)
    requires Shape(m, tab, kroot) && IsRoot(tab, r) && InMem(m, r) && r != kroot
    requires kroot == 0 || IsRoot(tab, kroot)
    ensures tab.Keys == Without(tab, r).Keys + Doomed(tab, r) <==> SharedAbove(m, kroot, r)
  {
    hide Entry, FrameOf, Rooted, Hangs;
    var kept := Without(tab, r).Keys + Doomed(tab, r);
    assert kept <= tab.Keys;
    if f :| f in tab && f !in kept {
      TopSlot(m, tab, kroot, r, f);
    } else {
      forall i | 256 <= i < 512 && Present(Entry(m, r, i))
        ensures kroot != 0 && InMem(m, kroot) && Present(Entry(m, kroot, i))
        ensures FrameOf(Entry(m, kroot, i)) == FrameOf(Entry(m, r, i))
      {
        UpperSlot(m, tab, kroot, r, i);
      }
    }
  }

  // Where neither r nor the kernel has an entry in slot i, no table of theirs hangs in it.
  lemma EmptySlot(m: Mem, tab: Tabs, kroot: nat, r: nat, i: nat, f: nat)
    requires Shape(m, tab, kroot) && IsRoot(tab, r) && !Present(TopEntry(m, r, i)) && !Present(TopEntry(m, kroot, i))
    requires f in tab && tab[f].path == [i]
    ensures tab[f].root != r && tab[f].root != kroot
  {
    hide FrameOf, Hangs;
    assert Rooted(m, tab, f);
    var p := tab[f].parent;
    assert Rooted(m, tab, p);
    TableInMem(m, tab, kroot, p);
  }

  // A map into a slot that neither r nor the kernel had makes tables of r's own
  // only, one of them in that slot.
  lemma OwnUpper(m: Mem, tab: Tabs, m': Mem, tab': Tabs, kroot: nat, r: nat, virt: nat) returns (f: nat)
    requires Shape(m, tab, kroot) && Shape(m', tab', kroot) && IsRoot(tab, r) && Extends(tab, tab')
    requires var i := Index(virt, 0); !Present(TopEntry(m, r, i)) && !Present(TopEntry(m, kroot, i))
    requires AddedUnder(tab, tab', kroot, r, virt) && SoftLeaf(m', r, virt).Some? && kroot != r
    ensures f in tab' && f !in tab && tab'[f].path == [Index(virt, 0)] && tab'[f].root == r
    ensures forall g :: g in tab' && g !in tab ==> tab'[g].root == r
  {
    hide Index, Shape, HwWalk, Present, TopEntry, Entry;
    var w := HwWalk(m', r, virt, 3);
    TableBefore(m', r, virt, 3, w.frame);
    f := HwWalk(m', r, virt, 1).frame;
    WalkMeets(m', tab', kroot, r, virt, 1);
    assert Path(virt, 1) == [Index(virt, 0)];
    if f in tab {
      EmptySlot(m, tab, kroot, r, Index(virt, 0), f);
    }
    forall g | g in tab' && g !in tab
      ensures tab'[g].root == r
    {
      var a := Ancestor(m', tab', kroot, g, 1);
      assert tab'[a].path == [Index(virt, 0)];
      if a in tab {
        EmptySlot(m, tab, kroot, r, Index(virt, 0), a);
      }
    }
  }

  lemma EmptyTop(m: Mem, tab: Tabs, kroot: nat, r: nat, virt: nat)
    requires Shape(m, tab, kroot) && IsRoot(tab, r) && !Present(TopEntry(m, r, Index(virt, 0)))
    ensures !HwWalk(m, r, virt, 3).Phys? && Missing(m, r, virt) <= 3
  {
    hide Index, Present, Entry;
    TableInMem(m, tab, kroot, r);
    assert HwWalk(m, r, virt, 0) == Table(r);
    AbsentFaults(m, r, virt, 0, r);
    FaultStays(m, r, virt, 1, 3);
  }

  lemma RootsAreTables(m: Mem, tab: Tabs, kroot: nat)
    requires Shape(m, tab, kroot)
    ensures RootsInside(tab)
  {
    hide Shape;
    forall f | f in tab
      ensures tab[f].root in tab
    {
      RootIsTable(m, tab, kroot, f);
    }
  }

  // The frame in that slot is lost to a destroy: neither free nor a table.
  lemma LostFrame(free: set<nat>, tab: Tabs, tab1: Tabs, free2: set<nat>, tab2: Tabs, r: nat, f: nat)
    requires r in free && tab1 == tab[r := Tab(r, [], r)] && Conserved(free - {r}, tab1, free2, tab2)
    requires tab.Keys !! free && tab2.Keys !! free2 && Extends(tab1, tab2) && RootsInside(tab)
    requires f in tab2 && f !in tab1 && tab2[f].root == r && tab2[f].path != [] && tab2[f].path[0] >= 256
    requires forall g :: g in tab2 && g !in tab1 ==> tab2[g].root == r
    ensures Without(tab2, r) == tab && free2 + Doomed(tab2, r) < free
  {
    forall g | g in tab
      ensures g in tab2 && tab2[g] == tab[g] && tab[g].root != r
    {
      assert g in tab1 && tab1[g] == tab[g];
      assert tab[g].root in tab;
    }
    assert Without(tab2, r) == tab by {
      forall g | g in tab2 && tab2[g].root != r
        ensures g in tab
      {
        assert g in tab1;
      }
    }
    assert f in free2 + tab2.Keys;
    assert f in free && f !in free2 + Doomed(tab2, r);
    forall g | g in free2 + Doomed(tab2, r)
      ensures g in free
    {
      assert g in free2 + tab2.Keys;
    }
  }

  // The tables of r below slot i of its table at path p.
  function Slot(tab: Tabs, r: nat, p: seq<nat>, i: nat): set<nat> {
    set f | f in tab && tab[f].root == r && |tab[f].path| > |p| && tab[f].path[..|p|] == p && tab[f].path[|p|] == i
  }

  lemma UnderSlot(tab: Tabs, r: nat, p: seq<nat>, i: nat)
    ensures Under(tab, r, p, i + 1) == Under(tab, r, p, i) + Slot(tab, r, p, i)
    ensures Under(tab, r, p, i) !! Slot(tab, r, p, i)
  {
  }

  lemma UnderNone(tab: Tabs, r: nat, p: seq<nat>)
    ensures Under(tab, r, p, 0) == {}
  {
  }

  // What slot i of table f holds: nothing when absent, else the table it points
  // at and all that hangs below.
  lemma SlotHolds(m: Mem, tab: Tabs, kroot: nat, f: nat, i: nat)
    requires Shape(m, tab, kroot) && f in tab && InMem(m, f) && tab[f].root != kroot && |tab[f].path| < 3 && i < 512
    requires tab[f].path == [] ==> i < 256
    ensures var r, p, e := tab[f].root, tab[f].path, Entry(m, f, i);
            && (!Present(e) ==> Slot(tab, r, p, i) == {})
            && (Present(e) ==>
                  var c := FrameOf(e);
                  && c in tab && tab[c] == Tab(r, p + [i], f) && InMem(m, c) && c >= 1
                  && Slot(tab, r, p, i) == Under(tab, r, p + [i], 512) + {c}
                  && c !in Under(tab, r, p + [i], 512))
  {
    hide Entry, FrameOf, Rooted;
    var r, p, e := tab[f].root, tab[f].path, Entry(m, f, i);
    if Present(e) {
      ChildOf(m, tab, kroot, f, i);
    }
    forall g | g in Slot(tab, r, p, i)
      ensures Present(e) && (g == FrameOf(e) || g in Under(tab, r, p + [i], 512))
    {
      SlotOf(m, tab, kroot, f, i, g);
    }
    forall g | g in Under(tab, r, p + [i], 512)
      ensures g in Slot(tab, r, p, i)
    {
      assert (p + [i])[..|p|] == p;
      assert tab[g].path[..|p|] == tab[g].path[..|p| + 1][..|p|];
      assert tab[g].path[|p|] == tab[g].path[..|p| + 1][|p|];
    }
  }

  lemma SlotOf(m: Mem, tab: Tabs, kroot: nat, f: nat, i: nat, g: nat)
    requires Shape(m, tab, kroot) && f in tab && InMem(m, f) && i < 512
    requires g in tab && tab[g].root == tab[f].root && |tab[g].path| > |tab[f].path|
    requires tab[g].path[..|tab[f].path|] == tab[f].path && tab[g].path[|tab[f].path|] == i
    ensures Present(Entry(m, f, i))
    ensures g == FrameOf(Entry(m, f, i)) || g in Under(tab, tab[f].root, tab[f].path + [i], 512)
  {
    hide Entry, FrameOf, Present, Huge, Shape;
    var p := tab[f].path;
    var a := Ancestor(m, tab, kroot, g, |p| + 1);
    assert tab[g].path[..|p| + 1] == p + [i];
    IsRooted(m, tab, kroot, a);
    assert (p + [i])[..|p|] == p;
    PathIsUnique(m, tab, kroot, f, tab[a].parent);
    if |tab[g].path| == |p| + 1 {
      assert tab[g].path == p + [i];
      PathIsUnique(m, tab, kroot, g, a);
    } else {
      var b := Ancestor(m, tab, kroot, g, |p| + 2);
      IsRooted(m, tab, kroot, b);
    }
  }

  lemma IsRooted(m: Mem, tab: Tabs, kroot: nat, g: nat)
    requires Shape(m, tab, kroot) && g in tab
    ensures Rooted(m, tab, g)
  {
  }

  function FreeEvents(fs: seq<nat>): seq<P.Event> {
    seq(|fs|, k requires 0 <= k < |fs| => P.Event.Free(fs[k]))
  }

  // The log grew by one free for each frame of s, in the order of fs.
  ghost predicate FreedExactly(log: seq<P.Event>, log': seq<P.Event>, s: set<nat>, fs: seq<nat>) {
    && log' == log + FreeEvents(fs)
    && (forall j, k :: 0 <= j < k < |fs| ==> fs[j] != fs[k])
    && (forall f :: f in fs <==> f in s)
  }

  lemma FreedTwice(log: seq<P.Event>, log1: seq<P.Event>, log2: seq<P.Event>, s: set<nat>, t: set<nat>,
                   fs: seq<nat>, gs: seq<nat>)
    requires FreedExactly(log, log1, s, fs) && FreedExactly(log1, log2, t, gs) && s !! t
    ensures FreedExactly(log, log2, s + t, fs + gs)
  {
    assert FreeEvents(fs + gs) == FreeEvents(fs) + FreeEvents(gs);
    forall j, k | 0 <= j < k < |fs + gs|
      ensures (fs + gs)[j] != (fs + gs)[k]
    {
      if j < |fs| <= k {
        assert fs[j] in fs && gs[k - |fs|] in gs;
      }
    }
  }

  lemma FreedOne(log: seq<P.Event>, f: nat)
    ensures FreedExactly(log, log + [P.Event.Free(f)], {f}, [f])
    ensures FreedExactly(log, log, {}, [])
  {
    assert FreeEvents([f]) == [P.Event.Free(f)];
    assert FreeEvents([]) == [];
    assert log + [] == log;
  }

  lemma FaultsStill(m: Mem, m': Mem, tab: Tabs, r: nat, v: nat)
    requires StillFaults(m, m', tab) && IsRoot(tab, r) && HwWalk(m, r, v, 3) == Fault
    ensures HwWalk(m', r, v, 3) == Fault
  {
  }

  lemma EmptyRoot(m: Mem, c: nat, v: nat)
    requires ZeroTable(m, c)
    ensures HwWalk(m, c, v, 3) == Fault
  {
    hide Index, Entry;
    assert Entry(m, c, Index(v, 0)) == 0;
    assert HwWalk(m, c, v, 0) == Table(c);
    AbsentFaults(m, c, v, 0, c);
    FaultStays(m, c, v, 1, 3);
  }

  // The frames page i of the window can still cost.
  lemma MissingBound(m: Mem, kroot: nat, hhdm: nat, i: nat)
    requires hhdm % 0x20_0000 == 0 && i < WINDOW && (i > 0 ==> HasWindow(m, kroot, hhdm, i - 1))
    ensures Missing(m, kroot, WindowAddr(hhdm, i)) <= Spent(hhdm, i + 1) - Spent(hhdm, i) + 1
  {
    hide HwWalk, HasWindow;
    if i > 0 {
      WindowMissing(m, kroot, hhdm, i);
      hide Spent;
    }
  }

  // Making the two upper tables for page i leaves the window as it was.
  lemma WindowAfter(m0: Mem, m1: Mem, m2: Mem, tab0: Tabs, tab1: Tabs, kroot: nat, hhdm: nat, i: nat)
    requires Shape(m0, tab0, kroot) && Shape(m1, tab1, kroot) && IsRoot(tab0, kroot) && IsRoot(tab1, kroot)
    requires EntriesKept(m0, m1, tab0) && EntriesKept(m1, m2, tab1)
    requires StillFaults(m0, m1, tab0) && StillFaults(m1, m2, tab1) && i <= WINDOW
    requires forall j :: 0 <= j < i ==> HasWindow(m0, kroot, hhdm, j)
    requires forall j :: i <= j < WINDOW ==> Unmapped(m0, kroot, hhdm, j)
    ensures forall j :: 0 <= j < i ==> HasWindow(m2, kroot, hhdm, j)
    ensures forall j :: i <= j < WINDOW ==> Unmapped(m2, kroot, hhdm, j)
  {
    hide HasWindow, Shape, EntriesKept, HwWalk, StillFaults;
    forall j | 0 <= j < i
      ensures HasWindow(m2, kroot, hhdm, j)
    {
      WindowKept(m0, m1, tab0, kroot, hhdm, j);
      WindowKept(m1, m2, tab1, kroot, hhdm, j);
    }
    forall j | i <= j < WINDOW
      ensures Unmapped(m2, kroot, hhdm, j)
    {
      assert Unmapped(m0, kroot, hhdm, j);
      FaultsStill(m0, m1, tab0, kroot, WindowAddr(hhdm, j));
      FaultsStill(m1, m2, tab1, kroot, WindowAddr(hhdm, j));
    }
  }

  // The page-directory entry for page i is still absent and may be written.
  lemma ReadyEntry(m: Mem, tab: Tabs, kroot: nat, virt: nat, f: nat, i: nat)
    requires Shape(m, tab, kroot) && IsRoot(tab, kroot) && f in tab && |tab[f].path| == 2 && InMem(m, f)
    requires HwWalk(m, kroot, virt, 2) == Table(f) && HwWalk(m, kroot, virt, 3) == Fault && i < WINDOW
    requires virt < 0x1_0000_0000_0000_0000
    ensures WindowEntry(i) < TWO64 && Missing(m, kroot, virt) == 1
    ensures tab[f].root == kroot && CanWrite(m, tab, kroot, f, Index(virt, 2), WindowEntry(i))
  {
    hide Index, Entry, Shape, WindowEntry, EntryRights;
    WindowBits(i, virt);
    WalkMeets(m, tab, kroot, kroot, virt, 2);
    TableOneUp(m, kroot, virt);
    assert !Present(Entry(m, f, Index(virt, 2)));
  }

  // The tables above a window page that is in place.
  lemma WindowPath(m: Mem, tab: Tabs, kroot: nat, hhdm: nat, j: nat) returns (f1: nat, f2: nat)
    requires Shape(m, tab, kroot) && IsRoot(tab, kroot) && HasWindow(m, kroot, hhdm, j)
    ensures var v := WindowAddr(hhdm, j);
            && f1 in tab && f2 in tab && InMem(m, f1) && InMem(m, f2) && InMem(m, kroot)
            && Present(Entry(m, kroot, Index(v, 0))) && FrameOf(Entry(m, kroot, Index(v, 0))) == f1
            && Present(Entry(m, f1, Index(v, 1))) && FrameOf(Entry(m, f1, Index(v, 1))) == f2
            && Entry(m, f2, Index(v, 2)) == WindowEntry(j)
  {
    hide Index, Entry, Shape, WindowEntry, FrameOf, HwFrame, EntryRights;
    var v := WindowAddr(hhdm, j);
    f2 := HwWalk(m, kroot, v, 2).frame;
    TableOneUp(m, kroot, v);
    f1 := HwWalk(m, kroot, v, 1).frame;
    WalkMeets(m, tab, kroot, kroot, v, 1);
    WalkMeets(m, tab, kroot, kroot, v, 2);
    TableInMem(m, tab, kroot, kroot);
    TableInMem(m, tab, kroot, f1);
    TableInMem(m, tab, kroot, f2);
    assert HwWalk(m, kroot, v, 0) == Table(kroot);
    ChildOf(m, tab, kroot, kroot, Index(v, 0));
    ChildOf(m, tab, kroot, f1, Index(v, 1));
  }

  lemma SameValue(m: Mem, f: nat, i: nat)
    requires InMem(m, f) && i < 512
    ensures Put(m, f, i, Entry(m, f, i)) == m
  {
  }

  lemma ZeroedFacts(m: Mem, m1: Mem, c: nat)
    requires Zeroed(m, m1, c)
    ensures ZeroTable(m1, c)
  {
  }

  lemma EmptyWindow(m: Mem, c: nat, hhdm: nat)
    requires ZeroTable(m, c)
    ensures forall j :: 0 <= j < WINDOW ==> Unmapped(m, c, hhdm, j)
  {
    hide HwWalk, ZeroTable;
    forall j | 0 <= j < WINDOW
      ensures Unmapped(m, c, hhdm, j)
    {
      EmptyRoot(m, c, WindowAddr(hhdm, j));
    }
  }

  // Writing window page i moves on from i pages in place to i + 1.
  lemma WindowMore(m: Mem, tab: Tabs, kroot: nat, hhdm: nat, f: nat, i: nat, e: Word)
    requires hhdm % 0x20_0000 == 0 && IsRoot(tab, kroot) && i < WINDOW && e == WindowEntry(i) && InMem(m, f)
    requires CanWrite(m, tab, kroot, f, Index(WindowAddr(hhdm, i), 2), e) && f in tab && |tab[f].path| == 2
    requires HwWalk(m, kroot, WindowAddr(hhdm, i), 2) == Table(f) && Guarded(m, tab, kroot)
    requires forall j :: 0 <= j < i ==> HasWindow(m, kroot, hhdm, j)
    requires forall j :: i <= j < WINDOW ==> Unmapped(m, kroot, hhdm, j)
    ensures var m' := Put(m, f, Index(WindowAddr(hhdm, i), 2), e);
            && Guarded(m', tab, kroot)
            && (forall j :: 0 <= j <= i ==> HasWindow(m', kroot, hhdm, j))
            && (forall j :: i < j < WINDOW ==> Unmapped(m', kroot, hhdm, j))
  {
    hide HasWindow, Unmapped, Guarded, HwWalk, Put, CanWrite, Index, WindowEntry, WindowAddr;
    GuardedWrite(m, tab, kroot, f, Index(WindowAddr(hhdm, i), 2), e);
    forall j | 0 <= j < WINDOW
      ensures j <= i ==> HasWindow(Put(m, f, Index(WindowAddr(hhdm, i), 2), e), kroot, hhdm, j)
      ensures j > i ==> Unmapped(Put(m, f, Index(WindowAddr(hhdm, i), 2), e), kroot, hhdm, j)
    {
      WindowWritten(m, tab, kroot, hhdm, f, i, j);
    }
  }

  // The first 4 GiB are at hhdm, through huge entries and for the kernel alone.
  ghost predicate WindowMapped(m: Mem, kroot: nat, hhdm: nat) {
    forall x: nat :: x < 0x1_0000_0000 ==>
      && HwWalk(m, kroot, hhdm + x, 3) == Phys(x) && KernelOnly(m, kroot, hhdm + x)
      && HwTranslate(m, kroot, hhdm + x) == Some(Mapping(x, KERNEL))
  }

  // The whole window in place maps the first 4 GiB one to one, for the kernel alone.
  lemma WholeWindow(m: Mem, tab: Tabs, kroot: nat, hhdm: nat)
    requires Shape(m, tab, kroot) && IsRoot(tab, kroot) && Guarded(m, tab, kroot)
    requires hhdm % 0x20_0000 == 0 && forall j :: 0 <= j < WINDOW ==> HasWindow(m, kroot, hhdm, j)
    ensures WindowMapped(m, kroot, hhdm)
  {
    hide HwWalk, HwTranslate, HasWindow, Guarded, KernelOnly, Shape;
    forall x: nat | x < 0x1_0000_0000
      ensures HwWalk(m, kroot, hhdm + x, 3) == Phys(x) && KernelOnly(m, kroot, hhdm + x)
      ensures HwTranslate(m, kroot, hhdm + x) == Some(Mapping(x, KERNEL))
    {
      assert HasWindow(m, kroot, hhdm, x / 0x20_0000);
      WindowTranslates(m, kroot, hhdm, x);
      WindowForKernel(m, tab, kroot, hhdm, x);
    }
  }

  lemma ConservedTwice(free: set<nat>, tab: Tabs, free1: set<nat>, tab1: Tabs, free2: set<nat>, tab2: Tabs)
    ensures Conserved(free, tab, free, tab)
    ensures Conserved(free, tab, free1, tab1) && Conserved(free1, tab1, free2, tab2) ==>
              Conserved(free, tab, free2, tab2)
  {
  }

  // Taking frame c as the table at its own root.
  lemma RootConserved(free: set<nat>, tab: Tabs, c: nat, t: Tab)
    requires c in free
    ensures Conserved(free, tab, free - {c}, tab[c := t])
  {
    assert tab[c := t].Keys == tab.Keys + {c};
  }

  lemma RootInTab(tab: Tabs, r: nat)
    requires IsRoot(tab, r)
    ensures r in tab && tab[r].path == []
  {
  }

  lemma SpentFirst(hhdm: nat)
    ensures Spent(hhdm, 0) == 1
  {
  }

  // ---------- whole runs ----------

  // What a client does with address spaces, named by the handles it was given.
  datatype Op =
    | Create
    | MapPage(space: nat, virt: Word, phys: Word, flags: Word)
    | UnmapPage(space: nat, virt: Word)
    | Destroy(space: nat)
  {
    // Maps stay below the shared upper half.
    predicate Lower() {
      match this
      case MapPage(_, virt, _, _) => Index(virt, 0) < 256
      case UnmapPage(_, virt) => Index(virt, 0) < 256
      case _ => true
    }
  }

  ghost predicate RootsInside(tab: Tabs) {
    forall f {:trigger tab[f]} :: f in tab ==> tab[f].root in tab
  }

  ghost predicate RootsOpen(tab0: Tabs, tab: Tabs, kroot: nat, roots: set<nat>) {
    forall r :: r in roots ==> IsRoot(tab, r) && r !in tab0 && r != kroot
  }

  ghost predicate OnlyOpen(tab0: Tabs, tab: Tabs, roots: set<nat>) {
    forall f :: f in tab && f !in tab0 ==> tab[f].root in roots && (tab[f].path == [] || tab[f].path[0] < 256)
  }

  // The tables beyond tab0 all belong to the open spaces, below their lower halves.
  ghost predicate OpenSpaces(tab0: Tabs, tab: Tabs, kroot: nat, roots: set<nat>) {
    && Extends(tab0, tab) && RootsInside(tab0)
    && RootsOpen(tab0, tab, kroot, roots) && OnlyOpen(tab0, tab, roots)
  }

  lemma OpenFirst(m: Mem, tab: Tabs, kroot: nat)
    requires Shape(m, tab, kroot)
    ensures OpenSpaces(tab, tab, kroot, {})
  {
    RootsAreTables(m, tab, kroot);
  }

  lemma OpenOne(tab0: Tabs, tab: Tabs, kroot: nat, roots: set<nat>, c: nat)
    requires OpenSpaces(tab0, tab, kroot, roots) && c !in tab && c != kroot
    ensures OpenSpaces(tab0, tab[c := Tab(c, [], c)], kroot, roots + {c})
  {
    hide RootsInside, RootsOpen, OnlyOpen;
    RootsOpenOne(tab0, tab, kroot, roots, c);
    OnlyOpenOne(tab0, tab, roots, c);
  }

  lemma RootsOpenOne(tab0: Tabs, tab: Tabs, kroot: nat, roots: set<nat>, c: nat)
    requires RootsOpen(tab0, tab, kroot, roots) && Extends(tab0, tab) && c !in tab && c != kroot
    ensures RootsOpen(tab0, tab[c := Tab(c, [], c)], kroot, roots + {c})
  {
  }

  lemma OnlyOpenOne(tab0: Tabs, tab: Tabs, roots: set<nat>, c: nat)
    requires OnlyOpen(tab0, tab, roots)
    ensures OnlyOpen(tab0, tab[c := Tab(c, [], c)], roots + {c})
  {
  }

  lemma OpenGrows(tab0: Tabs, tab: Tabs, tab': Tabs, kroot: nat, roots: set<nat>, root: nat, virt: nat)
    requires OpenSpaces(tab0, tab, kroot, roots) && root in roots && Index(virt, 0) < 256
    requires Extends(tab, tab') && AddedUnder(tab, tab', kroot, root, virt)
    ensures OpenSpaces(tab0, tab', kroot, roots)
  {
    hide RootsInside, RootsOpen, OnlyOpen, Extends, AddedUnder, Index;
    GrownKeeps(tab0, tab, tab');
    GrownOpen(tab0, tab, tab', kroot, roots);
    GrownOnly(tab0, tab, tab', kroot, roots, root, virt);
  }

  lemma GrownKeeps(tab0: Tabs, tab: Tabs, tab': Tabs)
    requires Extends(tab0, tab) && Extends(tab, tab')
    ensures Extends(tab0, tab')
  {
  }

  lemma GrownOpen(tab0: Tabs, tab: Tabs, tab': Tabs, kroot: nat, roots: set<nat>)
    requires RootsOpen(tab0, tab, kroot, roots) && Extends(tab, tab')
    ensures RootsOpen(tab0, tab', kroot, roots)
  {
  }

  lemma GrownOnly(tab0: Tabs, tab: Tabs, tab': Tabs, kroot: nat, roots: set<nat>, root: nat, virt: nat)
    requires OnlyOpen(tab0, tab, roots) && root in roots && Index(virt, 0) < 256
    requires Extends(tab, tab') && AddedUnder(tab, tab', kroot, root, virt)
    ensures OnlyOpen(tab0, tab', roots)
  {
    hide Index;
  }

  // Closing a space gives back every table it had.
  lemma OpenCloses(tab0: Tabs, tab: Tabs, free: set<nat>, kroot: nat, roots: set<nat>, r: nat)
    requires OpenSpaces(tab0, tab, kroot, roots) && r in roots
    ensures OpenSpaces(tab0, Without(tab, r), kroot, roots - {r})
    ensures Conserved(free, tab, free + Doomed(tab, r), Without(tab, r))
  {
    hide RootsInside, RootsOpen, OnlyOpen, Extends, Without, Doomed;
    ClosedKeeps(tab0, tab, kroot, roots, r);
    ClosedRoots(tab0, tab, kroot, roots, r);
    ClosedOnly(tab0, tab, kroot, roots, r);
    ClosedKeys(tab0, tab, kroot, roots, r);
  }

  lemma ClosedKeeps(tab0: Tabs, tab: Tabs, kroot: nat, roots: set<nat>, r: nat)
    requires Extends(tab0, tab) && RootsInside(tab0) && RootsOpen(tab0, tab, kroot, roots) && r in roots
    ensures Extends(tab0, Without(tab, r))
  {
    forall f | f in tab0
      ensures tab[f].root != r
    {
      assert tab[f] == tab0[f];
    }
  }

  lemma ClosedRoots(tab0: Tabs, tab: Tabs, kroot: nat, roots: set<nat>, r: nat)
    requires RootsOpen(tab0, tab, kroot, roots) && r in roots
    ensures RootsOpen(tab0, Without(tab, r), kroot, roots - {r})
  {
  }

  lemma ClosedOnly(tab0: Tabs, tab: Tabs, kroot: nat, roots: set<nat>, r: nat)
    requires OnlyOpen(tab0, tab, roots)
    ensures OnlyOpen(tab0, Without(tab, r), roots - {r})
  {
  }

  lemma ClosedKeys(tab0: Tabs, tab: Tabs, kroot: nat, roots: set<nat>, r: nat)
    requires Extends(tab0, tab) && RootsInside(tab0) && RootsOpen(tab0, tab, kroot, roots)
    requires OnlyOpen(tab0, tab, roots) && r in roots
    ensures tab.Keys == Without(tab, r).Keys + Doomed(tab, r)
  {
    forall f | f in tab
      ensures f in Without(tab, r) || f in Doomed(tab, r)
    {
      if f in tab0 {
        assert tab[f] == tab0[f];
      }
    }
  }

  // With no space open, nothing is left over.
  lemma OpenLast(tab0: Tabs, free0: set<nat>, tab: Tabs, free: set<nat>, kroot: nat)
    requires OpenSpaces(tab0, tab, kroot, {}) && Conserved(free0, tab0, free, tab)
    requires tab0.Keys !! free0 && tab.Keys !! free
    ensures tab == tab0 && free == free0
  {
    assert tab.Keys == tab0.Keys;
  }

  // The virtual handles of root frames.
  function Handles(roots: set<nat>, hhdm: nat): set<nat> {
    set r | r in roots :: 0x1000 * r + hhdm
  }

  lemma HandleAdded(roots: set<nat>, hhdm: nat, c: nat)
    ensures Handles(roots + {c}, hhdm) == Handles(roots, hhdm) + {0x1000 * c + hhdm}
  {
  }

  lemma HandleRemoved(roots: set<nat>, hhdm: nat, c: nat)
    ensures Handles(roots - {c}, hhdm) == Handles(roots, hhdm) - {0x1000 * c + hhdm}
  {
    forall h | h in Handles(roots, hhdm) && h != 0x1000 * c + hhdm
      ensures h in Handles(roots - {c}, hhdm)
    {
      var r := OfHandle(roots, hhdm, h);
      assert r in roots - {c};
    }
  }

  lemma NoHandles(roots: set<nat>, hhdm: nat)
    ensures Handles(roots, hhdm) == {} ==> roots == {}
  {
    if r :| r in roots {
      assert 0x1000 * r + hhdm in Handles(roots, hhdm);
    }
  }

  lemma OfHandle(roots: set<nat>, hhdm: nat, pm: nat) returns (r: nat)
    requires pm in Handles(roots, hhdm)
    ensures r in roots && pm == 0x1000 * r + hhdm && r == (pm - hhdm) / 0x1000
  {
    r :| r in roots && pm == 0x1000 * r + hhdm;
  }

  lemma OpenOld(tab0: Tabs, tab: Tabs, kroot: nat, roots: set<nat>)
    requires OpenSpaces(tab0, tab, kroot, roots)
    ensures Extends(tab0, tab)
    ensures forall r :: r in roots ==> IsRoot(tab, r) && r !in tab0 && r != kroot
  {
  }

  // The lower half of a user space holds no huge entry.
  lemma {:induction false} UserWalk(m: Mem, tab: Tabs, kroot: nat, root: nat, virt: nat, d: nat)
    requires Shape(m, tab, kroot) && IsRoot(tab, root) && root != kroot && Index(virt, 0) < 256 && d <= 3
    ensures !HwWalk(m, root, virt, d).Phys?
  {
    hide Index, Entry, Rooted, Hangs;
    if d > 0 {
      UserWalk(m, tab, kroot, root, virt, d - 1);
      WalkMeets(m, tab, kroot, root, virt, d - 1);
    }
  }

  lemma RemappedElsewhere(m: Mem, m1: Mem, m2: Mem, tab0: Tabs, tab1: Tabs, root: nat, virt: nat,
                          present: bool, frame: nat, may: Access)
    requires SameTranslations(m, m1, tab0) && Remapped(m1, m2, tab1, root, virt, present, frame, may)
    requires Extends(tab0, tab1) && root !in tab0 && Index(virt, 0) < 256
    ensures SameTranslations(m, m2, tab0)
  {
    hide HwTranslate, SamePage, Index, Meaning, WalkRights;
    forall r, v: nat | IsRoot(tab0, r)
      ensures HwTranslate(m2, r, v) == HwTranslate(m, r, v)
    {
      assert IsRoot(tab1, r);
    }
  }

  lemma SameTwice(m: Mem, m1: Mem, m2: Mem, tab0: Tabs, tab1: Tabs)
    requires SameTranslations(m, m1, tab0) && SameTranslations(m1, m2, tab1) && Extends(tab0, tab1)
    ensures SameTranslations(m, m2, tab0)
  {
    hide HwTranslate;
    forall r, v: nat | IsRoot(tab0, r)
      ensures HwTranslate(m2, r, v) == HwTranslate(m, r, v)
    {
      assert IsRoot(tab1, r);
    }
  }
}
