// Four-level paging as the processor walks it (Intel SDM volume 3A, section
// 4.5), over a snapshot of physical memory: 512 words to a frame.

module PageTable {
  import opened Machine

  type Mem = m: seq<Word> | |m| % 512 == 0 && |m| / 512 <= 0x100_0000_0000

  // ---------- addresses ----------

  // The table index of a virtual address at depth d: 0 is the PML4, 3 the page table.
  function Index(virt: nat, d: nat): (i: nat)
    requires d < 4
    ensures i < 512
  {
    if d == 0 then virt / 0x80_0000_0000 % 512
    else if d == 1 then virt / 0x4000_0000 % 512
    else if d == 2 then virt / 0x20_0000 % 512
    else virt / 0x1000 % 512
  }

  function Path(virt: nat, d: nat): (p: seq<nat>)
    requires d <= 4
    ensures |p| == d
  {
    if d == 0 then [] else Path(virt, d - 1) + [Index(virt, d - 1)]
  }

  // Two addresses that agree in bits 12 to 47.
  predicate SamePage(v: nat, w: nat) {
    v / 0x1000 % 0x10_0000_0000 == w / 0x1000 % 0x10_0000_0000
  }

  function PageNumber(i0: nat, i1: nat, i2: nat, i3: nat): nat {
    i0 * 0x800_0000 + i1 * 0x4_0000 + i2 * 512 + i3
  }

  lemma PageNumberOf(v: nat)
    ensures v / 0x1000 % 0x10_0000_0000 == PageNumber(Index(v, 0), Index(v, 1), Index(v, 2), Index(v, 3))
  {
    var p, off := v / 0x1000, v % 0x1000;
    var q2, i3 := p / 512, p % 512;
    var q1, i2 := q2 / 512, q2 % 512;
    var q0, i1 := q1 / 512, q1 % 512;
    var top, i0 := q0 / 512, q0 % 512;
    Quotient(v, 0x20_0000, q2, 0x1000 * i3 + off);
    Quotient(v, 0x4000_0000, q1, 0x20_0000 * i2 + 0x1000 * i3 + off);
    Quotient(v, 0x80_0000_0000, q0, 0x4000_0000 * i1 + 0x20_0000 * i2 + 0x1000 * i3 + off);
    Quotient(p, 0x10_0000_0000, top, PageNumber(i0, i1, i2, i3));
  }

  lemma PageNumberInjective(a0: nat, a1: nat, a2: nat, a3: nat, b0: nat, b1: nat, b2: nat, b3: nat)
    requires a1 < 512 && a2 < 512 && a3 < 512 && b1 < 512 && b2 < 512 && b3 < 512
    requires PageNumber(a0, a1, a2, a3) == PageNumber(b0, b1, b2, b3)
    ensures a0 == b0 && a1 == b1 && a2 == b2 && a3 == b3
  {
    assert a1 * 0x4_0000 + a2 * 512 + a3 < 0x800_0000 && b1 * 0x4_0000 + b2 * 512 + b3 < 0x800_0000;
    assert a0 == b0;
    assert a2 * 512 + a3 < 0x4_0000 && b2 * 512 + b3 < 0x4_0000;
    assert a1 == b1;
  }

  // A page is what its four table indices say it is.
  lemma SamePath(v: nat, w: nat)
    ensures SamePage(v, w) <==> Path(v, 4) == Path(w, 4)
    ensures SamePage(v, w) <==> Path(v, 3) == Path(w, 3) && Index(v, 3) == Index(w, 3)
  {
    PageNumberOf(v);
    PageNumberOf(w);
    PathIndex(v, 4);
    PathIndex(w, 4);
    var a, b := Path(v, 4), Path(w, 4);
    if SamePage(v, w) {
      PageNumberInjective(Index(v, 0), Index(v, 1), Index(v, 2), Index(v, 3),
                          Index(w, 0), Index(w, 1), Index(w, 2), Index(w, 3));
      assert a == b;
    }
    assert a == b ==> a[0] == b[0] && a[1] == b[1] && a[2] == b[2] && a[3] == b[3];
    assert a == Path(v, 3) + [Index(v, 3)] && b == Path(w, 3) + [Index(w, 3)];
    assert a[..3] == Path(v, 3) && b[..3] == Path(w, 3) && a[3] == Index(v, 3) && b[3] == Index(w, 3);
  }

  lemma {:induction false} PathIndex(v: nat, n: nat)
    requires n <= 4
    ensures forall d :: 0 <= d < n ==> Path(v, n)[d] == Index(v, d)
  {
    if n > 0 {
      PathIndex(v, n - 1);
    }
  }

  // ---------- entries ----------

  predicate Present(e: Word) { e % 2 == 1 }

  predicate Huge(e: Word) { e / 128 % 2 == 1 }

  // The frame the kernel reads out of an entry: e & ~0xFFF.
  function FrameOf(e: Word): nat { e / 0x1000 }

  // The frame the processor reads out of an entry: bits 12 to 51.
  function HwFrame(e: Word): nat { e / 0x1000 % 0x100_0000_0000 }

  predicate InMem(m: Mem, f: nat) { 512 * f + 512 <= |m| }

  function Entry(m: Mem, f: nat, i: nat): Word
    requires InMem(m, f) && i < 512
  {
    m[512 * f + i]
  }

  // ---------- the processor's walk ----------

  datatype Walk = Fault | Table(frame: nat) | Phys(addr: nat)

  function HwDecode(e: Word, d: nat, virt: nat): Walk
    requires d < 4
  {
    if !Present(e) then Fault
    else if d == 3 then Phys(0x1000 * HwFrame(e) + virt % 0x1000)
    else if d == 2 && Huge(e) then Phys(0x20_0000 * (e / 0x20_0000 % 0x8000_0000) + virt % 0x20_0000)
    else if d == 1 && Huge(e) then Phys(0x4000_0000 * (e / 0x4000_0000 % 0x40_0000) + virt % 0x4000_0000)
    else Table(HwFrame(e))
  }

  function HwStep(m: Mem, w: Walk, d: nat, virt: nat): Walk
    requires d < 4
  {
    match w
    case Table(f) => if InMem(m, f) then HwDecode(Entry(m, f, Index(virt, d)), d, virt) else Fault
    case _ => w
  }

  // What the walk has reached after consulting d tables.
  function HwWalk(m: Mem, root: nat, virt: nat, d: nat): Walk
    requires d <= 4
  {
    if d == 0 then Table(root) else HwStep(m, HwWalk(m, root, virt, d - 1), d - 1, virt)
  }

  // ---------- access rights ----------

  const NX: nat := 0x8000_0000_0000_0000

  // What a page allows besides reading by the kernel: writing, access from user mode, and
  // fetching code (section 4.6, with execute-disable in use).
  datatype Access = Access(write: bool, user: bool, exec: bool)

  // What both allow.
  function Both(a: Access, b: Access): Access {
    Access(a.write && b.write, a.user && b.user, a.exec && b.exec)
  }

  const ANY := Access(true, true, true)
  const NOTHING := Access(false, false, true)

  // Bits 1, 2 and 63 of an entry.
  function EntryRights(e: Word): Access {
    Access(e / 2 % 2 == 1, e / 4 % 2 == 1, e < NX)
  }

  // What the entry consulted at depth d leaves allowed; an absent one takes nothing away.
  function StepRights(m: Mem, w: Walk, d: nat, virt: nat): Access
    requires d < 4
  {
    match w
    case Table(f) =>
      if InMem(m, f) && Present(Entry(m, f, Index(virt, d))) then EntryRights(Entry(m, f, Index(virt, d))) else ANY
    case _ => ANY
  }

  // What all entries consulted in the first d tables allow.
  function WalkRights(m: Mem, root: nat, virt: nat, d: nat): Access
    requires d <= 4
  {
    if d == 0 then ANY
    else Both(WalkRights(m, root, virt, d - 1), StepRights(m, HwWalk(m, root, virt, d - 1), d - 1, virt))
  }

  // A translated address, and what may be done there.
  datatype Mapping = Mapping(addr: nat, may: Access)

  function HwTranslate(m: Mem, root: nat, virt: nat): Option<Mapping> {
    match HwWalk(m, root, virt, 4)
    case Phys(addr) => Some(Mapping(addr, WalkRights(m, root, virt, 4)))
    case _ => None
  }

  // Equal indices lead to equal tables, and fault together.
  lemma {:induction false} WalkByPath(m: Mem, root: nat, v: nat, w: nat, d: nat)
    requires d <= 4 && Path(v, d) == Path(w, d)
    ensures HwWalk(m, root, v, d).Table? ==> HwWalk(m, root, w, d) == HwWalk(m, root, v, d)
    ensures HwWalk(m, root, v, d).Fault? ==> HwWalk(m, root, w, d).Fault?
  {
    if d > 0 {
      var p, q := Path(v, d), Path(w, d);
      assert p[d - 1] == q[d - 1] && p[..d - 1] == Path(v, d - 1) && q[..d - 1] == Path(w, d - 1);
      WalkByPath(m, root, v, w, d - 1);
    }
  }

  // And they allow the same.
  lemma {:induction false} RightsByPath(m: Mem, root: nat, v: nat, w: nat, d: nat)
    requires d <= 4 && Path(v, d) == Path(w, d)
    ensures WalkRights(m, root, v, d) == WalkRights(m, root, w, d)
  {
    hide Index, Entry, HwStep, EntryRights;
    if d > 0 {
      var p, q := Path(v, d), Path(w, d);
      assert p[d - 1] == q[d - 1] && p[..d - 1] == Path(v, d - 1) && q[..d - 1] == Path(w, d - 1);
      RightsByPath(m, root, v, w, d - 1);
      WalkByPath(m, root, v, w, d - 1);
      WalkByPath(m, root, w, v, d - 1);
    }
  }

  // ---------- who owns which table ----------

  // A table frame belongs to the address space rooted at root; path holds the
  // indices that lead to it and parent the table that points at it.
  datatype Tab = Tab(root: nat, path: seq<nat>, parent: nat)

  type Tabs = map<nat, Tab>

  predicate IsRoot(tab: Tabs, r: nat) {
    r in tab && tab[r] == Tab(r, [], r)
  }

  // The entry leads to a further table.
  predicate Child(m: Mem, f: nat, i: nat, d: nat)
    requires InMem(m, f) && i < 512
  {
    var e := Entry(m, f, i);
    d < 3 && Present(e) && !(d > 0 && Huge(e))
  }

  // Table c hangs from slot i of table f: it is f's own, or the kernel's
  // upper half shared by a user root.
  predicate Hangs(tab: Tabs, kroot: nat, f: nat, i: nat, c: nat)
    requires f in tab
  {
    && c in tab
    && (|| tab[c] == Tab(tab[f].root, tab[f].path + [i], f)
        || (tab[f].path == [] && i >= 256 && IsRoot(tab, kroot) && tab[c] == Tab(kroot, [i], kroot)))
  }

  // The pointer that keeps table c reachable from its own root.
  predicate Rooted(m: Mem, tab: Tabs, c: nat)
    requires c in tab
  {
    var t := tab[c];
    if t.path == [] then t == Tab(c, [], c)
    else
      var d := |t.path| - 1;
      && t.parent in tab && InMem(m, t.parent) && t.path[d] < 512
      && tab[t.parent].root == t.root && tab[t.parent].path == t.path[..d]
      && Child(m, t.parent, t.path[d], d) && FrameOf(Entry(m, t.parent, t.path[d])) == c
  }

  // Every table is reached once from the root that owns it, and nothing else is a table.
  ghost predicate Shape(m: Mem, tab: Tabs, kroot: nat) {
    && (forall f :: f in tab ==> f >= 1 && InMem(m, f) && |tab[f].path| <= 3)
    && (forall f :: f in tab ==> Rooted(m, tab, f))
    && (forall f, i :: f in tab && 0 <= i < 512 && Child(m, f, i, |tab[f].path|) ==>
          Hangs(tab, kroot, f, i, FrameOf(Entry(m, f, i))))
    && (forall f, i :: f in tab && 0 <= i < 512 && tab[f].root != kroot && 1 <= |tab[f].path| <= 2 ==>
          !(Present(Entry(m, f, i)) && Huge(Entry(m, f, i))))
  }

  lemma TableInMem(m: Mem, tab: Tabs, kroot: nat, f: nat)
    requires Shape(m, tab, kroot) && f in tab
    ensures f >= 1 && InMem(m, f) && |tab[f].path| <= 3
  {
  }

  // The root of table f, or the kernel's root seen through the shared upper half.
  predicate Belongs(tab: Tabs, kroot: nat, r: nat, virt: nat, f: nat)
    requires f in tab
  {
    tab[f].root == r || (Index(virt, 0) >= 256 && tab[f].root == kroot)
  }

  lemma FrameInMemory(m: Mem, e: Word)
    requires InMem(m, FrameOf(e))
    ensures HwFrame(e) == FrameOf(e)
  {
  }

  lemma ChildOf(m: Mem, tab: Tabs, kroot: nat, f: nat, i: nat)
    requires Shape(m, tab, kroot) && f in tab && i < 512 && Child(m, f, i, |tab[f].path|)
    ensures var c := FrameOf(Entry(m, f, i));
            && Hangs(tab, kroot, f, i, c) && InMem(m, c)
            && HwFrame(Entry(m, f, i)) == c
  {
    hide HwFrame, FrameOf, Entry, Child, Rooted;
    var e := Entry(m, f, i);
    assert Hangs(tab, kroot, f, i, FrameOf(e));
    FrameInMemory(m, e);
  }

  // The tables a walk meets are those whose recorded path is the address's own.
  lemma {:induction false} WalkMeets(m: Mem, tab: Tabs, kroot: nat, r: nat, virt: nat, d: nat)
    requires Shape(m, tab, kroot) && IsRoot(tab, r) && d <= 3
    ensures var w := HwWalk(m, r, virt, d);
            w.Table? ==> w.frame in tab && tab[w.frame].path == Path(virt, d) && Belongs(tab, kroot, r, virt, w.frame)
  {
    hide Index, Shape, Entry, FrameOf, HwFrame, Present, Huge, InMem;
    if d > 0 {
      WalkMeets(m, tab, kroot, r, virt, d - 1);
      if HwWalk(m, r, virt, d).Table? {
        var f := HwWalk(m, r, virt, d - 1).frame;
        ChildOf(m, tab, kroot, f, Index(virt, d - 1));
      }
    }
  }
}
