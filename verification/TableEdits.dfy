// How the edits the kernel makes to table memory act on the shape of the
// tables and on every translation.

module TableEdits {
  import opened Machine
  import opened PageTable

  function Put(m: Mem, f: nat, i: nat, e: Word): (m': Mem)
    requires InMem(m, f) && i < 512
    ensures |m'| == |m|
  {
    m[512 * f + i := e]
  }

  lemma EntryAfterPut(m: Mem, f: nat, i: nat, e: Word, g: nat, j: nat)
    requires InMem(m, f) && i < 512 && InMem(m, g) && j < 512
    ensures Entry(Put(m, f, i, e), g, j) == if g == f && j == i then e else Entry(m, g, j)
  {
  }

  // Two snapshots that hold the same tables.
  ghost predicate SameTables(m: Mem, m': Mem, tab: Tabs) {
    && |m| == |m'|
    && forall f, i :: f in tab && InMem(m, f) && 0 <= i < 512 ==> Entry(m', f, i) == Entry(m, f, i)
  }

  ghost predicate SameTranslations(m: Mem, m': Mem, tab: Tabs) {
    forall r, v: nat :: IsRoot(tab, r) ==> HwTranslate(m', r, v) == HwTranslate(m, r, v)
  }

  // The tables on the way to each page allow what they allowed.
  ghost predicate SameRights(m: Mem, m': Mem, tab: Tabs) {
    forall r, v: nat :: IsRoot(tab, r) ==> WalkRights(m', r, v, 3) == WalkRights(m, r, v, 3)
  }

  // No walk meets a huge entry where it met none before.
  ghost predicate NoNewHuge(m: Mem, m': Mem, tab: Tabs) {
    forall r, v: nat :: IsRoot(tab, r) && HwWalk(m', r, v, 3).Phys? ==> HwWalk(m, r, v, 3).Phys?
  }

  // Present entries of tables stay as they are.
  ghost predicate EntriesKept(m: Mem, m': Mem, tab: Tabs) {
    |m| == |m'| && forall f, i :: f in tab && InMem(m, f) && 0 <= i < 512 && Present(Entry(m, f, i)) ==>
      Entry(m', f, i) == Entry(m, f, i)
  }

  // Walks that fault before the last table keep faulting there.
  ghost predicate StillFaults(m: Mem, m': Mem, tab: Tabs) {
    forall r, v: nat :: IsRoot(tab, r) && HwWalk(m, r, v, 3) == Fault ==> HwWalk(m', r, v, 3) == Fault
  }

  // A walk that got somewhere gets there again.
  lemma {:induction false} KeptWalk(m: Mem, m': Mem, tab: Tabs, kroot: nat, r: nat, v: nat, d: nat)
    requires Shape(m, tab, kroot) && EntriesKept(m, m', tab) && IsRoot(tab, r) && d <= 4
    requires HwWalk(m, r, v, d) != Fault
    ensures HwWalk(m', r, v, d) == HwWalk(m, r, v, d) && WalkRights(m', r, v, d) == WalkRights(m, r, v, d)
  {
    hide Index, Entry, Shape, Path, Belongs, Present, EntryRights;
    if d > 0 {
      KeptWalk(m, m', tab, kroot, r, v, d - 1);
      WalkMeets(m, tab, kroot, r, v, d - 1);
    }
  }

  lemma SameTablesShape(m: Mem, m': Mem, tab: Tabs, kroot: nat)
    requires Shape(m, tab, kroot) && SameTables(m, m', tab)
    ensures Shape(m', tab, kroot)
  {
    hide Present, Huge, FrameOf, Entry, Hangs;
    forall f | f in tab
      ensures Rooted(m', tab, f)
    {
      assert Rooted(m, tab, f);
    }
  }

  lemma {:induction false} SameTablesWalk(m: Mem, m': Mem, tab: Tabs, kroot: nat, r: nat, v: nat, d: nat)
    requires Shape(m, tab, kroot) && SameTables(m, m', tab) && IsRoot(tab, r) && d <= 4
    ensures HwWalk(m', r, v, d) == HwWalk(m, r, v, d) && WalkRights(m', r, v, d) == WalkRights(m, r, v, d)
  {
    hide Index, Entry, HwDecode, Shape, Path, Belongs, EntryRights;
    if d > 0 {
      SameTablesWalk(m, m', tab, kroot, r, v, d - 1);
      WalkMeets(m, tab, kroot, r, v, d - 1);
    }
  }

  lemma SameTablesTranslate(m: Mem, m': Mem, tab: Tabs, kroot: nat)
    requires Shape(m, tab, kroot) && SameTables(m, m', tab)
    ensures SameTranslations(m, m', tab) && NoNewHuge(m, m', tab) && StillFaults(m, m', tab)
    ensures SameRights(m, m', tab)
  {
    hide HwWalk, WalkRights;
    forall r, v: nat | IsRoot(tab, r)
      ensures HwTranslate(m', r, v) == HwTranslate(m, r, v)
      ensures HwWalk(m', r, v, 3) == HwWalk(m, r, v, 3) && WalkRights(m', r, v, 3) == WalkRights(m, r, v, 3)
    {
      SameTablesWalk(m, m', tab, kroot, r, v, 3);
      SameTablesWalk(m, m', tab, kroot, r, v, 4);
    }
  }

  // ---------- hanging a fresh, zeroed table ----------

  ghost predicate ZeroTable(m: Mem, c: nat) {
    InMem(m, c) && forall i :: 0 <= i < 512 ==> Entry(m, c, i) == 0
  }

  // The entry that get_or_create (low == 7) or vmm_init (low == 3) writes.
  predicate Link(e: Word, c: nat) {
    e == 0x1000 * c + 7 || e == 0x1000 * c + 3
  }

  lemma LinkBits(e: Word, c: nat)
    requires Link(e, c)
    ensures Present(e) && !Huge(e) && FrameOf(e) == c
  {
    var low := e - 0x1000 * c;
    Quotient(e, 0x1000, c, low);
    Quotient(e, 128, 32 * c, low);
    Quotient(e, 2, 2048 * c + low / 2, 1);
  }

  // A link of get_or_create takes no right away; one of vmm_init keeps user mode out.
  lemma LinkRights(e: Word, c: nat)
    requires Link(e, c) && c <= 0x100_0000_0000
    ensures EntryRights(e) == Access(true, e == 0x1000 * c + 7, true)
  {
    var low := e - 0x1000 * c;
    Quotient(e, 2, 2048 * c + low / 2, 1);
    Quotient(2048 * c + low / 2, 2, 1024 * c + low / 4, 1);
    Quotient(e, 4, 1024 * c + low / 4, 3);
    Quotient(1024 * c + low / 4, 2, 512 * c, low / 4);
  }

  ghost predicate CanHang(m: Mem, tab: Tabs, kroot: nat, f: nat, i: nat, c: nat, e: Word) {
    && Shape(m, tab, kroot)
    && f in tab && |tab[f].path| < 3 && i < 512 && !Present(Entry(m, f, i))
    && c !in tab && c >= 1 && c != kroot && ZeroTable(m, c) && Link(e, c)
  }

  function HungTabs(tab: Tabs, f: nat, i: nat, c: nat): Tabs
    requires f in tab
  {
    tab[c := Tab(tab[f].root, tab[f].path + [i], f)]
  }

  lemma HangRooted(m: Mem, tab: Tabs, kroot: nat, f: nat, i: nat, c: nat, e: Word, g: nat)
    requires CanHang(m, tab, kroot, f, i, c, e) && g in HungTabs(tab, f, i, c)
    ensures Rooted(Put(m, f, i, e), HungTabs(tab, f, i, c), g)
  {
    hide Huge, FrameOf, Entry, Hangs, Put, Link;
    LinkBits(e, c);
    if g == c {
      EntryAfterPut(m, f, i, e, f, i);
    } else {
      assert Rooted(m, tab, g);
      if tab[g].path != [] {
        var t := tab[g];
        EntryAfterPut(m, f, i, e, t.parent, t.path[|t.path| - 1]);
      }
    }
  }

  lemma HangChild(m: Mem, tab: Tabs, kroot: nat, f: nat, i: nat, c: nat, e: Word, g: nat, j: nat)
    requires CanHang(m, tab, kroot, f, i, c, e) && g in HungTabs(tab, f, i, c) && j < 512
    ensures var m', tab' := Put(m, f, i, e), HungTabs(tab, f, i, c);
            && InMem(m', g)
            && (Child(m', g, j, |tab'[g].path|) ==> Hangs(tab', kroot, g, j, FrameOf(Entry(m', g, j))))
            && (tab'[g].root != kroot && 1 <= |tab'[g].path| <= 2 ==>
                  !(Present(Entry(m', g, j)) && Huge(Entry(m', g, j))))
  {
    hide FrameOf, Entry, Put, Link, Rooted;
    LinkBits(e, c);
    EntryAfterPut(m, f, i, e, g, j);
  }

  lemma HangShape(m: Mem, tab: Tabs, kroot: nat, f: nat, i: nat, c: nat, e: Word)
    requires CanHang(m, tab, kroot, f, i, c, e)
    ensures Shape(Put(m, f, i, e), HungTabs(tab, f, i, c), kroot)
  {
    hide FrameOf, Entry, Put, Link, Rooted, Hangs, Child, Present, Huge;
    var m', tab' := Put(m, f, i, e), HungTabs(tab, f, i, c);
    forall g | g in tab'
      ensures Rooted(m', tab', g)
    {
      HangRooted(m, tab, kroot, f, i, c, e, g);
    }
    forall g, j | g in tab' && 0 <= j < 512
      ensures InMem(m', g)
      ensures Child(m', g, j, |tab'[g].path|) ==> Hangs(tab', kroot, g, j, FrameOf(Entry(m', g, j)))
      ensures tab'[g].root != kroot && 1 <= |tab'[g].path| <= 2 ==>
                !(Present(Entry(m', g, j)) && Huge(Entry(m', g, j)))
    {
      HangChild(m, tab, kroot, f, i, c, e, g, j);
    }
  }

  // A walk changes only where it used to fault on the linked entry; it then
  // meets the empty table and faults one step later.
  lemma {:induction false} HangWalk(m: Mem, tab: Tabs, kroot: nat, f: nat, i: nat, c: nat, e: Word, r: nat,
                                    v: nat, d: nat)
    requires CanHang(m, tab, kroot, f, i, c, e) && IsRoot(tab, r) && d <= 4
    ensures var w, w' := HwWalk(m, r, v, d), HwWalk(Put(m, f, i, e), r, v, d);
            && (w != Fault ==> w' == w)
            && (w == Fault ==> w' == Fault || (d == |tab[f].path| + 1 && w' == Table(c)))
  {
    hide Index, Entry, Put, Link, Huge, FrameOf, HwFrame, Rooted, Hangs;
    if d > 0 {
      HangWalk(m, tab, kroot, f, i, c, e, r, v, d - 1);
      WalkMeets(m, tab, kroot, r, v, d - 1);
      var u, u' := HwWalk(m, r, v, d - 1), HwWalk(Put(m, f, i, e), r, v, d - 1);
      var j := Index(v, d - 1);
      if u'.Table? && InMem(m, u'.frame) {
        EntryAfterPut(m, f, i, e, u'.frame, j);
        if u' != u {
          assert u'.frame == c && Entry(m, c, j) == 0;
        } else if u.frame == f && j == i {
          LinkBits(e, c);
          FrameInMemory(m, e);
        }
      }
    }
  }

  // What the walk's entries allow stays the same where the walk got somewhere, and
  // everywhere for a link of get_or_create.
  lemma {:induction false} HangRights(m: Mem, tab: Tabs, kroot: nat, f: nat, i: nat, c: nat, e: Word, r: nat,
                                      v: nat, d: nat)
    requires CanHang(m, tab, kroot, f, i, c, e) && IsRoot(tab, r) && d <= 4
    ensures HwWalk(m, r, v, d) != Fault || e == 0x1000 * c + 7 ==>
              WalkRights(Put(m, f, i, e), r, v, d) == WalkRights(m, r, v, d)
  {
    hide Index, Entry, Put, Link, Huge, FrameOf, HwFrame, Rooted, Hangs, EntryRights;
    if d > 0 {
      HangRights(m, tab, kroot, f, i, c, e, r, v, d - 1);
      HangWalk(m, tab, kroot, f, i, c, e, r, v, d - 1);
      WalkMeets(m, tab, kroot, r, v, d - 1);
      var u, u' := HwWalk(m, r, v, d - 1), HwWalk(Put(m, f, i, e), r, v, d - 1);
      var j := Index(v, d - 1);
      LinkRights(e, c);
      if u'.Table? && InMem(m, u'.frame) {
        EntryAfterPut(m, f, i, e, u'.frame, j);
        if u' != u {
          assert u'.frame == c && Entry(m, c, j) == 0;
        }
      }
    }
  }

  lemma HangReaches(m: Mem, tab: Tabs, kroot: nat, f: nat, i: nat, c: nat, e: Word, r: nat, v: nat)
    requires CanHang(m, tab, kroot, f, i, c, e) && IsRoot(tab, r)
    requires HwWalk(m, r, v, |tab[f].path|) == Table(f) && Index(v, |tab[f].path|) == i
    ensures HwWalk(Put(m, f, i, e), r, v, |tab[f].path| + 1) == Table(c)
  {
    var d := |tab[f].path|;
    HangWalk(m, tab, kroot, f, i, c, e, r, v, d);
    EntryAfterPut(m, f, i, e, f, i);
    LinkBits(e, c);
    FrameInMemory(m, e);
    hide Index, Entry, Put, Link, Huge, FrameOf, HwFrame;
  }

  lemma HangFacts(m: Mem, tab: Tabs, kroot: nat, f: nat, i: nat, c: nat, e: Word)
    requires CanHang(m, tab, kroot, f, i, c, e)
    ensures Shape(m, tab, kroot) && f in tab && InMem(m, f) && c !in tab && i < 512 && |tab[f].path| < 3
  {
  }

  lemma HangTranslate(m: Mem, tab: Tabs, kroot: nat, f: nat, i: nat, c: nat, e: Word)
    requires CanHang(m, tab, kroot, f, i, c, e)
    ensures SameTranslations(m, Put(m, f, i, e), tab) && NoNewHuge(m, Put(m, f, i, e), tab)
    ensures |tab[f].path| < 2 ==> StillFaults(m, Put(m, f, i, e), tab)
    ensures e == 0x1000 * c + 7 ==> SameRights(m, Put(m, f, i, e), tab)
  {
    hide HwWalk, Put, WalkRights, CanHang;
    HangFacts(m, tab, kroot, f, i, c, e);
    forall r, v: nat | IsRoot(tab, r)
      ensures HwTranslate(Put(m, f, i, e), r, v) == HwTranslate(m, r, v)
      ensures e == 0x1000 * c + 7 ==> WalkRights(Put(m, f, i, e), r, v, 3) == WalkRights(m, r, v, 3)
      ensures HwWalk(Put(m, f, i, e), r, v, 3).Phys? ==> HwWalk(m, r, v, 3).Phys?
      ensures |tab[f].path| < 2 && HwWalk(m, r, v, 3) == Fault ==> HwWalk(Put(m, f, i, e), r, v, 3) == Fault
    {
      HangWalk(m, tab, kroot, f, i, c, e, r, v, 3);
      HangWalk(m, tab, kroot, f, i, c, e, r, v, 4);
      HangRights(m, tab, kroot, f, i, c, e, r, v, 3);
      HangRights(m, tab, kroot, f, i, c, e, r, v, 4);
    }
  }

  // ---------- rewriting an entry that leads to no table ----------

  // Neither before nor after does the entry point at a table.
  ghost predicate CanWrite(m: Mem, tab: Tabs, kroot: nat, f: nat, i: nat, e: Word) {
    && Shape(m, tab, kroot)
    && f in tab && i < 512
    && var d := |tab[f].path|;
    && !Child(m, f, i, d)
    && !(d < 3 && Present(e) && !(d > 0 && Huge(e)))
    && (tab[f].root != kroot && 1 <= d <= 2 ==> !(Present(e) && Huge(e)))
  }

  lemma WriteFacts(m: Mem, tab: Tabs, kroot: nat, f: nat, i: nat, e: Word)
    requires CanWrite(m, tab, kroot, f, i, e)
    ensures Shape(m, tab, kroot) && f in tab && InMem(m, f) && i < 512
  {
  }

  lemma WriteShape(m: Mem, tab: Tabs, kroot: nat, f: nat, i: nat, e: Word)
    requires CanWrite(m, tab, kroot, f, i, e)
    ensures Shape(Put(m, f, i, e), tab, kroot)
  {
    hide FrameOf, Entry, Put, Hangs, Present, Huge;
    var m' := Put(m, f, i, e);
    forall g | g in tab
      ensures Rooted(m', tab, g)
    {
      assert Rooted(m, tab, g);
      if tab[g].path != [] {
        EntryAfterPut(m, f, i, e, tab[g].parent, tab[g].path[|tab[g].path| - 1]);
      }
    }
    forall g, j | g in tab && 0 <= j < 512
      ensures InMem(m', g)
      ensures Child(m', g, j, |tab[g].path|) ==> Hangs(tab, kroot, g, j, FrameOf(Entry(m', g, j)))
      ensures tab[g].root != kroot && 1 <= |tab[g].path| <= 2 ==>
                !(Present(Entry(m', g, j)) && Huge(Entry(m', g, j)))
    {
      EntryAfterPut(m, f, i, e, g, j);
    }
  }

  // The walk for v consults entry (f, i).
  predicate Through(m: Mem, f: nat, i: nat, r: nat, v: nat, d: nat)
    requires d < 4
  {
    HwWalk(m, r, v, d) == Table(f) && Index(v, d) == i
  }

  // Exactly the walks through the entry change, and they end in its new value.
  lemma {:induction false} WriteWalk(m: Mem, tab: Tabs, kroot: nat, f: nat, i: nat, e: Word, r: nat, v: nat, d: nat)
    requires CanWrite(m, tab, kroot, f, i, e) && IsRoot(tab, r) && d <= 4
    ensures var k := |tab[f].path|;
            HwWalk(Put(m, f, i, e), r, v, d) ==
            if d > k && Through(m, f, i, r, v, k) then HwDecode(e, k, v) else HwWalk(m, r, v, d)
  {
    hide Index, Entry, Put, Shape, HwDecode, Hangs;
    TableInMem(m, tab, kroot, f);
    if d > 0 {
      var k := |tab[f].path|;
      WriteWalk(m, tab, kroot, f, i, e, r, v, d - 1);
      var u := HwWalk(m, r, v, d - 1);
      if d - 1 <= k {
        WalkMeets(m, tab, kroot, r, v, d - 1);
      } else if Through(m, f, i, r, v, k) {
        NoFurther(e, k, v);
      } else {
        WalkMeets(m, tab, kroot, r, v, d - 1);
      }
      if u.Table? && InMem(m, u.frame) {
        EntryAfterPut(m, f, i, e, u.frame, Index(v, d - 1));
      }
    }
  }

  // Up to the table written to, the entries consulted allow the same.
  lemma {:induction false} WriteRights(m: Mem, tab: Tabs, kroot: nat, f: nat, i: nat, e: Word, r: nat, v: nat, d: nat)
    requires CanWrite(m, tab, kroot, f, i, e) && IsRoot(tab, r) && d <= |tab[f].path| <= 3
    ensures WalkRights(Put(m, f, i, e), r, v, d) == WalkRights(m, r, v, d)
  {
    hide Index, Entry, Put, CanWrite, HwDecode, EntryRights, HwWalk, Path, Belongs, Shape, Through, Present;
    if d > 0 {
      WriteFacts(m, tab, kroot, f, i, e);
      WriteRights(m, tab, kroot, f, i, e, r, v, d - 1);
      WriteWalk(m, tab, kroot, f, i, e, r, v, d - 1);
      WalkMeets(m, tab, kroot, r, v, d - 1);
      var u := HwWalk(m, r, v, d - 1);
      if u.Table? && InMem(m, u.frame) {
        assert u.frame != f;
        EntryAfterPut(m, f, i, e, u.frame, Index(v, d - 1));
      }
    }
  }

  // A walk through a leaf ends with what that allows.
  lemma LeafRightsAfter(m: Mem, tab: Tabs, kroot: nat, f: nat, i: nat, e: Word, r: nat, v: nat)
    requires CanWrite(m, tab, kroot, f, i, e) && |tab[f].path| == 3 && IsRoot(tab, r)
    ensures Through(m, f, i, r, v, 3) && Present(e) ==>
              WalkRights(Put(m, f, i, e), r, v, 4) == Both(WalkRights(m, r, v, 3), EntryRights(e))
    ensures !Through(m, f, i, r, v, 3) ==> WalkRights(Put(m, f, i, e), r, v, 4) == WalkRights(m, r, v, 4)
  {
    hide Index, Entry, Put, CanWrite, HwDecode, EntryRights, HwWalk, Path, Belongs;
    WriteFacts(m, tab, kroot, f, i, e);
    WriteRights(m, tab, kroot, f, i, e, r, v, 3);
    WriteWalk(m, tab, kroot, f, i, e, r, v, 3);
    WalkMeets(m, tab, kroot, r, v, 3);
    var u := HwWalk(m, r, v, 3);
    if u.Table? && InMem(m, u.frame) {
      EntryAfterPut(m, f, i, e, u.frame, Index(v, 3));
    }
  }

  lemma NoFurther(e: Word, k: nat, v: nat)
    requires k < 4 && !(k < 3 && Present(e) && !(k > 0 && Huge(e)))
    ensures !HwDecode(e, k, v).Table?
  {
  }

  // ---------- what a rewritten leaf means ----------

  // A page of this frame reached along a path that allows path, with what its own entry allows.
  function Meaning(present: bool, frame: nat, path: Access, leaf: Access, v: nat): Option<Mapping> {
    if present then Some(Mapping(0x1000 * frame + v % 0x1000, Both(path, leaf))) else None
  }

  function LeafMeaning(e: Word, path: Access, v: nat): Option<Mapping> {
    Meaning(Present(e), HwFrame(e), path, EntryRights(e), v)
  }

  // The page of virt now leads to the frame, or nowhere, with the rights of its entry as far
  // as the tables on its path allow; no other page changes in any address space, and another
  // space sees the change only through the shared upper half.
  ghost predicate Remapped(m: Mem, m': Mem, tab: Tabs, root: nat, virt: nat, present: bool, frame: nat, may: Access) {
    && (forall v: nat :: SamePage(v, virt) ==>
          HwTranslate(m', root, v) == Meaning(present, frame, WalkRights(m, root, virt, 3), may, v))
    && (forall r, v: nat :: IsRoot(tab, r) && !SamePage(v, virt) ==> HwTranslate(m', r, v) == HwTranslate(m, r, v))
    && (forall r, v: nat :: IsRoot(tab, r) && r != root && SamePage(v, virt) ==>
          HwTranslate(m', r, v) == HwTranslate(m, r, v)
          || (Index(virt, 0) >= 256
              && HwTranslate(m', r, v) == Meaning(present, frame, WalkRights(m, r, virt, 3), may, v)))
  }

  lemma LeafTranslate(m: Mem, tab: Tabs, kroot: nat, f: nat, i: nat, e: Word, r: nat, v: nat)
    requires CanWrite(m, tab, kroot, f, i, e) && |tab[f].path| == 3 && IsRoot(tab, r)
    ensures HwTranslate(Put(m, f, i, e), r, v) ==
            if Through(m, f, i, r, v, 3) then LeafMeaning(e, WalkRights(m, r, v, 3), v) else HwTranslate(m, r, v)
  {
    hide CanWrite, Index, Put, HwWalk, HwDecode, LeafMeaning, WalkRights, Through;
    WriteWalk(m, tab, kroot, f, i, e, r, v, 4);
    LeafRightsAfter(m, tab, kroot, f, i, e, r, v);
    DecodeLeaf(e, WalkRights(m, r, v, 3), v);
  }

  lemma DecodeLeaf(e: Word, path: Access, v: nat)
    ensures LeafMeaning(e, path, v) ==
            match HwDecode(e, 3, v) case Phys(addr) => Some(Mapping(addr, Both(path, EntryRights(e)))) case _ => None
    ensures HwDecode(e, 3, v).Phys? ==> Present(e)
  {
  }

  lemma LeafThrough(m: Mem, tab: Tabs, kroot: nat, root: nat, virt: nat, f: nat, r: nat, v: nat)
    requires Shape(m, tab, kroot) && IsRoot(tab, root) && IsRoot(tab, r) && HwWalk(m, root, virt, 3) == Table(f)
    ensures Through(m, f, Index(virt, 3), r, v, 3) ==> SamePage(v, virt) && (r != root ==> Index(virt, 0) >= 256)
    ensures SamePage(v, virt) && r == root ==> Through(m, f, Index(virt, 3), r, v, 3)
    ensures SamePage(v, virt) ==> WalkRights(m, r, v, 3) == WalkRights(m, r, virt, 3)
  {
    hide Index, SamePage, Path, Shape, HwWalk, WalkRights;
    SamePath(v, virt);
    WalkMeets(m, tab, kroot, root, virt, 3);
    if SamePage(v, virt) {
      WalkByPath(m, root, virt, v, 3);
      RightsByPath(m, r, v, virt, 3);
    }
    if Through(m, f, Index(virt, 3), r, v, 3) {
      WalkMeets(m, tab, kroot, r, v, 3);
      SameTop(v, virt);
    }
  }

  lemma LeafEffect(m: Mem, tab: Tabs, kroot: nat, root: nat, virt: nat, f: nat, e: Word)
    requires IsRoot(tab, root) && HwWalk(m, root, virt, 3) == Table(f)
    requires CanWrite(m, tab, kroot, f, Index(virt, 3), e) && |tab[f].path| == 3
    ensures Remapped(m, Put(m, f, Index(virt, 3), e), tab, root, virt, Present(e), HwFrame(e), EntryRights(e))
    ensures NoNewHuge(m, Put(m, f, Index(virt, 3), e), tab) && SameRights(m, Put(m, f, Index(virt, 3), e), tab)
  {
    hide Index, Put, CanWrite, SamePage, Present, HwFrame, HwTranslate, Meaning, Through, HwWalk, WalkRights;
    hide EntryRights;
    var i := Index(virt, 3);
    WriteFacts(m, tab, kroot, f, i, e);
    var m' := Put(m, f, i, e);
    forall v: nat | SamePage(v, virt)
      ensures HwTranslate(m', root, v) == LeafMeaning(e, WalkRights(m, root, virt, 3), v)
    {
      LeafTranslate(m, tab, kroot, f, i, e, root, v);
      LeafThrough(m, tab, kroot, root, virt, f, root, v);
    }
    forall r, v: nat | IsRoot(tab, r)
      ensures !SamePage(v, virt) || (r != root && Index(virt, 0) < 256) ==>
                HwTranslate(m', r, v) == HwTranslate(m, r, v)
      ensures HwTranslate(m', r, v) == HwTranslate(m, r, v)
              || HwTranslate(m', r, v) == LeafMeaning(e, WalkRights(m, r, virt, 3), v)
      ensures HwWalk(m', r, v, 3) == HwWalk(m, r, v, 3) && WalkRights(m', r, v, 3) == WalkRights(m, r, v, 3)
    {
      WriteRights(m, tab, kroot, f, i, e, r, v, 3);
      WriteWalk(m, tab, kroot, f, i, e, r, v, 3);
      LeafTranslate(m, tab, kroot, f, i, e, r, v);
      LeafThrough(m, tab, kroot, root, virt, f, r, v);
    }
  }

  // Growing the tables first does not change what a rewritten leaf means.
  lemma RemapAfter(m: Mem, m1: Mem, m2: Mem, tab: Tabs, tab1: Tabs, root: nat, virt: nat, present: bool, frame: nat,
                   may: Access)
    requires SameTranslations(m, m1, tab) && SameRights(m, m1, tab) && IsRoot(tab, root)
    requires Remapped(m1, m2, tab1, root, virt, present, frame, may)
    requires forall f :: f in tab ==> f in tab1 && tab1[f] == tab[f]
    ensures Remapped(m, m2, tab, root, virt, present, frame, may)
  {
    hide HwTranslate, SamePage, Index, Meaning, WalkRights;
    forall r, v: nat | IsRoot(tab, r)
      ensures IsRoot(tab1, r) && HwTranslate(m1, r, v) == HwTranslate(m, r, v)
      ensures WalkRights(m1, r, v, 3) == WalkRights(m, r, v, 3)
    {
    }
  }

  lemma SameRightsTwice(m: Mem, m1: Mem, m2: Mem, tab: Tabs, tab1: Tabs)
    requires SameRights(m, m1, tab) && SameRights(m1, m2, tab1)
    requires forall f :: f in tab ==> f in tab1 && tab1[f] == tab[f]
    ensures SameRights(m, m2, tab)
  {
    hide WalkRights;
    forall r, v: nat | IsRoot(tab, r)
      ensures WalkRights(m2, r, v, 3) == WalkRights(m, r, v, 3)
    {
      assert IsRoot(tab1, r);
    }
  }

  lemma SameTop(v: nat, w: nat)
    requires Path(v, 3) == Path(w, 3)
    ensures Index(v, 0) == Index(w, 0)
  {
    PathIndex(v, 3);
    PathIndex(w, 3);
    assert Path(v, 3)[0] == Path(w, 3)[0];
  }

  // ---------- creating and dropping an address space ----------

  // Frame c holds a root whose lower half is empty and whose upper half is the
  // kernel's, or empty when there is no kernel map yet.
  ghost predicate NewRoot(m: Mem, tab: Tabs, kroot: nat, c: nat) {
    && c !in tab && c >= 1 && c != kroot && InMem(m, c)
    && (forall i :: 0 <= i < 256 ==> Entry(m, c, i) == 0)
    && (forall i :: 256 <= i < 512 ==>
          Entry(m, c, i) == if IsRoot(tab, kroot) && InMem(m, kroot) then Entry(m, kroot, i) else 0)
  }

  lemma RootShape(m: Mem, tab: Tabs, kroot: nat, c: nat)
    requires Shape(m, tab, kroot) && NewRoot(m, tab, kroot, c)
    ensures Shape(m, tab[c := Tab(c, [], c)], kroot)
  {
    hide Entry, FrameOf, Huge;
    var tab' := tab[c := Tab(c, [], c)];
    forall g | g in tab'
      ensures Rooted(m, tab', g)
    {
      assert g != c ==> Rooted(m, tab, g);
    }
    forall g, j | g in tab' && 0 <= j < 512 && Child(m, g, j, |tab'[g].path|)
      ensures Hangs(tab', kroot, g, j, FrameOf(Entry(m, g, j)))
    {
      if g == c {
        assert Entry(m, c, j) == if j < 256 || !IsRoot(tab, kroot) then 0 else Entry(m, kroot, j);
        assert Hangs(tab, kroot, kroot, j, FrameOf(Entry(m, kroot, j)));
      } else {
        assert Hangs(tab, kroot, g, j, FrameOf(Entry(m, g, j)));
      }
    }
  }

  // The first kernel map: until it exists no table is the kernel's.
  lemma KernelRootShape(m: Mem, tab: Tabs, c: nat)
    requires Shape(m, tab, 0) && c !in tab && c >= 1 && ZeroTable(m, c)
    ensures Shape(m, tab[c := Tab(c, [], c)], c)
  {
    hide Entry, FrameOf, Huge;
    var tab' := tab[c := Tab(c, [], c)];
    forall g | g in tab'
      ensures Rooted(m, tab', g)
      ensures g in tab ==> tab[g].root != 0
    {
      assert g != c ==> Rooted(m, tab, g);
      if g in tab {
        RootIsTable(m, tab, 0, g);
      }
    }
    forall g, j | g in tab' && 0 <= j < 512 && Child(m, g, j, |tab'[g].path|)
      ensures Hangs(tab', c, g, j, FrameOf(Entry(m, g, j)))
    {
      if g != c {
        assert Hangs(tab, 0, g, j, FrameOf(Entry(m, g, j)));
      }
    }
  }

  lemma {:induction false} RootIsTable(m: Mem, tab: Tabs, kroot: nat, g: nat)
    requires Shape(m, tab, kroot) && g in tab
    ensures IsRoot(tab, tab[g].root)
    decreases |tab[g].path|
  {
    hide Entry, FrameOf, Child;
    assert Rooted(m, tab, g);
    if tab[g].path != [] {
      RootIsTable(m, tab, kroot, tab[g].parent);
    }
  }

  lemma {:induction false} RootWalk(m: Mem, tab: Tabs, kroot: nat, c: nat, v: nat, d: nat)
    requires Shape(m, tab, kroot) && NewRoot(m, tab, kroot, c) && 1 <= d <= 4
    ensures HwWalk(m, c, v, d) ==
            if Index(v, 0) >= 256 && IsRoot(tab, kroot) then HwWalk(m, kroot, v, d) else Fault
    ensures Index(v, 0) >= 256 && IsRoot(tab, kroot) ==> WalkRights(m, c, v, d) == WalkRights(m, kroot, v, d)
  {
    hide Index, Entry, Child, Rooted, Hangs, EntryRights;
    if d == 1 {
      assert HwWalk(m, c, v, 0) == Table(c) && HwWalk(m, kroot, v, 0) == Table(kroot);
    } else {
      RootWalk(m, tab, kroot, c, v, d - 1);
    }
  }

  function Without(tab: Tabs, r: nat): Tabs {
    map f | f in tab && tab[f].root != r :: tab[f]
  }

  lemma DropChild(m: Mem, tab: Tabs, kroot: nat, r: nat, g: nat, j: nat)
    requires Shape(m, tab, kroot) && r != kroot && g in Without(tab, r) && j < 512 && Child(m, g, j, |tab[g].path|)
    ensures Hangs(Without(tab, r), kroot, g, j, FrameOf(Entry(m, g, j)))
  {
    hide Entry, FrameOf, Child, Rooted;
    assert Hangs(tab, kroot, g, j, FrameOf(Entry(m, g, j)));
  }

  lemma DropRooted(m: Mem, tab: Tabs, kroot: nat, r: nat, g: nat)
    requires Shape(m, tab, kroot) && g in Without(tab, r)
    ensures Rooted(m, Without(tab, r), g)
  {
    hide Entry, FrameOf, Child;
    assert Rooted(m, tab, g);
  }

  lemma DropShape(m: Mem, tab: Tabs, kroot: nat, r: nat)
    requires Shape(m, tab, kroot) && r != kroot
    ensures Shape(m, Without(tab, r), kroot)
  {
    hide Entry, FrameOf, Huge, Present, Child, Hangs, Rooted;
    var tab' := Without(tab, r);
    forall g | g in tab'
      ensures Rooted(m, tab', g)
    {
      DropRooted(m, tab, kroot, r, g);
    }
    forall g, j | g in tab' && 0 <= j < 512 && Child(m, g, j, |tab'[g].path|)
      ensures Hangs(tab', kroot, g, j, FrameOf(Entry(m, g, j)))
    {
      DropChild(m, tab, kroot, r, g, j);
    }
  }
}
