// The heap and the page tables over one frame allocator and one memory: neither
// ever touches the frames of the other, as long as the blocks that the heap
// merges lie side by side.

module Kernel {
  import opened Machine
  import P = Pmm
  import T = PageTable
  import E = TableEdits
  import S = Spaces
  import V = Vmm
  import L = HeapList
  import A = HeapApart
  import G = HeapPages
  import H = HeapMemory
  import B = HeapBytes
  import K = Heap
  import R = HeapRuns

  // Words outside these frames are the same.
  ghost predicate Inside(m: T.Mem, m': T.Mem, owned: set<nat>) {
    |m'| == |m| && forall k: nat :: k / 512 !in owned ==> H.At(m', k) == H.At(m, k)
  }

  function Elsewhere(size: nat, owned: set<nat>): set<nat> {
    set k: nat | 0 <= k < size && k / 512 !in owned
  }

  // Writes to tables, new or old, leave the heap as it was.
  lemma HeapUntouched(m: T.Mem, m': T.Mem, tab: T.Tabs, tab': T.Tabs, free: set<nat>, free': set<nat>,
                      owned: set<nat>, hhdm: nat, bs: seq<L.Blk>, freeList: nat)
    requires H.Linked(m, hhdm, bs, freeList) && G.Exact(bs, owned) && |m| % 512 == 0
    requires S.OutsideUnchanged(m, m', tab') && owned !! free && owned !! tab.Keys
    requires free' + tab'.Keys <= free + tab.Keys
    ensures H.Linked(m', hhdm, bs, freeList) && H.PayloadsKept(m, m', L.Live(bs))
    ensures owned !! free' && owned !! tab'.Keys
  {
    hide H.Linked, H.PayloadsKept, L.Live, L.InBlocks, S.OutsideUnchanged;
    forall f | f in owned
      ensures f !in free' && f !in tab'
    {
      assert f !in free + tab.Keys;
    }
    FramesKept(m, m', tab', owned);
    H.LinkedOutside(m, m', Elsewhere(|m|, owned), hhdm, bs, freeList);
  }

  lemma FramesKept(m: T.Mem, m': T.Mem, tab: T.Tabs, owned: set<nat>)
    requires S.OutsideUnchanged(m, m', tab) && owned !! tab.Keys && |m| % 512 == 0
    ensures H.Only(m, m', Elsewhere(|m|, owned))
  {
    forall k: nat | k >= |m| || k / 512 in owned
      ensures H.At(m', k) == H.At(m, k)
    {
      if k < |m| {
        assert T.Entry(m', k / 512, k % 512) == T.Entry(m, k / 512, k % 512);
      }
    }
  }

  // Writes inside the heap's frames leave every table and translation as it was.
  lemma TablesUntouched(m: T.Mem, m': T.Mem, tab: T.Tabs, kroot: nat, owned: set<nat>)
    requires T.Shape(m, tab, kroot) && Inside(m, m', owned) && owned !! tab.Keys
    ensures T.Shape(m', tab, kroot) && E.SameTables(m, m', tab) && E.SameTranslations(m, m', tab)
  {
    hide T.Shape, T.HwTranslate, T.WalkRights;
    forall f, i | f in tab && T.InMem(m, f) && 0 <= i < 512
      ensures T.Entry(m', f, i) == T.Entry(m, f, i)
    {
      assert (512 * f + i) / 512 == f;
      assert H.At(m', 512 * f + i) == H.At(m, 512 * f + i);
    }
    E.SameTablesShape(m, m', tab, kroot);
    E.SameTablesTranslate(m, m', tab, kroot);
  }

  // A header of the list lies in the heap's frames.
  lemma HeaderOwned(bs: seq<L.Blk>, owned: set<nat>, k: nat)
    requires G.Exact(bs, owned) && H.InHeader(H.Heads(bs), k)
    ensures k / 512 in owned
  {
    var h := if k in H.Heads(bs) then k else if k - 1 in H.Heads(bs) then k - 1 else if k - 2 in H.Heads(bs) then k - 2
             else k - 3;
    var b :| b in bs && b.at == h;
    var i :| 0 <= i < |bs| && bs[i] == b;
    assert L.Spans(bs[i], k);
  }

  // So kfree writes inside the heap's frames only.
  lemma ReleaseInside(m: T.Mem, m': T.Mem, bs: seq<L.Blk>, owned: set<nat>)
    requires G.Exact(bs, owned) && H.HeadersOnly(m, m', H.Heads(bs))
    ensures Inside(m, m', owned)
  {
    hide G.Exact;
    forall k: nat | k / 512 !in owned
      ensures H.At(m', k) == H.At(m, k)
    {
      if H.InHeader(H.Heads(bs), k) {
        HeaderOwned(bs, owned, k);
      }
    }
  }

  lemma {:induction false} PageFrames(pages: seq<nat>, avail: set<nat>, n: nat, p: nat)
    requires G.Lists(pages, avail) && n <= |pages| && p in pages[..n]
    ensures p % 512 == 0 && p / 512 in G.FramesOf(pages[..n])
    decreases |pages|
  {
    assert pages[..n][1..] == pages[1..][..n - 1];
    if p != pages[0] {
      assert p in pages[1..][..n - 1];
      PageFrames(pages[1..], avail - {pages[0] / 512}, n - 1, p);
    }
  }

  lemma BlockOwned(bs: seq<L.Blk>, owned: set<nat>, k: nat)
    requires G.Exact(bs, owned) && L.InBlocks(bs, k)
    ensures k / 512 in owned
  {
  }

  // And so do the others, when the lists they leave cover whole frames of their own.
  lemma AllocateInside(m: T.Mem, m': T.Mem, bs: seq<L.Blk>, words: nat, pages: seq<nat>, avail: set<nat>,
                       owned: set<nat>, owned': set<nat>, t: seq<L.Blk>)
    requires G.Lists(pages, avail) && G.Exact(bs, owned) && G.Exact(L.Allocate(bs, words, pages).bs, owned')
    requires owned' == owned + G.FramesOf(pages[..L.Taken(bs, words, pages)]) && G.Exact(t, owned')
    requires B.OutsideKept(m, m', H.Touched(bs, words, pages), t)
    ensures Inside(m, m', owned')
  {
    hide G.Exact, G.Lists, L.Allocate, L.Taken, G.FramesOf, L.InBlocks;
    var n, r := L.Taken(bs, words, pages), L.Allocate(bs, words, pages).bs;
    forall k: nat | k / 512 !in owned'
      ensures H.At(m', k) == H.At(m, k)
    {
      if H.InHeader(H.Heads(bs), k) {
        HeaderOwned(bs, owned, k);
      }
      if H.InHeader(H.Heads(r), k) {
        HeaderOwned(r, owned', k);
      }
      if L.InBlocks(t, k) {
        BlockOwned(t, owned', k);
      }
      forall p | p in pages[..n]
        ensures !(p <= k < p + 512)
      {
        PageFrames(pages, avail, n, p);
      }
      assert !H.InHeader(H.Touched(bs, words, pages), k);
    }
  }

  // No merge kmalloc makes crosses a frame that is not the heap's.
  predicate SnugCall(bs: seq<L.Blk>, size: Word, pages: seq<nat>) {
    size > 0 ==> G.SnugPage(bs, K.WordsFor(size), pages)
  }

  // Then the list it leaves covers exactly the heap's frames.
  lemma ServedExact(bs: seq<L.Blk>, size: Word, pages: seq<nat>, avail: set<nat>, hi: nat,
                    owned: set<nat>, owned': set<nat>, free: set<nat>, free': set<nat>)
    requires A.Disjoint(bs, hi) && L.Canonical(bs) && G.Exact(bs, owned)
    requires G.Lists(pages, avail) && G.Framed(avail, hi) && avail !! owned && SnugCall(bs, size, pages)
    requires K.TakenFor(K.Used(pages, K.Served(bs, size, pages)), owned, owned', free, free')
    ensures G.Exact(K.Served(bs, size, pages).bs, owned')
  {
    hide G.Exact, G.Lists, L.Allocate, G.FramesOf, A.Disjoint, L.Canonical, G.Framed, G.SnugPage;
    if size > 0 {
      K.UsedIs(bs, size, pages);
      G.AllocateExact(bs, K.WordsFor(size), pages, avail, owned, hi);
    } else {
      NoFrames();
      assert K.Used(pages, K.Served(bs, size, pages)) == [];
      assert owned' == owned;
    }
  }

  // And headers, and blocks of a list that does so too, are all that is written.
  lemma ServedInside(m: T.Mem, m': T.Mem, bs: seq<L.Blk>, size: Word, pages: seq<nat>, avail: set<nat>,
                     owned: set<nat>, owned': set<nat>, free: set<nat>, free': set<nat>, t: seq<L.Blk>)
    requires G.Lists(pages, avail) && G.Exact(bs, owned) && G.Exact(K.Served(bs, size, pages).bs, owned')
    requires K.TakenFor(K.Used(pages, K.Served(bs, size, pages)), owned, owned', free, free')
    requires G.Exact(t, owned') && B.OutsideKept(m, m', K.Reached(bs, size, pages), t)
    ensures Inside(m, m', owned')
  {
    hide G.Exact, G.Lists, L.Allocate, G.FramesOf, H.Touched, L.InBlocks;
    if size > 0 {
      K.UsedIs(bs, size, pages);
      AllocateInside(m, m', bs, K.WordsFor(size), pages, avail, owned, owned', t);
    } else {
      forall k: nat | k / 512 !in owned'
        ensures H.At(m', k) == H.At(m, k)
      {
        if L.InBlocks(t, k) {
          BlockOwned(t, owned', k);
        }
      }
    }
  }

  // If krealloc comes to free the old block, those that are merged lie side by side.
  predicate SnugMove(bs: seq<L.Blk>, i: nat, size: Word, pages: seq<nat>)
    requires i < |bs|
  {
    K.Served(bs, size, pages).payload.Some? ==> G.MoveSnug(bs, i, K.WordsFor(size))
  }

  lemma MovedExact(bs: seq<L.Blk>, i: nat, size: Word, pages: seq<nat>, avail: set<nat>,
                   owned: set<nat>, hi: nat, j: nat)
    requires i < |bs| && bs[i].used && L.Canonical(bs) && A.Disjoint(bs, hi)
    requires G.Lists(pages, avail) && G.Framed(avail, hi) && R.Admitted(bs, size, pages, hi)
    requires K.Served(bs, size, pages).payload.Some? && SnugMove(bs, i, size, pages)
    requires var r := K.Served(bs, size, pages); G.Exact(r.bs, owned) && j < |r.bs| && r.bs[j] == bs[i]
    ensures var r := K.Served(bs, size, pages); G.Exact(L.Release(r.bs, j), owned) && A.Clears(r.bs, j, hi)
  {
    hide G.Exact, L.Allocate, A.Disjoint, L.Canonical, G.MoveSnug, L.Release, A.Clears, G.Lists, G.Framed, A.Fitting;
    R.ServedDisjoint(bs, size, pages, avail, hi);
    G.MoveExact(bs, i, K.WordsFor(size), pages, owned, hi, j);
  }

  lemma ServedSome(bs: seq<L.Blk>, size: Word, pages: seq<nat>)
    requires bs != [] && size > 0
    ensures K.Served(bs, size, pages).payload.Some? <==>
            || L.FirstFit(bs, K.WordsFor(size)) < |bs|
            || (pages != [] && K.WordsFor(size) <= L.TailRoom(bs) + 512)
  {
    hide L.Allocate, L.TailRoom, L.FirstFit;
    L.AllocateSucceeds(bs, K.WordsFor(size), pages);
  }

  lemma SamePtr(bs: seq<L.Blk>, hi: nat, hhdm: nat, i: nat, n: nat)
    requires A.Disjoint(bs, hi) && i < |bs| && n <= |bs|
    ensures n < |bs| ==> (H.Ptr(hhdm, bs[i].at) == H.Ptr(hhdm, bs[n].at) <==> i == n)
  {
    if n < |bs| && i != n {
      A.OffAt(bs, hi, i, n);
    }
  }

  lemma NothingWritten(m: T.Mem, owned: set<nat>)
    ensures Inside(m, m, owned)
  {
  }

  lemma NoFrames()
    ensures G.FramesOf([]) == {}
  {
  }

  // Frames taken for the heap were free, so they are no tables.
  lemma StillApart(tab: T.Tabs, pages: seq<nat>, r: L.Result, owned: set<nat>, owned': set<nat>,
                   free: set<nat>, free': set<nat>)
    requires |r.left| <= |pages| && K.TakenFor(K.Used(pages, r), owned, owned', free, free')
    requires tab.Keys !! free && owned !! tab.Keys
    ensures tab.Keys !! free' && owned' !! tab.Keys
  {
    hide G.FramesOf, K.Used;
  }

  // The next free frame behind the first one is the second page.
  lemma SecondFrame(pages: seq<nat>, avail: set<nat>, f: nat, g: nat)
    requires G.Lists(pages, avail) && pages != [] && pages[0] == 512 * f
    requires f < g && g in avail && forall h :: f < h < g ==> h !in avail
    ensures |pages| >= 2 && pages[1] == 512 * g
  {
    G.FirstPage(pages, avail);
    G.FirstPage(pages[1..], avail - {f});
    assert g in avail - {f};
    G.SecondPage(pages, avail);
  }

  lemma OnlyFrame(pages: seq<nat>, avail: set<nat>, f: nat, total: nat)
    requires G.Lists(pages, avail) && pages != [] && pages[0] == 512 * f
    requires forall h :: h in avail ==> h < total && !(f < h < total)
    ensures |pages| == 1
  {
    if |pages| >= 2 {
      G.SecondPage(pages, avail);
    }
  }

  lemma TakenRoot(tab: T.Tabs, free: set<nat>, c: nat)
    requires c in free
    ensures free - {c} + tab[c := T.Tab(c, [], c)].Keys <= free + tab.Keys
  {
  }

  lemma Dropped(tab: T.Tabs, r: int)
    ensures r >= 0 ==> E.Without(tab, r).Keys <= tab.Keys && S.Doomed(tab, r) <= tab.Keys
  {
  }

  class Kernel {
    const spaces: V.AddressSpaces
    const heap: K.KernelHeap

    // The two share allocator, memory and direct map; the heap's blocks cover
    // its own frames exactly, and none of them is a table.
    ghost predicate Valid()
      reads this, spaces, heap, spaces.pmm, spaces.pmm.bitmap, spaces.mem, heap.pmm, heap.pmm.bitmap, heap.mem
    {
      && spaces.Valid() && heap.Valid()
      && spaces.pmm == heap.pmm && spaces.mem == heap.mem && spaces.hhdm == heap.hhdm
      && G.Exact(heap.bs, heap.owned) && heap.owned !! spaces.tab.Keys
    }

    constructor (spaces: V.AddressSpaces, heap: K.KernelHeap)
      requires spaces.Valid() && heap.Valid() && heap.bs == []
      requires spaces.pmm == heap.pmm && spaces.mem == heap.mem && spaces.hhdm == heap.hhdm
      ensures Valid() && this.spaces == spaces && this.heap == heap
    {
      this.spaces, this.heap := spaces, heap;
      heap.ListFacts();
      assert forall k: nat :: !L.InBlocks([], k);
    }

    // A map keeps the heap and its contents, whether it succeeds or not.
    method Map(pm: nat, virt: Word, phys: Word, flags: Word) returns (r: int)
      requires Valid()
      requires pm != 0 ==>
                 && pm % 0x1000 == 0 && T.IsRoot(spaces.tab, pm / 0x1000)
                 && !T.HwWalk(spaces.M(), pm / 0x1000, virt, 3).Phys?
      modifies spaces`tab, spaces.mem, spaces.pmm`freePages, spaces.pmm`log, spaces.pmm.bitmap
      ensures Valid() && H.PayloadsKept(old(heap.M()), heap.M(), L.Live(heap.bs))
      ensures S.Conserved(old(spaces.pmm.Free()), old(spaces.tab), spaces.pmm.Free(), spaces.tab)
      ensures r == 0 || r == -1
      ensures pm == 0 ==> r == -1 && spaces.M() == old(spaces.M()) && spaces.tab == old(spaces.tab)
      ensures pm != 0 ==>
                var root := pm / 0x1000;
                && (r == 0 <==> S.Missing(old(spaces.M()), root, virt) <= |old(spaces.pmm.Available())|)
                && S.Extends(old(spaces.tab), spaces.tab)
                && (r == 0 ==>
                      E.Remapped(old(spaces.M()), spaces.M(), old(spaces.tab), root, virt, T.Present(flags),
                                 phys / 0x1000 % 0x100_0000_0000, S.Asked(phys, flags)))
                && (r == -1 ==> E.SameTranslations(old(spaces.M()), spaces.M(), old(spaces.tab)))
    {
      hide T.Shape, T.HwTranslate, T.HwWalk, A.Disjoint, H.Linked, A.Headed, H.PayloadsKept, L.Live, L.Canonical;
      hide L.Words, G.Exact;
      hide S.OutsideUnchanged, E.Remapped, E.SameTranslations, S.Missing, S.Extends, S.AddedUnder, S.SoftLeaf;
      hide P.Allocator.Valid, P.Allocator.Free, T.Present, L.Total, E.SameRights, S.AsAsked, S.Asked;
      ghost var m, tab, free := spaces.M(), spaces.tab, spaces.pmm.Free();
      r := spaces.Map(pm, virt, phys, flags);
      if pm == 0 {
        S.OutsideSame(m, tab);
      }
      HeapUntouched(m, spaces.M(), tab, spaces.tab, free, spaces.pmm.Free(),
                    heap.owned, heap.hhdm, heap.bs, heap.freeList);
    }

    method Unmap(pm: nat, virt: Word)
      requires Valid()
      requires pm != 0 ==>
                 && pm % 0x1000 == 0 && T.IsRoot(spaces.tab, pm / 0x1000)
                 && !T.HwWalk(spaces.M(), pm / 0x1000, virt, 3).Phys?
      modifies spaces.mem
      ensures Valid() && H.PayloadsKept(old(heap.M()), heap.M(), L.Live(heap.bs))
      ensures pm == 0 ==> spaces.M() == old(spaces.M())
      ensures pm != 0 ==> E.Remapped(old(spaces.M()), spaces.M(), spaces.tab, pm / 0x1000, virt, false, 0, T.NOTHING)
    {
      hide T.Shape, T.HwTranslate, T.HwWalk, A.Disjoint, H.Linked, A.Headed, H.PayloadsKept, L.Live, L.Canonical;
      hide L.Words, G.Exact;
      hide P.Allocator.Valid, P.Allocator.Free, S.OutsideUnchanged, E.Remapped, L.Total, E.SameRights;
      ghost var m, free := spaces.M(), spaces.pmm.Free();
      spaces.Unmap(pm, virt);
      if pm == 0 {
        S.OutsideSame(m, spaces.tab);
      }
      HeapUntouched(m, spaces.M(), spaces.tab, spaces.tab, free, free,
                    heap.owned, heap.hhdm, heap.bs, heap.freeList);
    }

    method CreatePagemap() returns (pm: nat, ghost c: nat)
      requires Valid()
      modifies spaces`tab, spaces.mem, spaces.pmm`freePages, spaces.pmm`log, spaces.pmm.bitmap
      ensures Valid() && H.PayloadsKept(old(heap.M()), heap.M(), L.Live(heap.bs))
      ensures E.SameTranslations(old(spaces.M()), spaces.M(), old(spaces.tab))
      ensures pm == 0 <==> old(spaces.pmm.Available()) == {}
      ensures pm == 0 ==> spaces.tab == old(spaces.tab) && spaces.pmm.Free() == old(spaces.pmm.Free())
      ensures pm != 0 ==>
                && pm == 0x1000 * c + spaces.hhdm && c in old(spaces.pmm.Available()) && c !in old(spaces.tab)
                && spaces.tab == old(spaces.tab)[c := T.Tab(c, [], c)]
                && spaces.pmm.Free() == old(spaces.pmm.Free()) - {c}
                && forall v: nat :: T.HwTranslate(spaces.M(), c, v) ==
                     if T.Index(v, 0) >= 256 && spaces.kernelPagemap != 0
                     then T.HwTranslate(spaces.M(), spaces.KernelRoot(), v) else None
    {
      hide T.Shape, T.HwTranslate, T.HwWalk, A.Disjoint, H.Linked, A.Headed, H.PayloadsKept, L.Live, L.Canonical;
      hide L.Words, G.Exact;
      hide P.Allocator.Valid, P.Allocator.Free, P.Allocator.Available, S.OutsideUnchanged, E.SameTranslations, T.Index;
      hide L.Total, S.TopEntry, E.NoNewHuge, E.SameRights;
      ghost var m, tab, free := spaces.M(), spaces.tab, spaces.pmm.Free();
      spaces.AvailableFree();
      pm, c := spaces.CreatePagemap();
      if pm == 0 {
        S.OutsideSame(m, tab);
        E.SameTablesTranslate(m, m, tab, spaces.KernelRoot());
      } else {
        TakenRoot(tab, free, c);
      }
      HeapUntouched(m, spaces.M(), tab, spaces.tab, free, spaces.pmm.Free(),
                    heap.owned, heap.hhdm, heap.bs, heap.freeList);
    }

    // The frames a destroy gives back were tables, so none of them is the heap's.
    method DestroyPagemap(pm: nat)
      requires Valid()
      requires pm != 0 ==>
                 && pm > spaces.hhdm && pm == 0x1000 * ((pm - spaces.hhdm) / 0x1000) + spaces.hhdm
                 && T.IsRoot(spaces.tab, (pm - spaces.hhdm) / 0x1000)
      modifies spaces`tab, spaces.pmm`freePages, spaces.pmm`log, spaces.pmm.bitmap
      ensures Valid() && heap.M() == old(heap.M())
      ensures pm == 0 || pm == spaces.kernelPagemap ==>
                spaces.tab == old(spaces.tab) && spaces.pmm.Free() == old(spaces.pmm.Free())
      ensures pm != 0 && pm != spaces.kernelPagemap ==>
                var r := (pm - spaces.hhdm) / 0x1000;
                && spaces.tab == E.Without(old(spaces.tab), r)
                && S.Doomed(old(spaces.tab), r) !! heap.owned
                && spaces.pmm.Free() == old(spaces.pmm.Free()) + S.Doomed(old(spaces.tab), r)
    {
      hide T.Shape, T.HwTranslate, T.HwWalk, A.Disjoint, H.Linked, A.Headed, L.Live, L.Canonical, L.Words, L.Total;
      hide G.Exact;
      hide P.Allocator.Valid, P.Allocator.Free, S.OutsideUnchanged, S.FreedExactly, S.SharedAbove;
      ghost var m, tab, free := spaces.M(), spaces.tab, spaces.pmm.Free();
      ghost var freed := spaces.DestroyPagemap(pm);
      S.OutsideSame(m, spaces.tab);
      Dropped(tab, (pm - spaces.hhdm) / 0x1000);
      HeapUntouched(m, m, tab, spaces.tab, free, spaces.pmm.Free(), heap.owned, heap.hhdm, heap.bs, heap.freeList);
    }

    // Pages that touch where they are merged fit the heap.
    lemma SnugAdmits(size: Word, pages: seq<nat>)
      requires Valid() && G.Lists(pages, heap.pmm.Available()) && SnugCall(heap.bs, size, pages)
      requires heap.Counts(size, pages)
      ensures heap.Admits(size, pages)
    {
      hide K.KernelHeap.Valid, K.KernelHeap.Sound, V.AddressSpaces.Valid, P.Allocator.Available, G.Exact, G.Lists;
      hide A.Disjoint, G.Framed, G.SnugPage, A.Fitting, L.Taken, K.WordsFor;
      heap.ApartFacts();
      if size > 0 {
        G.SnugFits(heap.bs, K.WordsFor(size), pages, heap.pmm.Available(), heap.owned, heap.mem.Length);
      }
    }

    // kmalloc leaves every table and translation alone.
    method Kmalloc(size: Word, ghost pages: seq<nat>) returns (ptr: nat)
      requires Valid() && G.Lists(pages, heap.pmm.Available())
      requires SnugCall(heap.bs, size, pages) && heap.Counts(size, pages)
      modifies heap, heap.mem, heap.pmm`freePages, heap.pmm`log, heap.pmm.bitmap
      ensures Valid()
      ensures E.SameTables(old(spaces.M()), spaces.M(), spaces.tab)
      ensures E.SameTranslations(old(spaces.M()), spaces.M(), spaces.tab)
      ensures H.PayloadsKept(old(heap.M()), heap.M(), L.Live(old(heap.bs)))
      ensures var r := K.Served(old(heap.bs), size, pages);
              && heap.bs == r.bs && ptr == K.Pointer(heap.hhdm, r.payload) && (r.payload.Some? ==> ptr != 0)
              && G.Lists(r.left, heap.pmm.Available()) && heap.gPages == old(heap.gPages) + |pages| - |r.left|
              && K.TakenFor(K.Used(pages, r), old(heap.owned), heap.owned, old(heap.pmm.Free()), heap.pmm.Free())
    {
      hide T.Shape, T.HwTranslate, H.PayloadsKept, H.HeadersOnly, L.Live, L.Canonical, L.Words, K.Served, G.Exact;
      hide P.Allocator.Valid, P.Allocator.Free, P.Allocator.Available, E.SameTranslations, K.KernelHeap.Valid;
      hide K.TakenFor, K.Used, G.Lists, K.Reached, A.Disjoint, SnugCall, Inside, E.SameTables, G.Framed, L.Taken;
      hide K.WordsFor, K.KernelHeap.Admits, K.KernelHeap.Counts, K.KernelHeap.Sound, A.Headed, B.OutsideKept;
      ghost var m, free, owned, bs, avail := spaces.M(), heap.pmm.Free(), heap.owned, heap.bs, heap.pmm.Available();
      heap.ApartFacts();
      heap.ValidFacts();
      SnugAdmits(size, pages);
      ptr := heap.Kmalloc(size, pages);
      ServedExact(bs, size, pages, avail, heap.mem.Length, owned, heap.owned, free, heap.pmm.Free());
      B.OutsideHeaders(m, spaces.M(), K.Reached(bs, size, pages), K.Reached(bs, size, pages), heap.bs);
      ServedInside(m, spaces.M(), bs, size, pages, avail, owned, heap.owned, free, heap.pmm.Free(), heap.bs);
      StillApart(spaces.tab, pages, K.Served(bs, size, pages), owned, heap.owned, free, heap.pmm.Free());
      TablesUntouched(m, spaces.M(), spaces.tab, spaces.KernelRoot(), heap.owned);
      heap.ApartFacts();
      heap.ValidFacts();
    }

    // kcalloc likewise.
    method Kcalloc(num: Word, size: Word, ghost pages: seq<nat>) returns (ptr: nat)
      requires Valid() && G.Lists(pages, heap.pmm.Available())
      requires R.Times(num, size) + 7 < TWO64 || TWO64 <= R.Times(num, size)
      requires R.Times(num, size) < TWO64 ==>
                 SnugCall(heap.bs, R.Times(num, size), pages) && heap.Counts(R.Times(num, size), pages)
      modifies heap, heap.mem, heap.pmm`freePages, heap.pmm`log, heap.pmm.bitmap
      ensures Valid()
      ensures E.SameTables(old(spaces.M()), spaces.M(), spaces.tab)
      ensures E.SameTranslations(old(spaces.M()), spaces.M(), spaces.tab)
      ensures H.PayloadsKept(old(heap.M()), heap.M(), L.Live(old(heap.bs)))
      ensures TWO64 <= R.Times(num, size) ==>
                && ptr == 0 && heap.bs == old(heap.bs) && heap.owned == old(heap.owned) && heap.M() == old(heap.M())
                && heap.pmm.Free() == old(heap.pmm.Free()) && heap.gPages == old(heap.gPages)
      ensures R.Times(num, size) < TWO64 ==>
                var r := K.Served(old(heap.bs), R.Times(num, size), pages);
                && heap.bs == r.bs && ptr == K.Pointer(heap.hhdm, r.payload) && (r.payload.Some? ==> ptr != 0)
                && G.Lists(r.left, heap.pmm.Available()) && heap.gPages == old(heap.gPages) + |pages| - |r.left|
                && K.TakenFor(K.Used(pages, r), old(heap.owned), heap.owned, old(heap.pmm.Free()), heap.pmm.Free())
                && (r.payload.Some? ==> B.Zeroed(heap.M(), r.payload.value, R.Times(num, size)))
    {
      hide T.Shape, T.HwTranslate, H.PayloadsKept, L.Live, L.Canonical, L.Words, K.Served, G.Exact, B.Zeroed;
      hide P.Allocator.Valid, P.Allocator.Free, P.Allocator.Available, E.SameTranslations, K.KernelHeap.Valid;
      hide K.TakenFor, K.Used, G.Lists, K.Reached, A.Disjoint, SnugCall, Inside, E.SameTables, G.Framed, L.Taken;
      hide K.WordsFor, K.KernelHeap.Admits, K.KernelHeap.Counts, K.KernelHeap.Sound, A.Headed, B.OutsideKept;
      ghost var m, free, owned, bs, avail := spaces.M(), heap.pmm.Free(), heap.owned, heap.bs, heap.pmm.Available();
      ghost var total := R.Times(num, size);
      heap.ApartFacts();
      heap.ValidFacts();
      if total < TWO64 {
        SnugAdmits(total, pages);
      }
      ptr := heap.Kcalloc(num, size, pages);
      if total < TWO64 {
        ServedExact(bs, total, pages, avail, heap.mem.Length, owned, heap.owned, free, heap.pmm.Free());
        ServedInside(m, spaces.M(), bs, total, pages, avail, owned, heap.owned, free, heap.pmm.Free(), heap.bs);
        StillApart(spaces.tab, pages, K.Served(bs, total, pages), owned, heap.owned, free, heap.pmm.Free());
      } else {
        NothingWritten(m, owned);
      }
      TablesUntouched(m, spaces.M(), spaces.tab, spaces.KernelRoot(), heap.owned);
      heap.ApartFacts();
      heap.ValidFacts();
    }

    // So does kfree, when the free neighbours it merges with lie side by side
    // with the block.
    method Kfree(ptr: nat, ghost i: nat)
      requires Valid()
      requires ptr != 0 ==> i < |heap.bs| && ptr == H.Ptr(heap.hhdm, heap.bs[i].at + 4)
      requires ptr != 0 && heap.bs[i].used ==> G.Snug(heap.bs, i)
      modifies heap`gUsedBytes, heap`gUsedBlocks, heap`bs, heap.mem
      ensures Valid() && heap.pmm.Free() == old(heap.pmm.Free()) && heap.pmm.Available() == old(heap.pmm.Available())
      ensures E.SameTables(old(spaces.M()), spaces.M(), spaces.tab)
      ensures E.SameTranslations(old(spaces.M()), spaces.M(), spaces.tab)
      ensures ptr == 0 || !old(heap.bs)[i].used ==> heap.bs == old(heap.bs)
      ensures ptr != 0 && old(heap.bs)[i].used ==> heap.bs == L.Release(old(heap.bs), i)
      ensures H.PayloadsKept(old(heap.M()), heap.M(), L.Live(heap.bs))
    {
      hide T.Shape, T.HwTranslate, H.PayloadsKept, H.HeadersOnly, L.Live, L.Canonical, L.Words, L.Release, G.Exact;
      hide P.Allocator.Valid, P.Allocator.Free, P.Allocator.Available, E.SameTranslations, H.Ptr, K.KernelHeap.Valid;
      hide A.Disjoint, A.Clears, Inside, E.SameTables, G.Snug, H.Heads, K.KernelHeap.Sound, A.Headed, G.Framed;
      ghost var m, bs := spaces.M(), heap.bs;
      heap.ApartFacts();
      heap.ValidFacts();
      heap.Kfree(ptr, i);
      ReleaseInside(m, spaces.M(), bs, heap.owned);
      if ptr != 0 && bs[i].used {
        G.SnugClears(bs, i, heap.mem.Length);
        G.ReleaseExact(bs, i, heap.owned, heap.mem.Length);
      }
      TablesUntouched(m, spaces.M(), spaces.tab, spaces.KernelRoot(), heap.owned);
      heap.ApartFacts();
      heap.ValidFacts();
    }

    // krealloc, when its kmalloc takes such pages and its kfree merges such blocks.
    method Krealloc(ptr: nat, size: Word, ghost i: nat, ghost pages: seq<nat>) returns (moved: nat, ghost j: nat)
      requires Valid() && G.Lists(pages, heap.pmm.Available())
      requires ptr != 0 ==> i < |heap.bs| && heap.bs[i].used && ptr == H.Ptr(heap.hhdm, heap.bs[i].at + 4)
      requires ptr != 0 && size == 0 ==> G.Snug(heap.bs, i)
      requires heap.Grows(ptr, size, i) ==> SnugCall(heap.bs, size, pages) && heap.Counts(size, pages)
      requires ptr != 0 && heap.Grows(ptr, size, i) ==> size + 7 < TWO64 && SnugMove(heap.bs, i, size, pages)
      modifies heap, heap.mem, heap.pmm`freePages, heap.pmm`log, heap.pmm.bitmap
      ensures Valid()
      ensures E.SameTables(old(spaces.M()), spaces.M(), spaces.tab)
      ensures E.SameTranslations(old(spaces.M()), spaces.M(), spaces.tab)
      ensures B.SurvivorsKept(old(heap.M()), heap.M(), L.Live(old(heap.bs)), L.Live(heap.bs))
      ensures !old(heap.Grows(ptr, size, i)) ==>
                && heap.owned == old(heap.owned) && heap.pmm.Free() == old(heap.pmm.Free())
                && heap.gPages == old(heap.gPages)
                && (if size == 0 then moved == 0 && heap.bs == L.Release(old(heap.bs), i)
                    else moved == ptr && heap.bs == old(heap.bs) && heap.M() == old(heap.M()))
      ensures old(heap.Grows(ptr, size, i)) ==>
                var r := K.Served(old(heap.bs), size, pages);
                && G.Lists(r.left, heap.pmm.Available()) && heap.gPages == old(heap.gPages) + |pages| - |r.left|
                && K.TakenFor(K.Used(pages, r), old(heap.owned), heap.owned, old(heap.pmm.Free()), heap.pmm.Free())
                && moved == K.Pointer(heap.hhdm, r.payload) && (r.payload.Some? ==> moved != 0)
                && (ptr == 0 || r.payload.None? ==> heap.bs == r.bs)
                && (ptr != 0 && r.payload.Some? ==> heap.MovedTo(old(heap.M()), r, old(heap.bs)[i], j, size))
    {
      hide T.Shape, T.HwTranslate, H.PayloadsKept, H.HeadersOnly, L.Live, L.Canonical, L.Words, K.Served, G.Exact;
      hide P.Allocator.Valid, P.Allocator.Free, P.Allocator.Available, E.SameTranslations, K.KernelHeap.Valid;
      hide K.TakenFor, K.Used, G.Lists, K.Reached, A.Disjoint, SnugCall, Inside, E.SameTables, G.Framed, L.Taken;
      hide K.WordsFor, K.KernelHeap.Admits, K.KernelHeap.Counts, K.KernelHeap.Sound, A.Headed, B.OutsideKept;
      hide SnugMove, R.Admitted, K.KernelHeap.MovedTo, L.Release, G.Snug, A.Clears, H.Ptr, H.Heads, B.SurvivorsKept;
      ghost var m, free, owned, bs, avail := spaces.M(), heap.pmm.Free(), heap.owned, heap.bs, heap.pmm.Available();
      ghost var grows := heap.Grows(ptr, size, i);
      heap.ApartFacts();
      heap.ValidFacts();
      if grows {
        SnugAdmits(size, pages);
        R.AdmitsIs(heap, size, pages);
      }
      moved, j := heap.Krealloc(ptr, size, i, pages);
      if grows {
        ghost var r := K.Served(bs, size, pages);
        ServedExact(bs, size, pages, avail, heap.mem.Length, owned, heap.owned, free, heap.pmm.Free());
        if ptr != 0 && r.payload.Some? {
          heap.MovedFacts(m, r, bs[i], j, size);
          MovedExact(bs, i, size, pages, avail, heap.owned, heap.mem.Length, j);
        }
        ServedInside(m, spaces.M(), bs, size, pages, avail, owned, heap.owned, free, heap.pmm.Free(), heap.bs);
        StillApart(spaces.tab, pages, r, owned, heap.owned, free, heap.pmm.Free());
      } else {
        ReleaseInside(m, spaces.M(), bs, owned);
        if size == 0 {
          G.SnugClears(bs, i, heap.mem.Length);
          G.ReleaseExact(bs, i, owned, heap.mem.Length);
        }
      }
      TablesUntouched(m, spaces.M(), spaces.tab, spaces.KernelRoot(), heap.owned);
      heap.ApartFacts();
      heap.ValidFacts();
    }

    // ---------- when the heap stays inside its own frames ----------

    method EndOf(blk: nat, ghost i: nat) returns (end: nat)
      requires Valid() && i < |heap.bs| && blk == H.Ptr(heap.hhdm, heap.bs[i].at)
      ensures end == H.Ptr(heap.hhdm, heap.bs[i].End())
    {
      hide K.KernelHeap.Valid, K.KernelHeap.Sound, K.KernelHeap.Chained, V.AddressSpaces.Valid, G.Exact, L.Canonical;
      hide L.Total, A.Disjoint, A.Headed, G.Framed, P.Allocator.Available;
      heap.ApartFacts();
      heap.ValidFacts();
      heap.HeaderFacts(i);
      var size := heap.GetSize(blk, heap.bs[i].at);
      end := blk + 32 + size;
    }

    // Whether block i and these neighbours lie side by side; 0 stands for none.
    method Aligned(blk: nat, prev: nat, next: nat, ghost i: nat) returns (ok: bool)
      requires Valid() && i < |heap.bs| && blk == H.Ptr(heap.hhdm, heap.bs[i].at)
      requires prev != 0 ==> i > 0 && prev == H.Ptr(heap.hhdm, heap.bs[i - 1].at)
      requires next != 0 ==> i + 1 < |heap.bs| && next == H.Ptr(heap.hhdm, heap.bs[i + 1].at)
      ensures ok <==> G.SideBySide(heap.bs, i, prev != 0, next != 0)
    {
      hide Valid;
      var end := EndOf(blk, i);
      var prevEnd, nextEnd := blk, next;
      if prev != 0 {
        prevEnd := EndOf(prev, i - 1);
      }
      if next != 0 {
        nextEnd := EndOf(next, i + 1);
      }
      ok := || ((next == 0 || next == end) && (prev == 0 || blk == prevEnd))
            || (prev != 0 && next != 0 && next == prevEnd && blk == nextEnd);
    }

    // Whether kfree may be called: block i and the free neighbours it is merged
    // with lie side by side.
    method Touches(ptr: nat, ghost i: nat) returns (ok: bool)
      requires Valid() && i < |heap.bs| && ptr == H.Ptr(heap.hhdm, heap.bs[i].at + 4)
      ensures ok <==> G.Snug(heap.bs, i)
    {
      hide K.KernelHeap.Valid, K.KernelHeap.Sound, K.KernelHeap.Chained, V.AddressSpaces.Valid, G.Exact, L.Canonical;
      hide L.Total, A.Disjoint, A.Headed, G.Framed, P.Allocator.Available, G.SideBySide, H.Ptr;
      heap.ApartFacts();
      heap.ValidFacts();
      K.PtrSum4(heap.hhdm, heap.bs[i].at);
      var blk := ptr - 32;
      var prev := heap.FreePrev(blk, i);
      var next := heap.FreeNext(blk, i);
      ok := Aligned(blk, prev, next, i);
    }

    // Whether kmalloc may be called: it takes no page, or one that can be counted
    // and touches a free tail, or from an empty heap one or two that follow each
    // other.
    method MayAllocate(size: Word, ghost pages: seq<nat>) returns (ok: bool)
      requires Valid() && G.Lists(pages, heap.pmm.Available())
      ensures ok <==> SnugCall(heap.bs, size, pages) && heap.Counts(size, pages)
    {
      hide K.KernelHeap.Valid, K.KernelHeap.Sound, K.KernelHeap.Chained, V.AddressSpaces.Valid, G.Exact, L.Canonical;
      hide L.Total, P.Allocator.Valid, P.Allocator.Free, P.Allocator.Available, L.Taken, G.Lists, K.KernelHeap.Backed;
      hide A.Disjoint, A.Headed, G.Framed;
      if size == 0 {
        return true;
      }
      ghost var words := K.WordsFor(size);
      var bytes := (size + 7) % 0x1_0000_0000_0000_0000 / 8 * 8;
      heap.ApartFacts();
      heap.ValidFacts();
      heap.ListFacts();
      CountFacts();
      L.TakenIs(heap.bs, words, pages);
      G.FirstPage(pages, heap.pmm.Available());
      var f := heap.pmm.FirstFree();
      if f == heap.pmm.total {
        return true;
      }
      if heap.freeList == 0 {
        ok := FirstTwo(bytes, f, words, pages);
        return;
      }
      var curr := heap.Search(bytes, words);
      if curr != 0 {
        return true;
      }
      if 4096 * (heap.gPages + 1) >= 0x1_0000_0000 {
        return false;
      }
      ok := BehindTail(f, pages);
    }

    lemma CountFacts()
      requires Valid()
      ensures 4096 * heap.gPages < 0x1_0000_0000
    {
    }

    // Frame f is the first page of an empty heap; does a second one that the call
    // takes follow it?
    method FirstTwo(bytes: nat, f: nat, ghost words: nat, ghost pages: seq<nat>) returns (ok: bool)
      requires Valid() && G.Lists(pages, heap.pmm.Available()) && pages != [] && pages[0] == 512 * f
      requires heap.bs == [] && bytes == 8 * words && forall g :: g in heap.pmm.Available() ==> f <= g < heap.pmm.total
      ensures ok <==> G.SnugPage(heap.bs, words, pages)
    {
      hide K.KernelHeap.Valid, K.KernelHeap.Sound, V.AddressSpaces.Valid, G.Exact, A.Disjoint, A.Headed, G.Framed;
      hide P.Allocator.Free, L.Taken, G.Lists;
      heap.ApartFacts();
      heap.ValidFacts();
      L.TakenIs(heap.bs, words, pages);
      G.FirstPage(pages, heap.pmm.Available());
      if bytes <= 4064 {
        return true;
      }
      var g := f + 1;
      while g < heap.pmm.total
        invariant f < g && forall h :: f < h < g ==> h !in heap.pmm.Available()
      {
        var used := heap.pmm.BmGet(g);
        if !used {
          SecondFrame(pages, heap.pmm.Available(), f, g);
          return g == f + 1;
        }
        g := g + 1;
      }
      OnlyFrame(pages, heap.pmm.Available(), f, heap.pmm.total);
      return true;
    }

    // Frame f is the first page; is the tail used, or does the page touch it?
    method BehindTail(f: nat, ghost pages: seq<nat>) returns (ok: bool)
      requires Valid() && heap.bs != [] && pages != [] && pages[0] == 512 * f
      ensures ok <==> heap.bs[|heap.bs| - 1].used || pages[0] == L.End(heap.bs)
    {
      hide K.KernelHeap.Valid, K.KernelHeap.Sound, K.KernelHeap.Chained, V.AddressSpaces.Valid, G.Exact, L.Canonical;
      hide L.Total, A.Disjoint, A.Headed, G.Framed, P.Allocator.Valid, P.Allocator.Free, P.Allocator.Available;
      hide H.Linked, K.KernelHeap.Backed, H.IsUsed;
      heap.ApartFacts();
      heap.ValidFacts();
      heap.ListFacts();
      heap.HeaderFacts(|heap.bs| - 1);
      var tail := heap.Tail();
      var size := heap.GetSize(tail, heap.bs[|heap.bs| - 1].at);
      var w := heap.GetMeta(tail, heap.bs[|heap.bs| - 1].at);
      ok := H.IsUsed(w) || heap.hhdm + 4096 * f == tail + 32 + size;
    }

    // Whether the kfree inside a krealloc to that many bytes may be called, if
    // krealloc comes to it.
    method StaysSnug(ptr: nat, size: Word, ghost i: nat, ghost pages: seq<nat>) returns (ok: bool)
      requires Valid() && G.Lists(pages, heap.pmm.Available()) && size > 0
      requires i < |heap.bs| && heap.bs[i].used && ptr == H.Ptr(heap.hhdm, heap.bs[i].at + 4)
      ensures ok <==> SnugMove(heap.bs, i, size, pages)
    {
      hide Valid, SnugMove, G.Lists, H.Ptr;
      ok := MergesSnug(ptr, size, (size + 7) % 0x1_0000_0000_0000_0000 / 8 * 8, i, pages);
    }

    method MergesSnug(ptr: nat, ghost size: Word, bytes: nat, ghost i: nat, ghost pages: seq<nat>) returns (ok: bool)
      requires Valid() && G.Lists(pages, heap.pmm.Available()) && size > 0 && bytes == 8 * K.WordsFor(size)
      requires i < |heap.bs| && heap.bs[i].used && ptr == H.Ptr(heap.hhdm, heap.bs[i].at + 4)
      ensures ok <==> SnugMove(heap.bs, i, size, pages)
    {
      hide K.KernelHeap.Valid, K.KernelHeap.Sound, K.KernelHeap.Chained, V.AddressSpaces.Valid, G.Exact, L.Canonical;
      hide L.Total, A.Disjoint, A.Headed, G.Framed, P.Allocator.Available, P.Allocator.Valid, G.SideBySide, H.Ptr;
      hide K.Served, G.Lists, G.StaysBehind, G.StaysBefore, L.FirstFit, L.TailRoom, K.WordsFor;
      ghost var words := K.WordsFor(size);
      heap.ApartFacts();
      heap.ValidFacts();
      K.PtrSum4(heap.hhdm, heap.bs[i].at);
      ServedSome(heap.bs, size, pages);
      var blk := ptr - 32;
      var curr := heap.Search(bytes, words);
      if curr == 0 {
        var grown := TailServes(bytes, words, pages);
        if !grown {
          return true;
        }
      }
      var prev := PrevStays(blk, curr, bytes, i, words);
      var next := NextStays(blk, curr, i, words);
      ok := Aligned(blk, prev, next, i);
    }

    // Whether a page, if there is one, makes the tail large enough.
    method TailServes(bytes: nat, ghost words: nat, ghost pages: seq<nat>) returns (ok: bool)
      requires Valid() && heap.bs != [] && bytes == 8 * words && G.Lists(pages, heap.pmm.Available())
      ensures ok <==> pages != [] && words <= L.TailRoom(heap.bs) + 512
    {
      hide K.KernelHeap.Valid, K.KernelHeap.Sound, K.KernelHeap.Chained, V.AddressSpaces.Valid, G.Exact, L.Canonical;
      hide L.Total, A.Disjoint, A.Headed, G.Framed, P.Allocator.Free, P.Allocator.Available;
      hide H.Linked, K.KernelHeap.Backed, H.IsUsed, G.Lists;
      heap.ApartFacts();
      heap.ValidFacts();
      heap.ListFacts();
      heap.HeaderFacts(|heap.bs| - 1);
      G.FirstPage(pages, heap.pmm.Available());
      var f := heap.pmm.FirstFree();
      var tail := heap.Tail();
      var size: nat := heap.GetSize(tail, heap.bs[|heap.bs| - 1].at);
      var w := heap.GetMeta(tail, heap.bs[|heap.bs| - 1].at);
      ok := f != heap.pmm.total && bytes <= if H.IsUsed(w) then 4064 else size + 4096;
    }

    // The free block behind block i, if it is still free after the kmalloc that
    // found curr.
    method NextStays(blk: nat, curr: nat, ghost i: nat, ghost words: nat) returns (next: nat)
      requires Valid() && i < |heap.bs| && blk == H.Ptr(heap.hhdm, heap.bs[i].at)
      requires var n := L.FirstFit(heap.bs, words);
               if n < |heap.bs| then curr == H.Ptr(heap.hhdm, heap.bs[n].at) != 0 else curr == 0
      ensures next != 0 <==> G.StaysBehind(heap.bs, i, words)
      ensures next != 0 ==> i + 1 < |heap.bs| && next == H.Ptr(heap.hhdm, heap.bs[i + 1].at)
    {
      hide K.KernelHeap.Valid, K.KernelHeap.Sound, K.KernelHeap.Chained, V.AddressSpaces.Valid, G.Exact, L.Canonical;
      hide L.Total, A.Disjoint, A.Headed, G.Framed, P.Allocator.Available, H.Ptr, L.FirstFit, H.IsUsed;
      heap.ApartFacts();
      heap.ValidFacts();
      next := heap.FreeNext(blk, i);
      if next == 0 {
        return;
      }
      heap.HeaderFacts(i + 1);
      SamePtr(heap.bs, heap.mem.Length, heap.hhdm, i + 1, L.FirstFit(heap.bs, words));
      if next == curr {
        return 0;
      }
      if curr == 0 {
        var beyond := heap.GetNext(next, heap.bs[i + 1].at);
        if beyond == 0 {
          return 0;
        }
      }
    }

    method PrevStays(blk: nat, curr: nat, bytes: nat, ghost i: nat, ghost words: nat) returns (prev: nat)
      requires Valid() && i < |heap.bs| && blk == H.Ptr(heap.hhdm, heap.bs[i].at) && bytes == 8 * words
      requires var n := L.FirstFit(heap.bs, words);
               if n < |heap.bs| then curr == H.Ptr(heap.hhdm, heap.bs[n].at) != 0 else curr == 0
      ensures prev != 0 <==> G.StaysBefore(heap.bs, i, words)
      ensures prev != 0 ==> i > 0 && prev == H.Ptr(heap.hhdm, heap.bs[i - 1].at)
    {
      hide K.KernelHeap.Valid, K.KernelHeap.Sound, K.KernelHeap.Chained, V.AddressSpaces.Valid, G.Exact, L.Canonical;
      hide L.Total, A.Disjoint, A.Headed, G.Framed, P.Allocator.Available, H.Ptr, L.FirstFit, H.IsUsed;
      heap.ApartFacts();
      heap.ValidFacts();
      prev := heap.FreePrev(blk, i);
      if prev == 0 {
        return;
      }
      heap.HeaderFacts(i - 1);
      SamePtr(heap.bs, heap.mem.Length, heap.hhdm, i - 1, L.FirstFit(heap.bs, words));
      if prev == curr {
        var size := heap.GetSize(prev, heap.bs[i - 1].at);
        if size < bytes + 40 {
          return 0;
        }
      }
    }
  }
}
