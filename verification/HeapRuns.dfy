// Whole runs of a client of the kernel heap: every buffer it holds reads back
// what it last wrote there, and freeing all of them leaves one free block.

module HeapRuns {
  import opened Machine
  import opened HeapApart
  import opened HeapList
  import opened HeapPages
  import opened HeapMemory
  import opened HeapBytes
  import opened Heap
  import P = Pmm

  // A buffer the client holds: its block, and what it should read there.
  datatype Buffer = Buffer(blk: Blk, data: seq<Word>)

  datatype Call =
    | Malloc(size: Word)
    | Calloc(num: Word, size: Word)
    | Realloc(k: nat, size: Word)
    | Free(k: nat)
    | Poke(k: nat, off: nat, v: Word)

  // Buffer u is a live block that holds its data.
  ghost predicate Intact(m: Mem, bs: seq<Blk>, u: Buffer) {
    && u.blk in Live(bs) && |u.data| == u.blk.words
    && forall k :: 0 <= k < |u.data| ==> At(m, u.blk.at + 4 + k) == u.data[k]
  }

  // The buffers are exactly the live blocks, each once.
  ghost predicate Holding(m: Mem, bs: seq<Blk>, us: seq<Buffer>) {
    && |us| == |Live(bs)|
    && (forall j :: 0 <= j < |us| ==> Intact(m, bs, us[j]))
    && (forall j, k :: 0 <= j < k < |us| ==> us[j].blk != us[k].blk)
  }

  ghost predicate Pointing(hhdm: nat, ptrs: seq<nat>, us: seq<Buffer>) {
    |ptrs| == |us| && forall k :: 0 <= k < |us| ==> ptrs[k] == Ptr(hhdm, us[k].blk.at + 4)
  }

  function Without<T>(s: seq<T>, k: nat): seq<T>
    requires k < |s|
  {
    s[..k] + s[k + 1..]
  }

  lemma IntactKept(m: Mem, m': Mem, bs: seq<Blk>, bs': seq<Blk>, ls: seq<Blk>, u: Buffer)
    requires Intact(m, bs, u) && u.blk in Live(bs') && u.blk in ls && PayloadsKept(m, m', ls)
    ensures Intact(m', bs', u)
  {
  }

  lemma SurvivorIntact(m: Mem, m': Mem, bs: seq<Blk>, bs': seq<Blk>, u: Buffer)
    requires Intact(m, bs, u) && u.blk in Live(bs') && SurvivorsKept(m, m', Live(bs), Live(bs'))
    ensures Intact(m', bs', u)
  {
  }

  // When nothing is live, every block is free.
  lemma {:induction false} NothingUsed(bs: seq<Blk>)
    requires Live(bs) == []
    ensures forall i :: 0 <= i < |bs| ==> !bs[i].used
  {
    if bs != [] {
      NothingUsed(bs[1..]);
      assert forall i :: 0 < i < |bs| ==> bs[i] == bs[1..][i - 1];
    }
  }

  // One free block fills all the pages but for its header.
  predicate OneFree(bs: seq<Blk>, pages: nat) {
    |bs| == 1 && !bs[0].used && bs[0].words + 4 == 512 * pages
  }

  // When nothing is live, coalescing has left a single free block of all the pages.
  lemma AllFreed(bs: seq<Blk>, pages: nat)
    requires Canonical(bs) && Live(bs) == [] && Total(bs) == 512 * pages
    ensures if pages == 0 then bs == [] else OneFree(bs, pages)
  {
    NothingUsed(bs);
    if |bs| >= 2 {
      FirstPair(bs);
    } else if |bs| == 1 {
      assert bs == [bs[0]];
      TotalOne(bs[0]);
    }
  }

  lemma FirstPair(bs: seq<Blk>)
    requires Canonical(bs) && |bs| >= 2
    ensures bs[0].used || bs[1].used
  {
    assert bs[1 - 1].used || bs[1].used;
  }

  // A new buffer as the call leaves it.
  function BufferAt(m: Mem, b: Blk): (u: Buffer)
    ensures u.blk == b
  {
    Buffer(b, WordsFrom(m, b.at + 4, b.words))
  }

  function WordsFrom(m: Mem, at: nat, n: nat): (s: seq<Word>)
    ensures |s| == n && forall k :: 0 <= k < n ==> s[k] == At(m, at + k)
  {
    if n == 0 then [] else WordsFrom(m, at, n - 1) + [At(m, at + n - 1)]
  }

  // A successful kmalloc adds a buffer and leaves the others as they were.
  lemma Added(m: Mem, m': Mem, bs: seq<Blk>, size: Word, pages: seq<nat>, avail: set<nat>, hi: nat, us: seq<Buffer>)
    returns (b: Blk)
    requires Disjoint(bs, hi) && Canonical(bs) && Lists(pages, avail) && Framed(avail, hi)
    requires Admitted(bs, size, pages, hi) && Served(bs, size, pages).payload.Some?
    requires Holding(m, bs, us) && PayloadsKept(m, m', Live(bs))
    ensures var r := Served(bs, size, pages);
            && b in r.bs && b.used && b.at + 4 == r.payload.value
            && WordsFor(size) <= b.words <= WordsFor(size) + 4
            && Holding(m', r.bs, us + [BufferAt(m', b)])
            && forall j :: 0 <= j < |us| ==> us[j].blk.at != b.at
  {
    hide Allocate, Live, Disjoint, Canonical, PayloadsKept, Lists, Fitting, Framed;
    var r := Served(bs, size, pages);
    var n := NewBlock(bs, WordsFor(size), pages, avail, hi);
    b := r.bs[n];
    LiveIsUsed(r.bs, b);
    OneMoreLive(bs, WordsFor(size), pages);
    forall j | 0 <= j < |us|
      ensures Intact(m', r.bs, us[j]) && us[j].blk.at != b.at
    {
      IntactKept(m, m', bs, r.bs, Live(bs), us[j]);
    }
  }

  lemma OneMoreLive(bs: seq<Blk>, words: nat, pages: seq<nat>)
    requires Canonical(bs)
    ensures var r := Allocate(bs, words, pages);
            |Live(r.bs)| == |Live(bs)| + if r.payload.Some? then 1 else 0
  {
    hide Allocate, Live, Canonical, Searched, Placed, Place;
    AllocateLive(bs, words, pages);
  }

  // A failed one changes no buffer, even when it took a page.
  lemma Failed(m: Mem, m': Mem, bs: seq<Blk>, size: Word, pages: seq<nat>, us: seq<Buffer>)
    requires Canonical(bs) && Served(bs, size, pages).payload.None? && Holding(m, bs, us)
    requires SurvivorsKept(m, m', Live(bs), Live(Served(bs, size, pages).bs))
    ensures Holding(m', Served(bs, size, pages).bs, us)
  {
    hide Allocate, Live, Canonical, Searched, SurvivorsKept;
    if size > 0 {
      AllocateLive(bs, WordsFor(size), pages);
    }
    SameHolding(m, m', bs, Served(bs, size, pages).bs, us);
  }

  lemma SameHolding(m: Mem, m': Mem, bs: seq<Blk>, bs': seq<Blk>, us: seq<Buffer>)
    requires Holding(m, bs, us) && SurvivorsKept(m, m', Live(bs), Live(bs')) && Live(bs') == Live(bs)
    ensures Holding(m', bs', us)
  {
    hide Live, SurvivorsKept;
    forall j | 0 <= j < |us|
      ensures Intact(m', bs', us[j])
    {
      SurvivorIntact(m, m', bs, bs', us[j]);
    }
  }

  // Freeing buffer k leaves the others as they were.
  lemma Removed(m: Mem, m': Mem, bs: seq<Blk>, i: nat, us: seq<Buffer>, k: nat)
    requires Canonical(bs) && Holding(m, bs, us) && k < |us|
    requires i < |bs| && bs[i] == us[k].blk && bs[i].used && SurvivorsKept(m, m', Live(bs), Live(Release(bs, i)))
    ensures Holding(m', Release(bs, i), Without(us, k))
  {
    hide Live, Canonical, SurvivorsKept, Release;
    var vs := Without(us, k);
    FreeDrops(bs, i);
    forall j | 0 <= j < |vs|
      ensures Intact(m', Release(bs, i), vs[j])
    {
      var n := if j < k then j else j + 1;
      assert Intact(m, bs, us[n]) && us[n].blk != bs[i];
      LiveIsUsed(bs, us[n].blk);
      var q :| 0 <= q < |bs| && bs[q] == us[n].blk;
      ReleaseSpares(bs, q, i);
      SurvivorIntact(m, m', bs, Release(bs, i), us[n]);
    }
  }

  // Writing one word of buffer k changes that word of that buffer, and nothing of the heap.
  lemma Poked(m: Mem, m': Mem, hhdm: nat, bs: seq<Blk>, freeList: nat,
              us: seq<Buffer>, k: nat, i: nat, off: nat, v: Word)
    requires Linked(m, hhdm, bs, freeList) && Holding(m, bs, us) && k < |us| && off < |us[k].data|
    requires i < |bs| && bs[i] == us[k].blk && bs[i].at + 4 + off < |m|
    requires m' == m[us[k].blk.at + 4 + off := v]
    ensures Linked(m', hhdm, bs, freeList)
    ensures Holding(m', bs, us[k := us[k].(data := us[k].data[off := v])])
  {
    hide Live, PayloadsKept, Linked;
    var vs := us[k := us[k].(data := us[k].data[off := v])];
    HeldAt(m, bs, us, k);
    LinkedInside(m, m', hhdm, bs, freeList, i, bs[i].words);
    forall j | 0 <= j < |vs|
      ensures Intact(m', bs, vs[j])
    {
      assert Intact(m, bs, us[j]);
      if j != k {
        HeldAt(m, bs, us, j);
        IntactKept(m, m', bs, bs, [us[j].blk], us[j]);
      }
    }
  }

  // A held buffer is a used block of the list.
  lemma HeldAt(m: Mem, bs: seq<Blk>, us: seq<Buffer>, k: nat)
    requires Holding(m, bs, us) && k < |us|
    ensures us[k].blk in bs && us[k].blk.used && |us[k].data| == us[k].blk.words
  {
    assert Intact(m, bs, us[k]);
    LiveIsUsed(bs, us[k].blk);
  }

  // ---------- krealloc ----------

  // Words whose bytes were copied were copied.
  lemma WordsCopied(m: Mem, m': Mem, s: nat, d: nat, words: nat, k: nat)
    requires Copied(m, m', s, d, 8 * words) && k < words
    ensures At(m', d + k) == At(m, s + k)
  {
    assert Pow256(4) == 0x1_0000_0000;
    assert Pow256(8) == TWO64;
    var w, u := At(m', d + k), At(m, s + k);
    forall j | 0 <= j < 8
      ensures ByteOf(w, j) == ByteOf(u, j)
    {
      assert ByteFrom(m', d, 8 * k + j) == ByteFrom(m, s, 8 * k + j);
      assert (8 * (d + k) + j) / 8 == d + k && (8 * (s + k) + j) / 8 == s + k;
    }
    BytesDetermine(w, u, 8);
  }

  // The buffer moved, with what it held in front; the others are as they were.
  lemma Moved(m: Mem, m': Mem, bs: seq<Blk>, size: Word, pages: seq<nat>, avail: set<nat>, hi: nat,
              us: seq<Buffer>, k: nat, j: nat) returns (b: Blk)
    requires Disjoint(bs, hi) && Canonical(bs) && Lists(pages, avail) && Framed(avail, hi)
    requires Admitted(bs, size, pages, hi) && Served(bs, size, pages).payload.Some?
    requires Holding(m, bs, us) && k < |us| && 8 * us[k].blk.words < size && size + 7 < TWO64
    requires var r := Served(bs, size, pages);
             && j < |r.bs| && r.bs[j] == us[k].blk && SurvivorsKept(m, m', Live(bs), Live(Release(r.bs, j)))
             && Copied(m, m', us[k].blk.at + 4, r.payload.value, 8 * us[k].blk.words)
    ensures var r := Served(bs, size, pages);
            && b.at + 4 == r.payload.value && size <= 8 * b.words
            && Holding(m', Release(r.bs, j), us[k := BufferAt(m', b)])
            && us[k].data <= BufferAt(m', b).data
  {
    hide Allocate, Live, Disjoint, Canonical, PayloadsKept, Lists, Fitting, Framed, Release, SurvivorsKept, Copied;
    hide WordsFor;
    var r := Served(bs, size, pages);
    RoundingCovers(size);
    NothingChanged(m, Live(bs), {});
    b := Added(m, m, bs, size, pages, avail, hi, us);
    ServedCanonical(bs, size, pages);
    var vs := us[k := BufferAt(m', b)];
    HeldAt(m, bs, us, k);
    var n :| 0 <= n < |r.bs| && r.bs[n] == b;
    FreeDrops(r.bs, j);
    ReleaseSpares(r.bs, n, j);
    forall q | 0 <= q < |vs|
      ensures Intact(m', Release(r.bs, j), vs[q])
    {
      if q != k {
        assert Intact(m, r.bs, (us + [BufferAt(m, b)])[q]);
        LiveIsUsed(r.bs, us[q].blk);
        var e :| 0 <= e < |r.bs| && r.bs[e] == us[q].blk;
        ReleaseSpares(r.bs, e, j);
        SurvivorIntact(m, m', bs, Release(r.bs, j), us[q]);
      }
    }
    assert Intact(m, bs, us[k]);
    forall q | 0 <= q < |us[k].data|
      ensures BufferAt(m', b).data[q] == us[k].data[q]
    {
      WordsCopied(m, m', us[k].blk.at + 4, b.at + 4, us[k].blk.words, q);
    }
  }

  // ---------- frames ahead of the heap ----------

  lemma {:induction false} ListsAll(pages: seq<nat>, avail: set<nat>)
    requires Lists(pages, avail)
    ensures avail == FramesOf(pages)
    decreases |pages|
  {
    if pages != [] {
      ListsAll(pages[1..], avail - {pages[0] / 512});
    }
  }

  // The pages the call takes, if any, fit the heap.
  predicate Admitted(bs: seq<Blk>, size: Word, pages: seq<nat>, hi: nat) {
    size > 0 ==> Fitting(bs, WordsFor(size), pages, hi)
  }

  lemma ServedCanonical(bs: seq<Blk>, size: Word, pages: seq<nat>)
    requires Canonical(bs)
    ensures Canonical(Served(bs, size, pages).bs)
  {
    hide Allocate, Canonical, After;
    if size > 0 {
      var steps := AllocateIsRun(bs, WordsFor(size), pages);
      RunKeeps(bs, steps);
    }
  }

  // The frames the call takes pass from the free ones to the heap's.
  lemma TookFrames(pages: seq<nat>, r: Result, owned: set<nat>, owned': set<nat>, free: set<nat>, free': set<nat>)
    requires |r.left| <= |pages| && TakenFor(Used(pages, r), owned, owned', free, free')
    ensures owned' + free' == owned + free
  {
    hide FramesOf, Used;
  }

  // What is left of the frames.
  lemma LeftOver(bs: seq<Blk>, words: nat, pages: seq<nat>, avail: set<nat>, avail': set<nat>)
    requires Lists(pages, avail) && Lists(Allocate(bs, words, pages).left, avail')
    ensures avail' == avail - FramesOf(pages[..Taken(bs, words, pages)])
  {
    hide Allocate, Lists, FramesOf, Taken, Ahead;
    PagesTaken(bs, words, pages, avail);
    ListsAll(Allocate(bs, words, pages).left, avail');
    ListsAll(Allocate(bs, words, pages).left, avail - FramesOf(pages[..Taken(bs, words, pages)]));
  }

  // While the available frames lie ahead of the heap, every call is admitted.
  lemma StayAhead(bs: seq<Blk>, size: Word, pages: seq<nat>, avail: set<nat>, hi: nat)
    requires InOrder(bs) && Canonical(bs) && Lists(pages, avail) && Framed(avail, hi) && Ahead(avail, End(bs))
    ensures Admitted(bs, size, pages, hi) && (size > 0 ==> Taken(bs, WordsFor(size), pages) <= 2)
  {
    hide Allocate, InOrder, Canonical, Lists, Ahead, FramesOf, AheadOf, Fitting, Framed;
    if size > 0 {
      AheadKept(bs, WordsFor(size), pages, avail);
      AheadFits(bs, WordsFor(size), pages, avail, hi);
      PagesTaken(bs, WordsFor(size), pages, avail);
    }
  }

  // And leaves them ahead, and the blocks in order.
  lemma TookAhead(bs: seq<Blk>, size: Word, pages: seq<nat>, avail: set<nat>, avail': set<nat>)
    requires InOrder(bs) && Canonical(bs) && Lists(pages, avail) && Ahead(avail, End(bs))
    requires Lists(Served(bs, size, pages).left, avail')
    ensures var r := Served(bs, size, pages);
            InOrder(r.bs) && Ahead(avail', End(r.bs)) && |pages| - |r.left| <= 2
  {
    hide Allocate, InOrder, Canonical, Lists, Ahead, FramesOf, AheadOf;
    if size > 0 {
      var words := WordsFor(size);
      AheadKept(bs, words, pages, avail);
      AllocateKeeps(bs, words, pages, avail);
      PagesTaken(bs, words, pages, avail);
      LeftOver(bs, words, pages, avail, avail');
    } else {
      ListsAll(pages, avail);
      ListsAll(pages, avail');
    }
  }

  lemma AheadLess(avail: set<nat>, end: nat, end': nat)
    requires Ahead(avail, end) && end' <= end
    ensures Ahead(avail, end')
  {
  }

  // kfree likewise, and its merges never reach another block.
  lemma GaveAhead(bs: seq<Blk>, i: nat, avail: set<nat>, hi: nat)
    requires i < |bs| && bs[i].used && Canonical(bs) && InOrder(bs) && Disjoint(bs, hi) && Ahead(avail, End(bs))
    ensures InOrder(Release(bs, i)) && Ahead(avail, End(Release(bs, i))) && Clears(bs, i, hi)
  {
    hide Stacked, Canonical, Release, Clears, Ahead;
    ReleaseInOrder(bs, i);
    AheadLess(avail, End(bs), End(Release(bs, i)));
    Wider(bs, bs[0].at, End(bs), hi);
    OrderedClears(bs, i, bs[0].at, hi);
  }

  lemma ServedDisjoint(bs: seq<Blk>, size: Word, pages: seq<nat>, avail: set<nat>, hi: nat)
    requires Disjoint(bs, hi) && Lists(pages, avail) && Framed(avail, hi) && Admitted(bs, size, pages, hi)
    ensures Disjoint(Served(bs, size, pages).bs, hi)
  {
    hide Allocate, Disjoint, Lists, Framed, Fresh, Room;
    if size > 0 {
      AllocateDisjoint(bs, WordsFor(size), pages, avail, hi);
    }
  }

  // ---------- one run of frames ----------

  // The blocks cover one stretch of memory without a gap, and the available
  // frames are one run right behind it.
  ghost predicate Tiled(bs: seq<Blk>, avail: set<nat>) {
    && (forall f, g, h :: f in avail && h in avail && f <= g <= h ==> g in avail)
    && (bs != [] ==> Tiles(bs, bs[0].at, End(bs)) && Adjoins(avail, End(bs)))
  }

  ghost predicate Adjoins(avail: set<nat>, end: nat) {
    avail != {} ==> end % 512 == 0 && end / 512 in avail && Ahead(avail, end)
  }

  // Then all is in order and ahead, and the blocks are the heap's pages end to end.
  lemma TiledSpan(bs: seq<Blk>, avail: set<nat>, pages: nat)
    requires Tiled(bs, avail) && Total(bs) == 512 * pages
    ensures InOrder(bs) && Ahead(avail, End(bs)) && (bs != [] ==> End(bs) == bs[0].at + 512 * pages)
  {
    hide Tiles;
    if bs != [] {
      TilesStacked(bs, bs[0].at, End(bs));
    }
  }

  lemma TiledRun(bs: seq<Blk>, pages: seq<nat>, avail: set<nat>) returns (lo: nat, hi: nat)
    requires Tiled(bs, avail) && Lists(pages, avail)
    ensures OneRun(pages, hi) && if bs == [] then lo == hi else lo == bs[0].at && hi == End(bs) && Tiles(bs, lo, hi)
  {
    hide Tiles;
    FirstPage(pages, avail);
    hi := if bs != [] then End(bs) else if pages != [] then pages[0] else 0;
    lo := if bs != [] then bs[0].at else hi;
    if pages != [] {
      RunOfFrames(pages, avail);
    }
  }

  // kmalloc keeps a tiling of one run.
  lemma TiledServed(bs: seq<Blk>, size: Word, pages: seq<nat>, avail: set<nat>, avail': set<nat>)
    requires Tiled(bs, avail) && Canonical(bs) && Lists(pages, avail)
    requires Lists(Served(bs, size, pages).left, avail')
    ensures Tiled(Served(bs, size, pages).bs, avail')
  {
    hide Allocate, Canonical, Tiles, Taken, AheadOf, SnugPage, Lists, Adjoins;
    if size == 0 {
      ListsAll(pages, avail);
      ListsAll(pages, avail');
    } else {
      var words := WordsFor(size);
      var lo, hi := TiledRun(bs, pages, avail);
      RunTiles(bs, words, pages, avail, lo, hi);
      LeftOver(bs, words, pages, avail, avail');
      var r := Allocate(bs, words, pages);
      StillOneRun(bs, words, pages, avail);
      StillAdjoins(r.left, avail', hi + 512 * Taken(bs, words, pages));
      if r.bs != [] {
        TilesSpan(r.bs, lo, hi + 512 * Taken(bs, words, pages));
      }
    }
  }

  lemma TilesSpan(bs: seq<Blk>, lo: nat, hi: nat)
    requires Tiles(bs, lo, hi)
    ensures bs != [] && lo == bs[0].at && hi == End(bs)
  {
  }

  lemma StillOneRun(bs: seq<Blk>, words: nat, pages: seq<nat>, avail: set<nat>)
    requires Lists(pages, avail)
    requires forall f, g, h :: f in avail && h in avail && f <= g <= h ==> g in avail
    ensures var avail' := avail - FramesOf(pages[..Taken(bs, words, pages)]);
            forall f, g, h :: f in avail' && h in avail' && f <= g <= h ==> g in avail'
  {
    hide Allocate, Lists, FramesOf, Taken;
    TakenIs(bs, words, pages);
    PagesTaken(bs, words, pages, avail);
    FirstFrames(pages);
    if Taken(bs, words, pages) == 2 {
      SecondPage(pages, avail);
    }
  }

  lemma StillAdjoins(left: seq<nat>, avail: set<nat>, end: nat)
    requires Lists(left, avail) && OneRun(left, end)
    ensures Adjoins(avail, end)
  {
    FirstPage(left, avail);
  }

  // kfree does so too, and keeps the blocks apart.
  lemma TiledReleased(bs: seq<Blk>, i: nat, avail: set<nat>)
    requires i < |bs| && bs[i].used && Canonical(bs) && Tiled(bs, avail)
    ensures Tiled(Release(bs, i), avail)
  {
    hide Tiles, Release, Canonical;
    ReleaseTiles(bs, i, bs[0].at, End(bs));
    TilesSpan(Release(bs, i), bs[0].at, End(bs));
  }

  function Times(num: Word, size: Word): nat { num * size }

  lemma AdmitsIs(heap: KernelHeap, size: Word, pages: seq<nat>)
    requires heap.Admits(size, pages)
    ensures Admitted(heap.bs, size, pages, heap.mem.Length)
  {
  }

  lemma PointingMore(hhdm: nat, ptrs: seq<nat>, us: seq<Buffer>, ptr: nat, u: Buffer)
    requires Pointing(hhdm, ptrs, us) && ptr == Ptr(hhdm, u.blk.at + 4)
    ensures Pointing(hhdm, ptrs + [ptr], us + [u])
  {
  }

  lemma PointingLess(hhdm: nat, ptrs: seq<nat>, us: seq<Buffer>, k: nat)
    requires Pointing(hhdm, ptrs, us) && k < |us|
    ensures k < |ptrs| && Pointing(hhdm, Without(ptrs, k), Without(us, k))
  {
  }

  lemma PointingMoved(hhdm: nat, ptrs: seq<nat>, us: seq<Buffer>, k: nat, ptr: nat, u: Buffer)
    requires Pointing(hhdm, ptrs, us) && k < |us| && ptr == Ptr(hhdm, u.blk.at + 4)
    ensures k < |ptrs| && Pointing(hhdm, ptrs[k := ptr], us[k := u])
  {
  }

  class Client {
    const heap: KernelHeap
    var ptrs: seq<nat>
    ghost var held: seq<Buffer>

    // Free blocks may have come to overlap; the buffers have not.
    ghost predicate Valid()
      reads this, heap, heap.pmm, heap.pmm.bitmap, heap.mem
    {
      heap.Sound() && Holding(heap.M(), heap.bs, held) && Pointing(heap.hhdm, ptrs, held)
    }

    // The blocks lie in address order with all available frames ahead of them,
    // and the heap stays below 4 GiB for that many more calls.
    ghost predicate Ample(calls: nat)
      reads this, heap, heap.pmm, heap.pmm.bitmap
    {
      && InOrder(heap.bs) && Ahead(heap.pmm.Available(), End(heap.bs))
      && 4096 * (heap.gPages + 2 * calls) < 0x1_0000_0000
    }

    constructor (heap: KernelHeap)
      requires heap.Valid() && Live(heap.bs) == []
      ensures Valid() && held == [] && this.heap == heap
    {
      this.heap := heap;
      ptrs, held := [], [];
    }

    // ---------- the calls ----------

    // kmalloc adds a buffer when it succeeds, and changes none of the others.
    method DoMalloc(size: Word, ghost pages: seq<nat>) returns (ghost b: Blk)
      requires Valid() && heap.Valid() && Lists(pages, heap.pmm.Available()) && heap.Admits(size, pages)
      modifies this, heap, heap.mem, heap.pmm`freePages, heap.pmm`log, heap.pmm.bitmap
      ensures Valid() && heap.Valid()
      ensures var r := Served(old(heap.bs), size, pages);
              && heap.bs == r.bs && heap.gPages == old(heap.gPages) + |pages| - |r.left|
              && Lists(r.left, heap.pmm.Available())
              && (r.payload.None? ==> held == old(held))
              && (r.payload.Some? ==>
                    && held == old(held) + [BufferAt(heap.M(), b)] && b.at + 4 == r.payload.value
                    && WordsFor(size) <= b.words <= WordsFor(size) + 4)
      ensures heap.owned + heap.pmm.Free() == old(heap.owned + heap.pmm.Free())
    {
      hide KernelHeap.Valid, KernelHeap.Sound, Live, Holding, Served, PayloadsKept, HeadersOnly, Ptr, BufferAt, Lists;
      hide Canonical, TakenFor, Reached, SurvivorsKept, Used, P.Allocator.Free, P.Allocator.Available, WordsFor;
      hide Fitting, Framed, Disjoint, Headed, Taken;
      ghost var m0, bs0, owned0, free0, avail := heap.M(), heap.bs, heap.owned, heap.pmm.Free(), heap.pmm.Available();
      b := Blk(0, 0, false);
      heap.ApartFacts();
      heap.ValidFacts();
      AdmitsIs(heap, size, pages);
      var ptr := heap.Kmalloc(size, pages);
      heap.ApartFacts();
      TookFrames(pages, Served(bs0, size, pages), owned0, heap.owned, free0, heap.pmm.Free());
      if ptr == 0 {
        SurvivorsOf(m0, heap.M(), Live(bs0), Live(heap.bs), Live(bs0));
        Failed(m0, heap.M(), bs0, size, pages, held);
        return;
      }
      b := Added(m0, heap.M(), bs0, size, pages, avail, heap.mem.Length, held);
      ptrs, held := ptrs + [ptr], held + [BufferAt(heap.M(), b)];
    }

    // kcalloc likewise, with the bytes zero; an overflowing product changes nothing.
    method DoCalloc(num: Word, size: Word, ghost pages: seq<nat>) returns (ghost b: Blk)
      requires Valid() && heap.Valid() && Lists(pages, heap.pmm.Available())
      requires Times(num, size) + 7 < TWO64 || TWO64 <= Times(num, size)
      requires Times(num, size) < TWO64 ==> heap.Admits(Times(num, size), pages)
      modifies this, heap, heap.mem, heap.pmm`freePages, heap.pmm`log, heap.pmm.bitmap
      ensures Valid() && heap.Valid()
      ensures TWO64 <= Times(num, size) ==>
                && held == old(held) && heap.bs == old(heap.bs) && heap.gPages == old(heap.gPages)
                && Lists(pages, heap.pmm.Available())
      ensures Times(num, size) < TWO64 ==>
                var r := Served(old(heap.bs), Times(num, size), pages);
                && heap.bs == r.bs && heap.gPages == old(heap.gPages) + |pages| - |r.left|
                && Lists(r.left, heap.pmm.Available())
                && (r.payload.None? ==> held == old(held))
                && (r.payload.Some? ==>
                      && held == old(held) + [BufferAt(heap.M(), b)] && b.at + 4 == r.payload.value
                      && Times(num, size) <= 8 * b.words && Zeroed(heap.M(), b.at + 4, Times(num, size)))
      ensures heap.owned + heap.pmm.Free() == old(heap.owned + heap.pmm.Free())
    {
      hide KernelHeap.Valid, KernelHeap.Sound, Live, Holding, Served, PayloadsKept, Ptr, BufferAt, Lists;
      hide Canonical, TakenFor, Reached, SurvivorsKept, Used, OutsideKept, Zeroed, WordsFor;
      hide P.Allocator.Free, P.Allocator.Available, Fitting, Framed, Disjoint, Headed, Taken;
      ghost var m0, bs0, owned0, free0, avail := heap.M(), heap.bs, heap.owned, heap.pmm.Free(), heap.pmm.Available();
      ghost var total := Times(num, size);
      b := Blk(0, 0, false);
      heap.ApartFacts();
      heap.ValidFacts();
      if total < TWO64 {
        AdmitsIs(heap, total, pages);
        RoundingCovers(total);
      }
      var ptr := heap.Kcalloc(num, size, pages);
      heap.ApartFacts();
      if total < TWO64 {
        TookFrames(pages, Served(bs0, total, pages), owned0, heap.owned, free0, heap.pmm.Free());
        if Served(bs0, total, pages).payload.Some? {
          b := Added(m0, heap.M(), bs0, total, pages, avail, heap.mem.Length, held);
        } else {
          SurvivorsOf(m0, heap.M(), Live(bs0), Live(heap.bs), Live(bs0));
          Failed(m0, heap.M(), bs0, total, pages, held);
        }
      }
      if ptr != 0 {
        ptrs, held := ptrs + [ptr], held + [BufferAt(heap.M(), b)];
      }
    }

    // Buffer k as a block of the list.
    ghost method Find(k: nat) returns (i: nat)
      requires Valid() && k < |ptrs|
      ensures k < |held| && i < |heap.bs| && heap.bs[i] == held[k].blk && heap.bs[i].used
      ensures ptrs[k] == Ptr(heap.hhdm, heap.bs[i].at + 4) != 0 && |held[k].data| == heap.bs[i].words
      ensures Canonical(heap.bs)
    {
      hide KernelHeap.Sound, Live, Intact, Canonical, Described, Headed, KernelHeap.Chained, Holding;
      assert |ptrs| == |held|;
      HeldAt(heap.M(), heap.bs, held, k);
      i :| 0 <= i < |heap.bs| && heap.bs[i] == held[k].blk;
      heap.ValidFacts();
      heap.BlockFacts(i);
      PtrSum4(heap.hhdm, heap.bs[i].at);
    }

    // Block j of that list was b, and has been released: blocks that were apart
    // stay so exactly when the block made of it clears the others.
    ghost predicate Released(bs: seq<Blk>, b: Blk, j: nat, apart: bool)
      reads heap, heap.pmm, heap.pmm.bitmap, heap.mem
    {
      && j < |bs| && bs[j] == b && heap.bs == Release(bs, j)
      && (apart ==> (heap.Valid() <==> Clears(bs, j, heap.mem.Length)))
    }

    // The pointers after krealloc returned this one.
    function Repointed(k: nat, size: Word, moved: nat): seq<nat>
      reads this
      requires k < |ptrs|
    {
      if size == 0 then Without(ptrs, k) else if moved != 0 then ptrs[k := moved] else ptrs
    }

    // krealloc, with what it means for the buffers held.
    method Realloc(k: nat, size: Word, ghost i: nat, ghost pages: seq<nat>)
      returns (moved: nat, ghost us: seq<Buffer>, ghost j: nat, ghost b: Blk)
      requires Valid() && Lists(pages, heap.pmm.Available()) && Canonical(heap.bs)
      requires k < |ptrs| && k < |held| && i < |heap.bs| && heap.bs[i] == held[k].blk && heap.bs[i].used
      requires ptrs[k] == Ptr(heap.hhdm, heap.bs[i].at + 4) != 0 && |held[k].data| == heap.bs[i].words
      requires 8 * heap.bs[i].words < size ==> heap.Valid() && heap.Admits(size, pages) && size + 7 < TWO64
      modifies heap, heap.mem, heap.pmm`freePages, heap.pmm`log, heap.pmm.bitmap
      ensures heap.Sound() && Holding(heap.M(), heap.bs, us)
      ensures Pointing(heap.hhdm, Repointed(k, size, moved), us)
      ensures heap.owned + heap.pmm.Free() == old(heap.owned + heap.pmm.Free())
      ensures size <= 8 * |held[k].data| ==>
                heap.gPages == old(heap.gPages) && Lists(pages, heap.pmm.Available())
      ensures size == 0 ==> us == Without(held, k) && Released(old(heap.bs), held[k].blk, j, old(heap.Valid()))
      ensures 0 < size <= 8 * |held[k].data| ==>
                moved == ptrs[k] && us == held && heap.bs == old(heap.bs) && heap.Valid() == old(heap.Valid())
      ensures 8 * |held[k].data| < size ==>
                var r := Served(old(heap.bs), size, pages);
                && heap.gPages == old(heap.gPages) + |pages| - |r.left| && Lists(r.left, heap.pmm.Available())
                && moved == Pointer(heap.hhdm, r.payload) && (r.payload.Some? ==> moved != 0)
                && (r.payload.None? ==> us == held && heap.Valid() && heap.bs == r.bs)
                && (r.payload.Some? ==>
                      && Released(r.bs, held[k].blk, j, true)
                      && us == held[k := BufferAt(heap.M(), b)] && b.at + 4 == r.payload.value
                      && size <= 8 * b.words && held[k].data <= BufferAt(heap.M(), b).data)
    {
      hide KernelHeap.Valid, KernelHeap.Sound, Live, Holding, Served, HeadersOnly, Ptr, BufferAt, Lists, Canonical;
      hide TakenFor, Reached, SurvivorsKept, Used, OutsideKept, Release, Copied, Intact, P.Allocator.Free, Clears;
      hide P.Allocator.Available, KernelHeap.MovedTo, WordsFor, Fitting, Framed, Disjoint, Headed, Taken, Pointing;
      ghost var m0, bs0, owned0, free0, avail := heap.M(), heap.bs, heap.owned, heap.pmm.Free(), heap.pmm.Available();
      ghost var grows := 8 * bs0[i].words < size;
      us, b := held, Blk(0, 0, false);
      heap.ValidFacts();
      heap.ApartIs();
      if grows {
        heap.ApartFacts();
        AdmitsIs(heap, size, pages);
      }
      moved, j := heap.Krealloc(ptrs[k], size, i, pages);
      if size == 0 {
        j := i;
        PointingLess(heap.hhdm, ptrs, held, k);
        Removed(m0, heap.M(), bs0, i, held, k);
        us := Without(held, k);
      } else if !grows {
        heap.ApartIs();
        assert ptrs[k := ptrs[k]] == ptrs;
        SameHolding(m0, heap.M(), bs0, heap.bs, held);
      } else {
        TookFrames(pages, Served(bs0, size, pages), owned0, heap.owned, free0, heap.pmm.Free());
        if moved == 0 {
          Failed(m0, heap.M(), bs0, size, pages, held);
        } else {
          heap.MovedFacts(m0, Served(bs0, size, pages), bs0[i], j, size);
          b := Moved(m0, heap.M(), bs0, size, pages, avail, heap.mem.Length, held, k, j);
          us := held[k := BufferAt(heap.M(), b)];
          PointingMoved(heap.hhdm, ptrs, held, k, moved, us[k]);
        }
      }
    }

    // A buffer resized keeps what it held; resized to nothing it is freed.
    method DoRealloc(k: nat, size: Word, ghost pages: seq<nat>) returns (ghost j: nat, ghost b: Blk)
      requires Valid() && k < |ptrs| && k < |held| && Lists(pages, heap.pmm.Available())
      requires 8 * |held[k].data| < size ==> heap.Valid() && heap.Admits(size, pages) && size + 7 < TWO64
      modifies this, heap, heap.mem, heap.pmm`freePages, heap.pmm`log, heap.pmm.bitmap
      ensures Valid() && heap.owned + heap.pmm.Free() == old(heap.owned + heap.pmm.Free())
      ensures size <= 8 * |old(held)[k].data| ==>
                heap.gPages == old(heap.gPages) && Lists(pages, heap.pmm.Available())
      ensures size == 0 ==>
                held == Without(old(held), k) && Released(old(heap.bs), old(held)[k].blk, j, old(heap.Valid()))
      ensures 0 < size <= 8 * |old(held)[k].data| ==>
                held == old(held) && heap.bs == old(heap.bs) && heap.Valid() == old(heap.Valid())
      ensures 8 * |old(held)[k].data| < size ==>
                var r := Served(old(heap.bs), size, pages);
                && heap.gPages == old(heap.gPages) + |pages| - |r.left| && Lists(r.left, heap.pmm.Available())
                && (r.payload.None? ==> held == old(held) && heap.Valid() && heap.bs == r.bs)
                && (r.payload.Some? ==>
                      && Released(r.bs, old(held)[k].blk, j, true)
                      && held == old(held)[k := BufferAt(heap.M(), b)] && b.at + 4 == r.payload.value
                      && size <= 8 * b.words && old(held)[k].data <= BufferAt(heap.M(), b).data)
    {
      hide KernelHeap.Valid, KernelHeap.Sound, Holding, BufferAt, Ptr, P.Allocator.Free, P.Allocator.Available;
      hide Served, Lists, Canonical, Intact, Released, Pointing, Repointed, WordsFor, KernelHeap.Admits;
      ghost var i := Find(k);
      var moved;
      ghost var us;
      moved, us, j, b := Realloc(k, size, i, pages);
      ptrs, held := Repointed(k, size, moved), us;
    }

    // A buffer given back, whatever frames the heap has and wherever the free
    // ones lie.
    method DoFree(k: nat) returns (ghost j: nat)
      requires Valid() && k < |ptrs|
      modifies this, heap, heap.mem
      ensures Valid() && k < |old(held)| && held == Without(old(held), k) && |ptrs| == |old(ptrs)| - 1
      ensures Released(old(heap.bs), old(held)[k].blk, j, old(heap.Valid()))
      ensures heap.gPages == old(heap.gPages) && heap.owned == old(heap.owned)
      ensures heap.pmm.Free() == old(heap.pmm.Free()) && heap.pmm.Available() == old(heap.pmm.Available())
    {
      hide KernelHeap.Valid, KernelHeap.Sound, Live, Holding, HeadersOnly, PayloadsKept, Ptr, Canonical, Release;
      hide SurvivorsKept, P.Allocator.Free, P.Allocator.Available, Heads, Clears;
      ghost var m0, bs0 := heap.M(), heap.bs;
      j := Find(k);
      heap.Kfree(ptrs[k], j);
      SurvivorsOf(m0, heap.M(), Live(bs0), Live(heap.bs), Live(heap.bs));
      Removed(m0, heap.M(), bs0, j, held, k);
      ptrs, held := Without(ptrs, k), Without(held, k);
    }

    lemma NoneHeld()
      requires Valid() && |ptrs| == 0
      ensures held == [] && heap.gUsedBytes == 0 && heap.gUsedBlocks == 0
      ensures if heap.gPages == 0 then heap.bs == [] else OneFree(heap.bs, heap.gPages)
    {
      hide KernelHeap.Sound, Canonical, Total, Live, Words, Intact;
      heap.ValidFacts();
      assert Live(heap.bs) == [];
      EmptyLive();
      NoWords();
      AllFreed(heap.bs, heap.gPages);
    }

    // How many words buffer k has.
    method Capacity(k: nat) returns (words: nat)
      requires Valid() && k < |ptrs|
      ensures k < |held| && words == |held[k].data|
    {
      hide KernelHeap.Sound, Live, Holding, Ptr, Canonical, KernelHeap.Chained, Total, Headed;
      ghost var i := Find(k);
      heap.ValidFacts();
      heap.HeaderFacts(i);
      PtrSum4(heap.hhdm, heap.bs[i].at);
      var size := heap.GetSize(ptrs[k] - 32, heap.bs[i].at);
      words := size / 8;
    }

    // The client writes a word of its own.
    method DoPoke(k: nat, off: nat, v: Word)
      requires Valid() && k < |ptrs| && k < |held| && off < |held[k].data|
      modifies this, heap.mem
      ensures Valid() && held == old(held)[k := old(held)[k].(data := old(held)[k].data[off := v])]
      ensures ptrs == old(ptrs) && heap.Valid() == old(heap.Valid())
      ensures heap.pmm.Available() == old(heap.pmm.Available()) && heap.pmm.Free() == old(heap.pmm.Free())
      ensures exists i :: && 0 <= i < |heap.bs| && heap.bs[i].at + 4 + off < |heap.M()| && off < heap.bs[i].words
                          && heap.M() == old(heap.M())[heap.bs[i].at + 4 + off := v]
    {
      hide Live, Linked, Intact, Holding, P.Allocator.Valid, P.Allocator.Free, P.Allocator.Available, Canonical;
      hide Words, Node, Total, PayloadsKept, Disjoint, Headed;
      ghost var m0 := heap.M();
      ghost var i := Find(k);
      heap.BlockFacts(i);
      var at := (ptrs[k] - heap.hhdm) / 8 + off;
      heap.mem[at] := v;
      Poked(m0, heap.M(), heap.hhdm, heap.bs, heap.freeList, held, k, i, off, v);
      held := held[k := held[k].(data := held[k].data[off := v])];
    }

    // ---------- runs ----------

    // The frames ahead of the heap serve any call.
    lemma AmpleAdmits(size: Word, pages: seq<nat>)
      requires heap.Valid() && Ample(1) && Lists(pages, heap.pmm.Available())
      ensures heap.Admits(size, pages) && Canonical(heap.bs)
      ensures Admitted(heap.bs, size, pages, heap.mem.Length) && Framed(heap.pmm.Available(), heap.mem.Length)
      ensures Disjoint(heap.bs, heap.mem.Length)
    {
      hide KernelHeap.Valid, KernelHeap.Sound, InOrder, Ahead, Canonical, P.Allocator.Available, Lists, Fitting, Taken;
      hide Framed, Disjoint, Headed;
      heap.ApartFacts();
      heap.ValidFacts();
      StayAhead(heap.bs, size, pages, heap.pmm.Available(), heap.mem.Length);
    }

    // What every call keeps while the available frames lie ahead: they still do,
    // the blocks lie apart and in order, and tile the pages if they did.
    ghost predicate Orderly(bs: seq<Blk>, avail: set<nat>)
      reads this, heap, heap.pmm, heap.pmm.bitmap, heap.mem
    {
      && Valid() && heap.Valid() && InOrder(heap.bs) && Ahead(heap.pmm.Available(), End(heap.bs))
      && (Tiled(bs, avail) ==> Tiled(heap.bs, heap.pmm.Available()))
    }

    lemma OrderlyServed(bs: seq<Blk>, size: Word, pages: seq<nat>, avail: set<nat>)
      requires Valid() && heap.Valid() && InOrder(bs) && Canonical(bs) && Ahead(avail, End(bs)) && Lists(pages, avail)
      requires var r := Served(bs, size, pages); heap.bs == r.bs && Lists(r.left, heap.pmm.Available())
      ensures Orderly(bs, avail) && |pages| - |Served(bs, size, pages).left| <= 2
    {
      hide Valid, KernelHeap.Valid, InOrder, Canonical, Ahead, Lists, Served, Tiled, P.Allocator.Available;
      TookAhead(bs, size, pages, avail, heap.pmm.Available());
      if Tiled(bs, avail) {
        TiledServed(bs, size, pages, avail, heap.pmm.Available());
      }
    }

    lemma OrderlyReleased(bs: seq<Blk>, b: Blk, i: nat)
      requires Valid() && InOrder(bs) && Canonical(bs) && Ahead(heap.pmm.Available(), End(bs))
      requires Disjoint(bs, heap.mem.Length) && b.used && Released(bs, b, i, true)
      ensures Orderly(bs, heap.pmm.Available())
    {
      hide Valid, KernelHeap.Valid, InOrder, Canonical, Ahead, Release, Clears, Disjoint, Tiled, P.Allocator.Available;
      GaveAhead(bs, i, heap.pmm.Available(), heap.mem.Length);
      if Tiled(bs, heap.pmm.Available()) {
        TiledReleased(bs, i, heap.pmm.Available());
      }
    }

    method MallocAhead(size: Word)
      requires Valid() && heap.Valid() && Ample(1)
      modifies this, heap, heap.mem, heap.pmm`freePages, heap.pmm`log, heap.pmm.bitmap
      ensures Orderly(old(heap.bs), old(heap.pmm.Available())) && heap.gPages <= old(heap.gPages) + 2
      ensures heap.owned + heap.pmm.Free() == old(heap.owned + heap.pmm.Free())
    {
      hide Valid, KernelHeap.Valid, InOrder, Canonical, Ahead, Lists, Served, P.Allocator.Available, P.Allocator.Free;
      hide Framed, Disjoint, Orderly, KernelHeap.Admits, WordsFor, BufferAt;
      ghost var bs, avail := heap.bs, heap.pmm.Available();
      ghost var pages := Enumerate(avail);
      AmpleAdmits(size, pages);
      ghost var b := DoMalloc(size, pages);
      OrderlyServed(bs, size, pages, avail);
    }

    method CallocAhead(num: Word, size: Word)
      requires Valid() && heap.Valid() && Ample(1) && (Times(num, size) + 7 < TWO64 || TWO64 <= Times(num, size))
      modifies this, heap, heap.mem, heap.pmm`freePages, heap.pmm`log, heap.pmm.bitmap
      ensures Orderly(old(heap.bs), old(heap.pmm.Available())) && heap.gPages <= old(heap.gPages) + 2
      ensures heap.owned + heap.pmm.Free() == old(heap.owned + heap.pmm.Free())
    {
      hide Valid, KernelHeap.Valid, InOrder, Canonical, Ahead, Lists, Served, P.Allocator.Available, P.Allocator.Free;
      hide Framed, Disjoint, KernelHeap.Admits, WordsFor, BufferAt, Times, Tiled, Zeroed;
      ghost var bs, avail := heap.bs, heap.pmm.Available();
      ghost var pages := Enumerate(avail);
      AmpleAdmits(0, pages);
      if Times(num, size) < TWO64 {
        AmpleAdmits(Times(num, size), pages);
      }
      ghost var b := DoCalloc(num, size, pages);
      if Times(num, size) < TWO64 {
        OrderlyServed(bs, Times(num, size), pages, avail);
      } else {
        ListsAll(pages, avail);
        ListsAll(pages, heap.pmm.Available());
      }
    }

    method ReallocAhead(k: nat, size: Word)
      requires Valid() && heap.Valid() && Ample(1) && k < |ptrs| && size + 7 < TWO64
      modifies this, heap, heap.mem, heap.pmm`freePages, heap.pmm`log, heap.pmm.bitmap
      ensures Orderly(old(heap.bs), old(heap.pmm.Available())) && heap.gPages <= old(heap.gPages) + 2
      ensures heap.owned + heap.pmm.Free() == old(heap.owned + heap.pmm.Free())
    {
      hide Valid, KernelHeap.Valid, InOrder, Canonical, Ahead, Lists, Served, P.Allocator.Available, P.Allocator.Free;
      hide Framed, Disjoint, KernelHeap.Admits, WordsFor, BufferAt, Tiled, Released, Admitted;
      ghost var bs, avail := heap.bs, heap.pmm.Available();
      ghost var pages := Enumerate(avail);
      ghost var i := Find(k);
      ghost var old_b := held[k].blk;
      AmpleAdmits(size, pages);
      ghost var j, b := DoRealloc(k, size, pages);
      if size <= 8 * old_b.words {
        ListsAll(pages, avail);
        ListsAll(pages, heap.pmm.Available());
        if size == 0 {
          OrderlyReleased(bs, old_b, j);
        }
      } else if Served(bs, size, pages).payload.None? {
        OrderlyServed(bs, size, pages, avail);
      } else {
        OrderlyMoved(bs, size, pages, avail, old_b, j);
      }
    }

    lemma OrderlyMoved(bs: seq<Blk>, size: Word, pages: seq<nat>, avail: set<nat>, b: Blk, j: nat)
      requires Valid() && InOrder(bs) && Canonical(bs) && Ahead(avail, End(bs)) && Lists(pages, avail)
      requires Disjoint(bs, heap.mem.Length) && Framed(avail, heap.mem.Length) && b.used
      requires Admitted(bs, size, pages, heap.mem.Length)
      requires var r := Served(bs, size, pages);
               Released(r.bs, b, j, true) && Lists(r.left, heap.pmm.Available())
      ensures Orderly(bs, avail) && |pages| - |Served(bs, size, pages).left| <= 2
    {
      hide Valid, KernelHeap.Valid, InOrder, Canonical, Ahead, Lists, Served, Tiled, P.Allocator.Available, Released;
      hide Framed, Disjoint, Admitted;
      var r := Served(bs, size, pages);
      TookAhead(bs, size, pages, avail, heap.pmm.Available());
      ServedCanonical(bs, size, pages);
      ServedDisjoint(bs, size, pages, avail, heap.mem.Length);
      OrderlyReleased(r.bs, b, j);
      if Tiled(bs, avail) {
        TiledServed(bs, size, pages, avail, heap.pmm.Available());
      }
    }

    method FreeAhead(k: nat)
      requires Valid() && heap.Valid() && InOrder(heap.bs) && Ahead(heap.pmm.Available(), End(heap.bs)) && k < |ptrs|
      modifies this, heap, heap.mem
      ensures Orderly(old(heap.bs), old(heap.pmm.Available())) && heap.gPages == old(heap.gPages)
      ensures heap.owned + heap.pmm.Free() == old(heap.owned + heap.pmm.Free()) && |ptrs| == |old(ptrs)| - 1
    {
      hide Valid, KernelHeap.Valid, KernelHeap.Sound, InOrder, Canonical, Ahead, P.Allocator.Available;
      hide P.Allocator.Free;
      hide Disjoint, Orderly, Released, Framed, Ptr;
      ghost var bs := heap.bs;
      heap.ApartFacts();
      ghost var i := Find(k);
      ghost var b := held[k].blk;
      ghost var j := DoFree(k);
      OrderlyReleased(bs, b, j);
    }

    // One call; a buffer or an offset that is not there is left alone, and so is
    // a size that would wrap when rounded up.
    method Perform(call: Call)
      requires Valid() && heap.Valid() && Ample(1)
      modifies this, heap, heap.mem, heap.pmm`freePages, heap.pmm`log, heap.pmm.bitmap
      ensures Orderly(old(heap.bs), old(heap.pmm.Available())) && heap.gPages <= old(heap.gPages) + 2
      ensures heap.owned + heap.pmm.Free() == old(heap.owned + heap.pmm.Free())
    {
      hide Valid, KernelHeap.Valid, InOrder, Ahead, Tiled, P.Allocator.Free, P.Allocator.Available;
      match call {
        case Malloc(size) => MallocAhead(size);
        case Calloc(num, size) =>
          if num * size + 7 < TWO64 || TWO64 <= num * size {
            CallocAhead(num, size);
          }
        case Realloc(k, size) =>
          if k < |ptrs| && size + 7 < TWO64 {
            ReallocAhead(k, size);
          }
        case Free(k) =>
          if k < |ptrs| {
            FreeAhead(k);
          }
        case Poke(k, off, v) =>
          if k < |ptrs| {
            var words := Capacity(k);
            if off < words {
              DoPoke(k, off, v);
            }
          }
      }
    }

    // Any calls whatever, and then everything that is still held freed: the heap
    // is one free block of all its pages, and its frames and the free ones are
    // together what they were. Frames that make one run stay tiled throughout.
    method Run(calls: seq<Call>)
      requires Valid() && heap.Valid() && Ample(|calls|)
      modifies this, heap, heap.mem, heap.pmm`freePages, heap.pmm`log, heap.pmm.bitmap
      ensures Orderly(old(heap.bs), old(heap.pmm.Available()))
      ensures held == [] && heap.gUsedBytes == 0 && heap.gUsedBlocks == 0
      ensures if heap.gPages == 0 then heap.bs == [] else OneFree(heap.bs, heap.gPages)
      ensures heap.owned + heap.pmm.Free() == old(heap.owned + heap.pmm.Free())
    {
      hide Valid, KernelHeap.Valid, InOrder, Ahead, Tiled, P.Allocator.Free, P.Allocator.Available;
      for n := 0 to |calls|
        invariant Orderly(old(heap.bs), old(heap.pmm.Available())) && Ample(|calls| - n)
        invariant heap.owned + heap.pmm.Free() == old(heap.owned + heap.pmm.Free())
      {
        Perform(calls[n]);
      }
      while |ptrs| > 0
        invariant Orderly(old(heap.bs), old(heap.pmm.Available()))
        invariant heap.owned + heap.pmm.Free() == old(heap.owned + heap.pmm.Free())
        decreases |ptrs|
      {
        FreeAhead(0);
      }
      NoneHeld();
    }
  }
}
