// The kernel heap: a first-fit allocator whose blocks live in page frames, read
// and written through the direct map.

module Heap {
  import opened Machine
  import opened HeapApart
  import opened HeapList
  import opened HeapPages
  import opened HeapMemory
  import opened HeapBytes
  import P = Pmm

  // (size + 7) & ~7, in words.
  function WordsFor(size: Word): nat {
    (size + 7) % 0x1_0000_0000_0000_0000 / 8
  }

  // Rounding covers the request, and by less than a word, unless it wraps.
  lemma RoundingCovers(size: Word)
    ensures 8 * WordsFor(size) >= size <==> size == 0 || size + 7 < TWO64
    ensures size + 7 < TWO64 ==> 8 * WordsFor(size) < size + 8
  {
    if size + 7 >= TWO64 {
      Quotient(size + 7, 0x1_0000_0000_0000_0000, 1, size + 7 - TWO64);
    }
  }

  // The division test of kcalloc fails exactly on overflow.
  lemma OverflowCheck(num: Word, size: Word)
    ensures var total := num * size % 0x1_0000_0000_0000_0000;
            && (num != 0 && total / num != size <==> num * size >= TWO64)
            && (num * size < TWO64 ==> total == num * size)
  {
    var total := num * size % 0x1_0000_0000_0000_0000;
    if num > 0 {
      if num * size < TWO64 {
        Quotient(num * size, num, size, 0);
      } else {
        assert total < num * size;
        Scale(num, total / num - size);
      }
    }
  }

  // What kmalloc does for a request of that many bytes.
  function Served(bs: seq<Blk>, size: Word, pages: seq<nat>): (r: Result)
    ensures |r.left| <= |pages| && r.left == pages[|pages| - |r.left|..]
  {
    if size == 0 then Result(bs, None, pages) else Allocate(bs, WordsFor(size), pages)
  }

  // The pages it takes.
  function Used(pages: seq<nat>, r: Result): seq<nat>
    requires |r.left| <= |pages|
  {
    pages[..|pages| - |r.left|]
  }

  function Pointer(hhdm: nat, payload: Option<nat>): nat {
    match payload
    case None => 0
    case Some(at) => Ptr(hhdm, at)
  }

  // The words kmalloc may write.
  function Reached(bs: seq<Blk>, size: Word, pages: seq<nat>): set<nat> {
    if size == 0 then {} else Touched(bs, WordsFor(size), pages)
  }

  lemma UsedIs(bs: seq<Blk>, size: Word, pages: seq<nat>)
    requires size > 0
    ensures Used(pages, Served(bs, size, pages)) == pages[..Taken(bs, WordsFor(size), pages)]
  {
  }

  lemma UncutList(bs: seq<Blk>, i: nat, words: nat)
    requires i < |bs| && bs[i].words < words + 5
    ensures Split(bs, i, words) == bs
  {
  }

  lemma {:induction false} LiveShorter(bs: seq<Blk>)
    ensures |Live(bs)| <= |bs|
  {
    if bs != [] {
      LiveShorter(bs[1..]);
    }
  }

  lemma LiveNext(bs: seq<Blk>, i: nat)
    requires i < |bs|
    ensures |Live(bs[..i + 1])| == |Live(bs[..i])| + if bs[i].used then 1 else 0
  {
    hide Live;
    assert bs[..i + 1] == bs[..i] + [bs[i]];
    LiveOfConcat(bs[..i], [bs[i]]);
    LiveOne(bs[i]);
  }

  lemma LiveCount(bs: seq<Blk>, i: nat, words: nat)
    requires i < |bs| && Fits(bs[i], words)
    ensures |Live(Place(bs, i, words))| == |Live(bs)| + 1
  {
    hide Live, Place, Placed;
    PlaceLive(bs, i, words);
  }

  // The 32-bit counters are exact and far from wrapping.
  lemma CountersFit(bs: seq<Blk>, pages: nat)
    requires Total(bs) == 512 * pages
    ensures 8 * Words(Live(bs)) <= 4096 * pages && |Live(bs)| <= |bs| <= 128 * pages
    ensures 4096 * pages == 32 * |bs| + 8 * Words(Live(bs)) + 8 * FreeWords(bs)
  {
    hide Total, Words, Live, FreeWords;
    Accounted(bs);
    LiveShorter(bs);
  }

  // Releasing another block leaves a live one live.
  lemma ReleaseSpares(bs: seq<Blk>, n: nat, j: nat)
    requires n < |bs| && j < |bs| && n != j && bs[n].used && bs[j].used && Canonical(bs)
    ensures bs[n] in Live(Release(bs, j))
  {
    hide Live, Release;
    ReleaseLive(bs, j);
    LiveIsUsed(bs[..j], bs[n]);
    LiveIsUsed(bs[j + 1..], bs[n]);
    if n < j {
      assert bs[..j][n] == bs[n];
    } else {
      assert bs[j + 1..][n - j - 1] == bs[n];
    }
  }

  // The page of kmalloc's second half fits the list searched first.
  lemma GrownFits(bs: seq<Blk>, words: nat, pages: seq<nat>, avail: set<nat>, hi: nat)
    requires Disjoint(bs, hi) && Lists(pages, avail) && Framed(avail, hi) && Fitting(bs, words, pages, hi)
    ensures var s, left := Started(bs, pages), Unstarted(bs, pages);
            && Disjoint(s, hi)
            && (s != [] && FirstFit(s, words) == |s| && left != [] ==>
                  && left[0] >= 512 && left[0] + 512 <= hi
                  && Fresh(s, left[0]) && (s[|s| - 1].used || Room(s, hi)))
  {
    hide FirstFit, Lists, Grow, Framed, Place;
    FramedPages(pages, avail, hi);
    if bs == [] && pages != [] {
      DisjointOne(Blk(pages[0], 508, false), hi);
    }
  }

  // Where a successful kmalloc put its block, which is none of the old ones.
  lemma NewBlock(bs: seq<Blk>, words: nat, pages: seq<nat>, avail: set<nat>, hi: nat) returns (n: nat)
    requires Disjoint(bs, hi) && Canonical(bs) && Lists(pages, avail) && Framed(avail, hi)
    requires Fitting(bs, words, pages, hi) && Allocate(bs, words, pages).payload.Some?
    ensures var r := Allocate(bs, words, pages);
            && n < |r.bs| && r.bs[n].used && words <= r.bs[n].words <= words + 4
            && r.payload.value == r.bs[n].at + 4
            && forall b :: b in Live(bs) ==> b in Live(r.bs) && b in r.bs && b.used && b.at != r.bs[n].at
  {
    hide Live, Placed, Place, Grow, Canonical, Disjoint, Lists, Fitting, Framed;
    AllocateLive(bs, words, pages);
    var r, s := Allocate(bs, words, pages), Searched(bs, words, pages);
    n := FirstFit(s, words);
    PlaceIsSplitAndMark(s, n, words);
    SearchedDisjoint(bs, words, pages, avail, hi);
    forall b | b in Live(bs)
      ensures b in Live(r.bs) && b in r.bs && b.used && b.at != r.bs[n].at
    {
      LiveIsUsed(r.bs, b);
      LiveElsewhere(s, n, b, hi);
    }
  }

  lemma SearchedDisjoint(bs: seq<Blk>, words: nat, pages: seq<nat>, avail: set<nat>, hi: nat)
    requires Disjoint(bs, hi) && Lists(pages, avail) && Framed(avail, hi) && Fitting(bs, words, pages, hi)
    ensures Disjoint(Searched(bs, words, pages), hi)
  {
    hide Grow, Place, Disjoint, Lists, FirstFit, Fitting, Framed, Fresh;
    GrownFits(bs, words, pages, avail, hi);
    var s, left := Started(bs, pages), Unstarted(bs, pages);
    if s != [] && FirstFit(s, words) == |s| && left != [] {
      GrowDisjoint(s, left[0], hi);
    }
  }

  lemma LiveElsewhere(s: seq<Blk>, n: nat, b: Blk, hi: nat)
    requires n < |s| && Disjoint(s, hi) && b in Live(s[..n]) + Live(s[n + 1..])
    ensures b.at != s[n].at
  {
    LiveIsUsed(s[..n], b);
    LiveIsUsed(s[n + 1..], b);
    if b in s[..n] {
      var j :| 0 <= j < n && s[j] == b;
      OffAt(s, hi, j, n);
    } else {
      var j :| n < j < |s| && s[j] == b;
      OffAt(s, hi, n, j);
    }
  }

  // What is live after a release was live before, and is one block less.
  lemma FreeDrops(bs: seq<Blk>, i: nat)
    requires i < |bs| && bs[i].used && Canonical(bs)
    ensures Lo(Release(bs, i)) == Lo(bs) && Release(bs, i) != [] && Total(Release(bs, i)) == Total(bs)
    ensures Canonical(Release(bs, i)) && Live(Release(bs, i)) == Live(Freed(bs, i))
    ensures |Live(bs)| == |Live(Freed(bs, i))| + 1
    ensures Words(Live(bs)) == Words(Live(Freed(bs, i))) + bs[i].words
    ensures forall b :: b in Live(Freed(bs, i)) ==> b in Live(bs)
  {
    hide Live, Words, Canonical, Release, Total;
    FreedLive(bs, i);
    ReleaseLive(bs, i);
    ReleaseTotal(bs, i);
  }

  lemma ReleaseApart(bs: seq<Blk>, i: nat, hi: nat)
    requires i < |bs| && bs[i].used && Canonical(bs)
    ensures Disjoint(bs, hi) ==> (Disjoint(Release(bs, i), hi) <==> Clears(bs, i, hi))
  {
    hide Disjoint, Canonical, Release, Clears;
    if Disjoint(bs, hi) {
      ReleaseDisjoint(bs, i, hi);
    }
  }

  lemma PtrSum(hhdm: nat, at: nat, words: nat, length: nat)
    requires at + words < length && hhdm + 8 * length <= TWO64
    ensures Ptr(hhdm, at) + 8 * words == Ptr(hhdm, at + words) < TWO64
  {
  }

  lemma PtrSum4(hhdm: nat, at: nat)
    ensures Ptr(hhdm, at) + 32 == Ptr(hhdm, at + 4)
  {
  }

  // The word and the address of a frame.
  lemma FrameWord(hhdm: nat, at: nat, phys: nat, total: nat)
    requires at % 512 == 0 && phys % 4096 == 0 && at / 512 == phys / 4096 && 0 < phys / 4096 < total
    requires hhdm + 8 * (512 * total) <= TWO64
    ensures (phys + hhdm) % 0x1_0000_0000_0000_0000 == phys + hhdm == Ptr(hhdm, at)
    ensures at >= 512 && at + 512 <= 512 * total
  {
  }

  lemma FirstFitIs(bs: seq<Blk>, words: nat, i: nat)
    requires i <= |bs| && (i < |bs| ==> Fits(bs[i], words)) && forall j :: 0 <= j < i ==> !Fits(bs[j], words)
    ensures FirstFit(bs, words) == i
  {
  }

  // The sizes in the headers are bounded by the pages, wherever the blocks lie.
  lemma {:induction false} SizeBound(bs: seq<Blk>, i: nat)
    requires i < |bs|
    ensures 4 + bs[i].words <= Total(bs)
    ensures i + 1 < |bs| ==> 4 + bs[i].words + 4 + bs[i + 1].words <= Total(bs)
  {
    if i > 0 {
      SizeBound(bs[1..], i - 1);
    } else if |bs| > 1 {
      assert bs[1..][0] == bs[1];
    }
  }

  lemma AppendedTotal(bs: seq<Blk>, at: nat)
    ensures Total(Appended(bs, at)) == Total(bs) + 512
  {
    TotalOfConcat(bs, [Blk(at, 508, false)]);
    TotalOne(Blk(at, 508, false));
  }

  // A heap of one page.
  lemma StartFacts(at: nat)
    ensures var s := [Blk(at, 508, false)];
            Live(s) == [] && Words(Live(s)) == 0 && Total(s) == 512 && Canonical(s) && Heads(s) == {at}
  {
    StartedKeeps(at);
    LiveOne(Blk(at, 508, false));
    NoWords();
  }

  lemma NoWords()
    ensures Words([]) == 0
  {
  }

  lemma TailAside(bs: seq<Blk>, at: nat)
    requires bs != [] && Fresh(bs, at)
    ensures bs[|bs| - 1].at + 2 != at + 3
  {
    assert bs[|bs| - 1] in bs;
  }

  // Dressing a page that meets no block does not touch the heap.
  lemma PageAside(m: Mem, m': Mem, hhdm: nat, bs: seq<Blk>, freeList: nat, at: nat)
    requires Linked(m, hhdm, bs, freeList) && Only(m, m', {at, at + 1, at + 2, at + 3}) && Fresh(bs, at)
    ensures Linked(m', hhdm, bs, freeList) && PayloadsKept(m, m', Live(bs))
  {
    hide Linked, PayloadsKept, Live, InBlocks, Only, Fresh;
    forall k | k in {at, at + 1, at + 2, at + 3}
      ensures !InBlocks(bs, k)
    {
      FreshWords(bs, at, k);
    }
    LinkedOutside(m, m', {at, at + 1, at + 2, at + 3}, hhdm, bs, freeList);
  }

  // The frames of these pages left the free set and became the heap's.
  ghost predicate TakenFor(pages: seq<nat>, owned: set<nat>, owned': set<nat>, free: set<nat>, free': set<nat>) {
    var fs := FramesOf(pages);
    fs <= free && owned' == owned + fs && free' == free - fs
  }

  lemma Nothing(pages: seq<nat>, owned: set<nat>, free: set<nat>)
    ensures TakenFor(pages[..0], owned, owned, free, free)
  {
  }

  // The first page, when it is not in what is left.
  function FirstOf(pages: seq<nat>, left: seq<nat>): set<nat> {
    if |left| < |pages| then {pages[0]} else {}
  }

  lemma TakenMore(pages: seq<nat>, n: nat, k: nat, owned: set<nat>, owned1: set<nat>, owned2: set<nat>,
                  free: set<nat>, free1: set<nat>, free2: set<nat>)
    requires n <= 1 && k <= 1 && n + k <= |pages|
    requires TakenFor(pages[..n], owned, owned1, free, free1) && TakenFor(pages[n..][..k], owned1, owned2, free1, free2)
    ensures TakenFor(pages[..n + k], owned, owned2, free, free2)
  {
    FirstFrames(pages);
    FirstFrames(pages[n..]);
  }

  lemma TouchedHas(bs: seq<Blk>, words: nat, pages: seq<nat>)
    ensures var hs, n := Touched(bs, words, pages), Taken(bs, words, pages);
            && Heads(bs) <= hs && Heads(Allocate(bs, words, pages).bs) <= hs
            && (n >= 1 ==> pages[0] in hs) && (n >= 2 ==> pages[1] in hs)
  {
    var n := Taken(bs, words, pages);
    if n >= 1 {
      assert pages[..n][0] == pages[0];
    }
    if n >= 2 {
      assert pages[..n][1] == pages[1];
    }
  }

  // What is left of kmalloc once the heap has a page.
  function Settled(s: seq<Blk>, words: nat, left: seq<nat>): (r: Result)
    ensures r.left == left || (left != [] && r.left == left[1..])
  {
    var i := FirstFit(s, words);
    if i < |s| then Result(Place(s, i, words), Some(s[i].at + 4), left)
    else if left == [] then Result(s, None, left)
    else
      var t := Grow(s, left[0]);
      var j := FirstFit(t, words);
      if j < |t| then Result(Place(t, j, words), Some(t[j].at + 4), left[1..]) else Result(t, None, left[1..])
  }

  // kmalloc gets its first page when it has none, and settles the request.
  lemma AllocateIs(bs: seq<Blk>, words: nat, pages: seq<nat>)
    ensures var r, s, left := Allocate(bs, words, pages), Started(bs, pages), Unstarted(bs, pages);
            && left == pages[|pages| - |left|..] && |pages| - 1 <= |left| <= |pages|
            && (|left| < |pages| ==> bs == [] && pages != []) && (|left| == |pages| ==> s == bs)
            && (if s == [] then r == Result(s, None, left) else r == Settled(s, words, left))
            && Taken(bs, words, pages) == |pages| - |r.left|
            && (|r.left| < |left| ==> s != [] && FirstFit(s, words) == |s| && left != [])
  {
    hide Grow, Place, FirstFit;
    assert pages[0..] == pages;
  }

  lemma FreedSums(bs: seq<Blk>, i: nat)
    requires i < |bs|
    ensures Total(Freed(bs, i)) == Total(bs) && Freed(bs, i) == bs[i := bs[i].(used := false)]
  {
    hide Total, Freed;
    TotalOne(bs[i]);
    TotalOne(bs[i].(used := false));
    SwapTotal(bs[..i], [bs[i]], [bs[i].(used := false)], bs[i + 1..]);
    FreedAround(bs, i);
    FreedAs(bs, i);
  }

  lemma FreedAs(bs: seq<Blk>, i: nat)
    requires i < |bs|
    ensures Freed(bs, i) == bs[i := bs[i].(used := false)]
  {
  }

  datatype Stats = Stats(pagesAllocated: nat, totalBytes: nat, usedBytes: nat, freeBytes: nat,
                         totalBlocks: nat, usedBlocks: nat, freeBlocks: nat)

  class KernelHeap {
    const pmm: P.Allocator
    const mem: array<Word>
    const hhdm: nat
    var freeList: nat
    var gPages: nat
    var gUsedBytes: nat
    var gUsedBlocks: nat
    ghost var bs: seq<Blk>
    // The frames heap_new_page was given.
    ghost var owned: set<nat>

    ghost function M(): Mem
      reads mem
    {
      mem[..]
    }

    // One memory, one allocator, and the heap's own frames are not free.
    ghost predicate Backed()
      reads this, pmm, pmm.bitmap
    {
      && pmm.Valid() && (mem as object) != (pmm.bitmap as object?) && mem.Length == 512 * pmm.total
      && owned !! pmm.Free() && |owned| == gPages && 4096 * gPages < 0x1_0000_0000
    }

    // The list lies in memory and adds up to the heap's pages.
    ghost predicate Chained()
      reads this, pmm, pmm.bitmap, mem
    {
      Backed() && Linked(M(), hhdm, bs, freeList) && Total(bs) == 512 * gPages
    }

    // What every call keeps whatever frames it was given: no two neighbours are
    // free, the counters are exact, and blocks handed out share no word.
    ghost predicate Sound()
      reads this, pmm, pmm.bitmap, mem
    {
      && Chained() && Canonical(bs)
      && gUsedBytes == 8 * Words(Live(bs)) && gUsedBlocks == |Live(bs)|
    }

    // And free blocks share no word with any other.
    ghost predicate Valid()
      reads this, pmm, pmm.bitmap, mem
    {
      Sound() && Disjoint(bs, mem.Length)
    }

    constructor (pmm: P.Allocator, mem: array<Word>, hhdm: nat)
      requires pmm.Valid() && (mem as object) != (pmm.bitmap as object?)
      requires mem.Length == 512 * pmm.total && hhdm + 8 * mem.Length <= TWO64
      ensures Valid() && this.pmm == pmm && this.mem == mem && this.hhdm == hhdm && bs == [] && owned == {}
    {
      this.pmm, this.mem, this.hhdm := pmm, mem, hhdm;
      freeList, gPages, gUsedBytes, gUsedBlocks, bs, owned := 0, 0, 0, 0, [], {};
    }

    // ---------- header fields ----------

    method GetSize(blk: nat, ghost at: nat) returns (w: Word)
      requires blk == Ptr(hhdm, at) && at + 4 <= mem.Length
      ensures w == M()[at] == At(M(), at)
    {
      w := mem[(blk - hhdm) / 8];
    }

    method PutSize(blk: nat, w: Word, ghost at: nat)
      requires blk == Ptr(hhdm, at) && at + 4 <= mem.Length
      modifies mem
      ensures M() == old(M())[at := w]
    {
      mem[(blk - hhdm) / 8] := w;
    }

    method GetMeta(blk: nat, ghost at: nat) returns (w: Word)
      requires blk == Ptr(hhdm, at) && at + 4 <= mem.Length
      ensures w == M()[at + 1] == At(M(), at + 1)
    {
      w := mem[(blk - hhdm) / 8 + 1];
    }

    method PutMeta(blk: nat, w: Word, ghost at: nat)
      requires blk == Ptr(hhdm, at) && at + 4 <= mem.Length
      modifies mem
      ensures M() == old(M())[at + 1 := w]
    {
      mem[(blk - hhdm) / 8 + 1] := w;
    }

    method GetNext(blk: nat, ghost at: nat) returns (w: Word)
      requires blk == Ptr(hhdm, at) && at + 4 <= mem.Length
      ensures w == M()[at + 2] == At(M(), at + 2)
    {
      w := mem[(blk - hhdm) / 8 + 2];
    }

    method PutNext(blk: nat, w: Word, ghost at: nat)
      requires blk == Ptr(hhdm, at) && at + 4 <= mem.Length
      modifies mem
      ensures M() == old(M())[at + 2 := w]
    {
      mem[(blk - hhdm) / 8 + 2] := w;
    }

    method GetPrev(blk: nat, ghost at: nat) returns (w: Word)
      requires blk == Ptr(hhdm, at) && at + 4 <= mem.Length
      ensures w == M()[at + 3] == At(M(), at + 3)
    {
      w := mem[(blk - hhdm) / 8 + 3];
    }

    method PutPrev(blk: nat, w: Word, ghost at: nat)
      requires blk == Ptr(hhdm, at) && at + 4 <= mem.Length
      modifies mem
      ensures M() == old(M())[at + 3 := w]
    {
      mem[(blk - hhdm) / 8 + 3] := w;
    }

    lemma BlockFacts(i: nat)
      requires Chained() && i < |bs|
      ensures Described(M(), hhdm, bs, i) && bs[i].at >= 512 && bs[i].at + 4 <= mem.Length
      ensures bs[i].used ==> bs[i].End() <= mem.Length
      ensures 0 < Ptr(hhdm, bs[i].at) < TWO64 && 8 * bs[i].words + 32 <= 4096 * gPages < 0x1_0000_0000
      ensures hhdm + 8 * mem.Length <= TWO64 && freeList == Ptr(hhdm, bs[0].at) && Headed(bs, mem.Length)
    {
      hide P.Allocator.Valid, P.Allocator.Free, Total;
      LinkedBlock(M(), hhdm, bs, freeList, i);
      SizeBound(bs, i);
    }

    // What a walk along the list reads.
    lemma HeaderFacts(i: nat)
      requires Chained() && i < |bs|
      ensures bs[i].at + 4 <= mem.Length && Ptr(hhdm, bs[i].at) != 0
      ensures At(M(), bs[i].at) == 8 * bs[i].words
      ensures At(M(), bs[i].at + 1) < TWO64 && IsUsed(At(M(), bs[i].at + 1)) == bs[i].used
      ensures if i + 1 < |bs| then At(M(), bs[i].at + 2) == Ptr(hhdm, bs[i + 1].at) != 0 else At(M(), bs[i].at + 2) == 0
    {
      hide Chained, Headed, IsUsed;
      BlockFacts(i);
      if i + 1 < |bs| {
        BlockFacts(i + 1);
      }
    }

    lemma ListFacts()
      requires Chained()
      ensures hhdm + 8 * mem.Length <= TWO64 && Backed() && Linked(M(), hhdm, bs, freeList)
      ensures Total(bs) == 512 * gPages && Headed(bs, mem.Length)
      ensures if bs == [] then freeList == 0 && gPages == 0 && owned == {} else freeList == Ptr(hhdm, Lo(bs)) != 0
    {
      hide P.Allocator.Valid, P.Allocator.Free, Listed, Headed;
      NothingTotal();
    }

    lemma ValidFacts()
      requires Sound()
      ensures Chained() && Canonical(bs) && Total(bs) == 512 * gPages && Headed(bs, mem.Length)
      ensures gUsedBytes == 8 * Words(Live(bs)) && gUsedBlocks == |Live(bs)|
      ensures pmm.Valid() && (mem as object) != (pmm.bitmap as object?)
      ensures owned !! pmm.Free() && |owned| == gPages
    {
      hide P.Allocator.Valid, P.Allocator.Free, Linked, Canonical, Words, Live, Headed;
      ListFacts();
    }

    // The blocks lie apart; the frames the allocator can hand out lie in memory
    // and are not the heap's.
    lemma ApartFacts()
      requires Valid()
      ensures Sound() && Disjoint(bs, mem.Length)
      ensures Framed(pmm.Available(), mem.Length) && pmm.Available() !! owned
    {
      hide Linked, Canonical, Disjoint, Live, Words, Total;
      P.FreeBelow(pmm.bitmap[..], pmm.total);
    }

    lemma ApartIs()
      requires Sound()
      ensures Valid() <==> Disjoint(bs, mem.Length)
    {
      hide Sound, Disjoint;
    }

    // Room for the sizes and links of two neighbours and the block behind them.
    lemma PairFacts(i: nat)
      requires Chained() && i + 1 < |bs|
      ensures Headed(bs, mem.Length)
      ensures hhdm + 8 * mem.Length <= TWO64 && Next(hhdm, bs, i + 1) < TWO64 && Ptr(hhdm, bs[i].at) < TWO64
      ensures 8 * (bs[i].words + 4 + bs[i + 1].words) < 0x1_0000_0000
      ensures bs[i].at + 4 <= bs[i + 1].at || bs[i + 1].at + 4 <= bs[i].at
      ensures i + 2 < |bs| ==> bs[i + 2].at + 4 <= mem.Length
    {
      hide Backed, Linked, Headed, Described, Total;
      BlockFacts(i);
      BlockFacts(i + 1);
      HeadAt(bs, mem.Length, i, i + 1);
      SizeBound(bs, i);
      if i + 2 < |bs| {
        BlockFacts(i + 2);
      }
    }

    lemma CutFacts(i: nat)
      requires Chained() && i < |bs| && Disjoint(bs, mem.Length)
      ensures hhdm + 8 * mem.Length <= TWO64 && Ptr(hhdm, bs[i].at) < TWO64
      ensures bs[i].End() <= mem.Length && 8 * bs[i].words < TWO64
      ensures i + 1 < |bs| ==> Off(bs[i], bs[i + 1]) && bs[i + 1].at + 4 <= mem.Length
    {
      hide Chained, Headed, Described;
      BlockFacts(i);
      if i + 1 < |bs| {
        BlockFacts(i + 1);
        OffAt(bs, mem.Length, i, i + 1);
      }
    }

    // ---------- heap_split ----------

    // The fields of the new block behind a cut.
    method CutEntry(blk: nat, split: nat, size: nat, ghost at: nat, ghost n: nat)
      requires blk == Ptr(hhdm, at) && split == Ptr(hhdm, n) && at + 4 <= n && n + 4 <= mem.Length
      requires size < TWO64 && size % 8 == 0 && blk < TWO64
      modifies mem
      ensures Only(old(M()), M(), {n, n + 1, n + 2, n + 3})
      ensures Node(M(), Blk(n, size / 8, false), At(old(M()), at + 2), blk)
    {
      hide IsUsed, Magic, WithUsed, WithMagic, Ptr;
      PutSize(split, size, n);
      var w := GetMeta(split, n);
      MetaLaws(w, false, HEAP_MAGIC);
      PutMeta(split, WithUsed(w, false), n);
      w := GetMeta(split, n);
      MetaLaws(w, false, HEAP_MAGIC);
      PutMeta(split, WithMagic(w, HEAP_MAGIC), n);
      var next := GetNext(blk, at);
      PutNext(split, next, n);
      PutPrev(split, blk, n);
    }

    method HeapSplit(blk: nat, size: nat, ghost i: nat, ghost words: nat)
      requires Chained() && Disjoint(bs, mem.Length)
      requires i < |bs| && blk == Ptr(hhdm, bs[i].at) && size == 8 * words && words <= bs[i].words
      modifies mem, this`bs
      ensures Heaped(M(), hhdm, bs, freeList) && bs == Split(old(bs), i, words)
      ensures HeadersOnly(old(M()), M(), Heads(bs))
      ensures !old(bs)[i].used ==> PayloadsKept(old(M()), M(), Live(old(bs)))
    {
      hide Chained, PayloadsKept, HeadersOnly, Live, Split, Meta, Only, Heads, Disjoint, Headed;
      hide SplitWords, SplitWritten, Linked;
      BlockFacts(i);
      ListFacts();
      var bsize := GetSize(blk, bs[i].at);
      if bsize < size + 40 {
        UncutList(bs, i, words);
        NothingChanged(M(), Live(bs), Heads(bs));
        return;
      }
      CutAndLink(blk, size, i, words);
      HeapedSplit(old(M()), M(), hhdm, bs, freeList, i, words);
      bs := Split(bs, i, words);
    }

    method CutAndLink(blk: nat, size: nat, ghost i: nat, ghost words: nat)
      requires Chained() && Disjoint(bs, mem.Length)
      requires i < |bs| && blk == Ptr(hhdm, bs[i].at) && size == 8 * words && words + 5 <= bs[i].words
      modifies mem
      ensures Only(old(M()), M(), SplitWords(bs, i, words)) && SplitWritten(M(), hhdm, bs, i, words)
    {
      hide Chained, Node, Only, SplitWords, SplitWritten, Disjoint, Ptr, IsUsed;
      HeaderFacts(i);
      CutFacts(i);
      ghost var at, n := bs[i].at, bs[i].at + 4 + words;
      var bsize := GetSize(blk, at);
      var split := blk + 32 + size;
      PtrSum(hhdm, at, 4 + words, mem.Length);
      CutEntry(blk, split, bsize - size - 32, at, n);
      ghost var m1 := M();
      WordKept(old(M()), m1, {n, n + 1, n + 2, n + 3}, at + 2);
      var next := GetNext(blk, at);
      if next != 0 {
        PutPrev(next, split, bs[i + 1].at);
      }
      PutNext(blk, split, at);
      PutSize(blk, size, at);
      SplitStored(old(M()), m1, M(), hhdm, bs, i, words, mem.Length);
    }

    // ---------- the used byte ----------

    method SetUsed(blk: nat, used: bool, ghost i: nat)
      requires Linked(M(), hhdm, bs, freeList) && i < |bs| && blk == Ptr(hhdm, bs[i].at)
      requires Headed(bs[i := bs[i].(used := used)], mem.Length)
      modifies mem, this`bs
      ensures Linked(M(), hhdm, bs, freeList) && bs == old(bs)[i := old(bs)[i].(used := used)]
      ensures Kept(old(M()), M(), Live(old(bs)), Heads(bs)) && Heads(bs) == Heads(old(bs))
    {
      hide Linked, PayloadsKept, HeadersOnly, Live, WithUsed, Meta, Ptr, Heads, Headed;
      LinkedBlock(M(), hhdm, bs, freeList, i);
      LinkedMark(M(), hhdm, bs, freeList, i, used);
      MarkHeads(bs, i, used);
      var w := GetMeta(blk, bs[i].at);
      PutMeta(blk, WithUsed(w, used), bs[i].at);
      bs := bs[i := bs[i].(used := used)];
    }

    // ---------- heap_coalesce ----------

    // One block swallows its successor: the same four writes in both halves.
    method MergePair(b: nat, d: nat, ghost i: nat)
      requires Chained() && i + 1 < |bs| && b == Ptr(hhdm, bs[i].at) && d == Ptr(hhdm, bs[i + 1].at) && !bs[i].used
      modifies mem, this`bs
      ensures Chained() && bs == Merge(old(bs), i)
      ensures Kept(old(M()), M(), Live(old(bs)), Heads(old(bs))) && Heads(bs) <= Heads(old(bs))
    {
      hide Linked, P.Allocator.Valid, P.Allocator.Free, PayloadsKept, HeadersOnly, Live, Only, MergeWritten;
      hide MergeWords, Merge, Heads, Total;
      MergeStores(b, d, i);
      LinkedMerge(old(M()), M(), hhdm, bs, freeList, i);
      MergeHeads(bs, i);
      MergeTotal(bs, i);
      bs := Merge(bs, i);
    }

    method MergeStores(b: nat, d: nat, ghost i: nat)
      requires Chained() && i + 1 < |bs| && b == Ptr(hhdm, bs[i].at) && d == Ptr(hhdm, bs[i + 1].at)
      modifies mem
      ensures Only(old(M()), M(), MergeWords(bs, i)) && MergeWritten(M(), hhdm, bs, i)
    {
      hide Chained, WithMagic, Only, MergeWritten, MergeWords, Headed, Ptr, IsUsed;
      ghost var at, beyond := bs[i].at, bs[i + 1].at;
      HeaderFacts(i);
      HeaderFacts(i + 1);
      PairFacts(i);
      var size := GetSize(b, at);
      var dsize := GetSize(d, beyond);
      PutSize(b, size + 32 + dsize, at);
      ghost var m1 := M();
      var next := GetNext(d, beyond);
      PutNext(b, next, at);
      ghost var m2 := M();
      if next != 0 {
        PutPrev(next, b, bs[i + 2].at);
      }
      ghost var m3 := M();
      var w := GetMeta(d, beyond);
      PutMeta(d, WithMagic(w, HEAP_FREED), beyond);
      MergeStored(old(M()), m1, m2, m3, M(), hhdm, bs, i, mem.Length);
    }

    // Every free block that follows, then the one before.
    method HeapCoalesce(blk: nat, ghost i: nat)
      requires Chained() && i < |bs| && blk == Ptr(hhdm, bs[i].at) && !bs[i].used
      modifies mem, this`bs
      ensures Chained() && bs == Coalesce(old(bs), i)
      ensures Kept(old(M()), M(), Live(old(bs)), Heads(old(bs)))
    {
      hide Chained, Kept, Live, Merge, Meta, Ptr, Heads;
      NothingChanged(M(), Live(bs), Heads(bs));
      var next := FreeNext(blk, i);
      while next != 0
        invariant Chained() && i < |bs| && blk == Ptr(hhdm, bs[i].at) && !bs[i].used
        invariant MergeNexts(bs, i) == MergeNexts(old(bs), i) && bs[..i] == old(bs)[..i] && Live(bs) == Live(old(bs))
        invariant Kept(old(M()), M(), Live(old(bs)), Heads(old(bs))) && Heads(bs) <= Heads(old(bs))
        invariant if i + 1 < |bs| && !bs[i + 1].used then next == Ptr(hhdm, bs[i + 1].at) != 0 else next == 0
        decreases |bs|
      {
        ghost var m1, bs1 := M(), bs;
        MergePair(blk, next, i);
        MergeLive(bs1, i);
        MergeElems(bs1, i);
        KeptAgain(old(M()), m1, M(), Live(old(bs)), Heads(old(bs)), Heads(bs1), Heads(old(bs)));
        next := FreeNext(blk, i);
      }
      assert bs == MergeNexts(old(bs), i);
      assert i > 0 ==> bs[..i][i - 1] == old(bs)[..i][i - 1];
      var prev := FreePrev(blk, i);
      if prev != 0 {
        ghost var m1, bs1 := M(), bs;
        MergePair(prev, blk, i - 1);
        KeptAgain(old(M()), m1, M(), Live(old(bs)), Heads(old(bs)), Heads(bs1), Heads(old(bs)));
      }
    }

    // The next block when there is one and it is free, else 0.
    method FreeNext(blk: nat, ghost i: nat) returns (next: nat)
      requires Chained() && i < |bs| && blk == Ptr(hhdm, bs[i].at)
      ensures if i + 1 < |bs| && !bs[i + 1].used then next == Ptr(hhdm, bs[i + 1].at) != 0 else next == 0
    {
      hide Chained, IsUsed, Magic, Ptr, Headed;
      BlockFacts(i);
      if i + 1 < |bs| {
        BlockFacts(i + 1);
      }
      next := GetNext(blk, bs[i].at);
      if next != 0 {
        var w := GetMeta(next, bs[i + 1].at);
        if IsUsed(w) {
          next := 0;
        }
      }
    }

    method FreePrev(blk: nat, ghost i: nat) returns (prev: nat)
      requires Chained() && i < |bs| && blk == Ptr(hhdm, bs[i].at)
      ensures if i > 0 && !bs[i - 1].used then prev == Ptr(hhdm, bs[i - 1].at) != 0 else prev == 0
    {
      hide Chained, IsUsed, Magic, Ptr, Headed;
      BlockFacts(i);
      if i > 0 {
        BlockFacts(i - 1);
      }
      prev := GetPrev(blk, bs[i].at);
      if prev != 0 {
        var w := GetMeta(prev, bs[i - 1].at);
        if IsUsed(w) {
          prev := 0;
        }
      }
    }

    // ---------- heap_new_page ----------

    // A page from the frame allocator, dressed as one free block.
    method HeapNewPage(ghost pages: seq<nat>) returns (blk: nat)
      requires Backed() && hhdm + 8 * mem.Length <= TWO64 && Lists(pages, pmm.Available())
      requires pages != [] ==> 4096 * (gPages + 1) < 0x1_0000_0000
      modifies mem, this`gPages, this`owned, pmm`freePages, pmm`log, pmm.bitmap
      ensures Backed() && (blk == 0 <==> pages == [])
      ensures blk == 0 ==>
                && gPages == old(gPages) && owned == old(owned) && M() == old(M())
                && pmm.Free() == old(pmm.Free()) && pmm.Available() == old(pmm.Available())
      ensures blk != 0 ==>
                var at := pages[0];
                && gPages == old(gPages) + 1 && blk == Ptr(hhdm, at) && blk < TWO64 && at % 512 == 0 && at >= 512
                && Only(old(M()), M(), {at, at + 1, at + 2, at + 3})
                && at + 512 <= mem.Length && Node(M(), Blk(at, 508, false), 0, 0)
                && owned == old(owned) + {at / 512} && at / 512 in old(pmm.Free())
                && pmm.Free() == old(pmm.Free()) - {at / 512} && Lists(pages[1..], pmm.Available())
    {
      hide P.Allocator.Valid, P.Allocator.Free, P.Allocator.Available, Node, Only, Lists, Ptr;
      FirstPage(pages, pmm.Available());
      var phys := pmm.AllocPage();
      if phys == 0 {
        return 0;
      }
      ghost var at := pages[0];
      FrameWord(hhdm, at, phys, pmm.total);
      gPages := (gPages + 1) % 0x1_0000_0000;
      owned := owned + {at / 512};
      blk := (phys + hhdm) % 0x1_0000_0000_0000_0000;
      FreshBlock(blk, at);
    }

    method FreshBlock(blk: nat, ghost at: nat)
      requires blk == Ptr(hhdm, at) && at + 4 <= mem.Length
      modifies mem
      ensures Only(old(M()), M(), {at, at + 1, at + 2, at + 3}) && Node(M(), Blk(at, 508, false), 0, 0)
    {
      hide IsUsed, Magic, WithUsed, WithMagic, Ptr;
      PutSize(blk, 4096 - 32, at);
      var w := GetMeta(blk, at);
      MetaLaws(w, false, HEAP_MAGIC);
      PutMeta(blk, WithUsed(w, false), at);
      w := GetMeta(blk, at);
      MetaLaws(w, false, HEAP_MAGIC);
      PutMeta(blk, WithMagic(w, HEAP_MAGIC), at);
      PutNext(blk, 0, at);
      PutPrev(blk, 0, at);
    }

    // ---------- kmalloc ----------

    // The search both halves of kmalloc make, in list order.
    method Search(size: nat, ghost words: nat) returns (curr: nat)
      requires Chained() && size == 8 * words
      ensures var i := FirstFit(bs, words); if i < |bs| then curr == Ptr(hhdm, bs[i].at) != 0 else curr == 0
    {
      hide Chained, Ptr, IsUsed, At, Headed, Linked, Backed;
      ListFacts();
      curr := freeList;
      ghost var i := 0;
      while curr != 0
        invariant i <= |bs| && forall j :: 0 <= j < i ==> !Fits(bs[j], words)
        invariant if i < |bs| then curr == Ptr(hhdm, bs[i].at) != 0 else curr == 0
        decreases |bs| - i
      {
        HeaderFacts(i);
        var w := GetMeta(curr, bs[i].at);
        var bsize := GetSize(curr, bs[i].at);
        if !IsUsed(w) && bsize >= size {
          FirstFitIs(bs, words, i);
          return;
        }
        curr := GetNext(curr, bs[i].at);
        i := i + 1;
      }
      FirstFitIs(bs, words, i);
    }

    // First fit, cut to size, marked and counted.
    method TryPlace(size: nat, ghost words: nat) returns (ptr: nat)
      requires Valid() && size == 8 * words
      modifies mem, this`bs, this`gUsedBytes, this`gUsedBlocks
      ensures Valid() && pmm.Free() == old(pmm.Free()) && pmm.Available() == old(pmm.Available())
      ensures Kept(old(M()), M(), Live(old(bs)), Heads(bs))
      ensures var i := FirstFit(old(bs), words);
              if i < |old(bs)| then bs == Place(old(bs), i, words) && ptr == Ptr(hhdm, old(bs)[i].at + 4) && ptr != 0
              else bs == old(bs) && M() == old(M()) && ptr == 0
    {
      hide Sound, Chained, Kept, Live, Words, Place, Ptr, Canonical, Heads, Disjoint, Headed;
      NothingChanged(M(), Live(bs), Heads(bs));
      ValidFacts();
      var curr := Search(size, words);
      if curr == 0 {
        return 0;
      }
      ghost var i := FirstFit(bs, words);
      PtrSum4(hhdm, bs[i].at);
      PlaceAt(curr, size, i, words);
      return curr + 32;
    }

    method PlaceAt(curr: nat, size: nat, ghost i: nat, ghost words: nat)
      requires Valid() && i < |bs| && curr == Ptr(hhdm, bs[i].at) && Fits(bs[i], words) && size == 8 * words
      modifies mem, this`bs, this`gUsedBytes, this`gUsedBlocks
      ensures Valid() && bs == Place(old(bs), i, words)
      ensures Kept(old(M()), M(), Live(old(bs)), Heads(bs))
    {
      hide Linked, P.Allocator.Valid, P.Allocator.Free, PayloadsKept, HeadersOnly, Live, Words, Place, Ptr, Disjoint;
      hide Meta, Split, Placed, Cut, Heads, Total, Canonical, Headed;
      ghost var bs0 := bs;
      PlaceIsSplitAndMark(bs0, i, words);
      PlaceCanonical(bs0, i, words);
      PlaceLive(bs0, i, words);
      PlaceTotal(bs0, i, words);
      PlaceDisjoint(bs0, i, words, mem.Length);
      DisjointHeaded(Place(bs0, i, words), mem.Length);
      SplitLive(bs0, i, words);
      LiveCount(bs0, i, words);
      HeapSplit(curr, size, i, words);
      ghost var m1, h1 := M(), Heads(bs);
      SetUsed(curr, true, i);
      KeptAgain(old(M()), m1, M(), Live(bs0), h1, h1, h1);
      LinkedBlock(M(), hhdm, bs, freeList, i);
      CountersFit(bs, gPages);
      var bsize := GetSize(curr, bs[i].at);
      gUsedBytes := (gUsedBytes + bsize) % 0x1_0000_0000;
      gUsedBlocks := (gUsedBlocks + 1) % 0x1_0000_0000;
    }

    method Tail() returns (tail: nat)
      requires Linked(M(), hhdm, bs, freeList) && bs != []
      ensures tail == Ptr(hhdm, bs[|bs| - 1].at)
    {
      hide Linked, Ptr, Meta;
      tail := freeList;
      ghost var i := 0;
      LinkedNext(M(), hhdm, bs, freeList, 0);
      var next := GetNext(tail, bs[0].at);
      while next != 0
        invariant i < |bs| && tail == Ptr(hhdm, bs[i].at)
        invariant if i + 1 < |bs| then next == Ptr(hhdm, bs[i + 1].at) != 0 else next == 0
        decreases |bs| - i
      {
        tail := next;
        i := i + 1;
        LinkedNext(M(), hhdm, bs, freeList, i);
        next := GetNext(tail, bs[i].at);
      }
    }

    // Links a dressed page behind the tail and merges the two when they may be.
    method Extend(blk: nat, ghost at: nat)
      requires bs != [] && Backed() && Total(bs) + 512 == 512 * gPages && Canonical(bs)
      requires Linked(M(), hhdm, bs, freeList) && Disjoint(bs, mem.Length) && Fresh(bs, at)
      requires blk == Ptr(hhdm, at) && blk < TWO64 && Node(M(), Blk(at, 508, false), 0, 0)
      requires at >= 512 && at + 512 <= mem.Length
      modifies mem, this`bs
      ensures Chained() && Canonical(bs) && bs == Grow(old(bs), at) && Live(bs) == Live(old(bs))
      ensures Disjoint(bs, mem.Length) <==> old(bs)[|old(bs)| - 1].used || Room(old(bs), mem.Length)
      ensures Kept(old(M()), M(), Live(old(bs)), Heads(old(bs)) + {at})
    {
      hide Linked, P.Allocator.Valid, P.Allocator.Free, Ptr, Meta, PayloadsKept, HeadersOnly, Live, Coalesce;
      hide AppendWritten, Only, Total, Heads, Disjoint, Headed, Canonical, Fresh, Room;
      ghost var m0, bs0 := M(), bs;
      LinkedParts(m0, hhdm, bs, freeList);
      GrowCanonical(bs, at);
      GrowDisjoint(bs, at, mem.Length);
      AppendedDisjoint(bs, at, mem.Length);
      DisjointHeaded(Appended(bs, at), mem.Length);
      TailAside(bs, at);
      var tail := Tail();
      LinkedBlock(m0, hhdm, bs, freeList, |bs| - 1);
      PtrSum(hhdm, bs[|bs| - 1].at, 0, mem.Length);
      PutNext(tail, blk, bs[|bs| - 1].at);
      PutPrev(blk, tail, at);
      AppendStored(m0, M(), bs[|bs| - 1].at, at, blk, tail);
      AppendLinks(M(), hhdm, bs[|bs| - 1], Blk(at, 508, false));
      LinkedAppend(m0, M(), hhdm, bs, freeList, at);
      AppendHeads(bs, at);
      AppendedLive(bs0, at);
      AppendedTotal(bs, at);
      bs := Appended(bs, at);
      ghost var m1 := M();
      HeapCoalesce(blk, |bs| - 1);
      KeptAgain(m0, m1, M(), Live(bs0), Heads(bs0) + {at}, Heads(bs0) + {at}, Heads(bs0) + {at});
    }

    // The first page of a heap that has none.
    method StartList(ghost pages: seq<nat>)
      requires Valid() && bs == [] && Lists(pages, pmm.Available())
      modifies mem, this`freeList, this`gPages, this`owned, this`bs, pmm`freePages, pmm`log, pmm.bitmap
      ensures Valid() && bs == Started([], pages) && Lists(Unstarted([], pages), pmm.Available())
      ensures TakenFor(pages[..|bs|], old(owned), owned, old(pmm.Free()), pmm.Free())
      ensures gPages == |bs| && (freeList == 0 <==> pages == [])
      ensures Kept(old(M()), M(), [], Heads(bs)) && Live(bs) == []
      ensures if bs == [] then M() == old(M()) else Heads(bs) == {pages[0]}
    {
      hide Linked, P.Allocator.Valid, P.Allocator.Free, P.Allocator.Available, Only, Live, Words, Node, Total, Lists;
      hide HeadersOnly, Heads, FramesOf, Canonical, Disjoint, Headed, Ptr;
      ListFacts();
      FirstFrames(pages);
      EmptyLive();
      NoWords();
      freeList := HeapNewPage(pages);
      if freeList == 0 {
        NothingChanged(M(), [], Heads(bs));
        return;
      }
      ghost var at := pages[0];
      HeapedFirst(M(), hhdm, at);
      bs := [Blk(at, 508, false)];
      StartFacts(at);
      HeadersFrom(old(M()), M(), {at, at + 1, at + 2, at + 3}, Heads(bs));
    }

    // A further page, which meets no block and has room behind a free tail.
    method AddPage(ghost pages: seq<nat>) returns (ok: bool)
      requires Valid() && bs != [] && Lists(pages, pmm.Available())
      requires pages != [] ==>
                 && Fresh(bs, pages[0]) && (bs[|bs| - 1].used || Room(bs, mem.Length))
                 && 4096 * (gPages + 1) < 0x1_0000_0000
      modifies mem, this`gPages, this`owned, this`bs, pmm`freePages, pmm`log, pmm.bitmap
      ensures Valid() && (ok <==> pages != [])
      ensures !ok ==>
                && bs == old(bs) && gPages == old(gPages) && owned == old(owned) && M() == old(M())
                && pmm.Free() == old(pmm.Free()) && pmm.Available() == old(pmm.Available())
      ensures ok ==>
                && bs == Grow(old(bs), pages[0]) && gPages == old(gPages) + 1 && Live(bs) == Live(old(bs))
                && Lists(pages[1..], pmm.Available())
                && TakenFor(pages[..1], old(owned), owned, old(pmm.Free()), pmm.Free())
                && Kept(old(M()), M(), Live(old(bs)), Heads(old(bs)) + {pages[0]})
    {
      hide Linked, P.Allocator.Valid, P.Allocator.Free, P.Allocator.Available, PayloadsKept, HeadersOnly, Only, Live;
      hide Words, Node, Canonical, Grow, Total, Lists, Heads, Disjoint, Headed, Fresh, Room;
      ghost var m0, bs0 := M(), bs;
      ListFacts();
      FirstFrames(pages);
      var blk := HeapNewPage(pages);
      if blk == 0 {
        return false;
      }
      ok := true;
      ghost var at, m1 := pages[0], M();
      PageAside(m0, m1, hhdm, bs, freeList, at);
      HeadersFrom(m0, m1, {at, at + 1, at + 2, at + 3}, Heads(bs) + {at});
      Extend(blk, at);
      KeptAgain(m0, m1, M(), Live(bs0), Heads(bs0) + {at}, Heads(bs0) + {at}, Heads(bs0) + {at});
    }

    // A search, and one more after one more page.
    method SearchTwice(bytes: nat, ghost words: nat, ghost pages: seq<nat>) returns (ptr: nat)
      requires Valid() && bs != [] && bytes == 8 * words && Lists(pages, pmm.Available())
      requires |Settled(bs, words, pages).left| < |pages| ==>
                 && Fresh(bs, pages[0]) && (bs[|bs| - 1].used || Room(bs, mem.Length))
                 && 4096 * (gPages + 1) < 0x1_0000_0000
      modifies mem, this`gPages, this`owned, this`gUsedBytes, this`gUsedBlocks, this`bs
      modifies pmm`freePages, pmm`log, pmm.bitmap
      ensures Valid()
      ensures var r := Settled(old(bs), words, pages);
              && bs == r.bs && ptr == Pointer(hhdm, r.payload) && (r.payload.Some? ==> ptr != 0)
              && gPages == old(gPages) + |pages| - |r.left| && Lists(r.left, pmm.Available())
              && TakenFor(pages[..|pages| - |r.left|], old(owned), owned, old(pmm.Free()), pmm.Free())
              && Kept(old(M()), M(), Live(old(bs)), Heads(old(bs)) + FirstOf(pages, r.left) + Heads(bs))
    {
      hide Valid, P.Allocator.Valid, P.Allocator.Free, P.Allocator.Available, TakenFor, Kept, Live, Lists;
      hide Grow, Place, Ptr, Heads, FirstFit;
      ghost var m0, bs0 := M(), bs;
      ghost var hs := Heads(bs0) + FirstOf(pages, Settled(bs, words, pages).left) + Heads(Settled(bs, words, pages).bs);
      Nothing(pages, owned, pmm.Free());
      NothingChanged(m0, Live(bs0), Heads(bs0));
      ptr := TryPlace(bytes, words);
      if ptr != 0 {
        KeptAgain(m0, m0, M(), Live(bs0), Heads(bs0), Heads(bs), hs);
        return;
      }
      var ok := AddPage(pages);
      if !ok {
        KeptAgain(m0, m0, M(), Live(bs0), Heads(bs0), Heads(bs0), hs);
        return 0;
      }
      ghost var m1 := M();
      ptr := TryPlace(bytes, words);
      KeptAgain(m0, m1, M(), Live(bs0), Heads(bs0) + {pages[0]}, Heads(bs), hs);
    }

    // A heap without pages takes one before it is searched.
    method Start(ghost pages: seq<nat>)
      requires Valid() && Lists(pages, pmm.Available())
      modifies mem, this`freeList, this`gPages, this`owned, this`bs, pmm`freePages, pmm`log, pmm.bitmap
      ensures Valid() && bs == Started(old(bs), pages) && Lists(Unstarted(old(bs), pages), pmm.Available())
      ensures Live(bs) == Live(old(bs)) && (freeList == 0 <==> bs == [])
      ensures var n := |pages| - |Unstarted(old(bs), pages)|;
              && gPages == old(gPages) + n && TakenFor(pages[..n], old(owned), owned, old(pmm.Free()), pmm.Free())
              && Kept(old(M()), M(), Live(old(bs)), Heads(bs)) && (n > 0 ==> Heads(bs) == {pages[0]})
      ensures old(freeList) != 0 ==> freeList == old(freeList)
    {
      hide Valid, P.Allocator.Valid, P.Allocator.Free, P.Allocator.Available, TakenFor, Kept, Live, Lists;
      hide Ptr, Heads, Sound, Chained, Backed, Disjoint, Linked, Headed, Total;
      ApartFacts();
      ValidFacts();
      ListFacts();
      Nothing(pages, owned, pmm.Free());
      NothingChanged(M(), Live(bs), Heads(bs));
      if freeList == 0 {
        StartList(pages);
        EmptyLive();
      }
    }

    // What the search asks for once the heap has a page.
    lemma SettledFits(words: nat, pages: seq<nat>)
      requires Valid() && Lists(pages, pmm.Available()) && Fitting(bs, words, pages, mem.Length)
      ensures var s, left := Started(bs, pages), Unstarted(bs, pages);
              s != [] && |Settled(s, words, left).left| < |left| ==>
                Fresh(s, left[0]) && (s[|s| - 1].used || Room(s, mem.Length))
    {
      hide Valid, P.Allocator.Valid, P.Allocator.Available, Lists, FirstFit, Grow, Place, Fresh, Room, Disjoint, Framed;
      hide Fitting, Started, Unstarted;
      ApartFacts();
      GrownFits(bs, words, pages, pmm.Available(), mem.Length);
    }

    // kmalloc of a size rounded to words.
    method Serve(bytes: nat, ghost words: nat, ghost pages: seq<nat>) returns (ptr: nat)
      requires Valid() && bytes == 8 * words && Lists(pages, pmm.Available()) && Fitting(bs, words, pages, mem.Length)
      requires 4096 * (gPages + Taken(bs, words, pages)) < 0x1_0000_0000
      modifies mem, this`freeList, this`gPages, this`owned, this`gUsedBytes, this`gUsedBlocks, this`bs
      modifies pmm`freePages, pmm`log, pmm.bitmap
      ensures Valid()
      ensures var r, n := Allocate(old(bs), words, pages), Taken(old(bs), words, pages);
              && bs == r.bs && ptr == Pointer(hhdm, r.payload) && (r.payload.Some? ==> ptr != 0)
              && gPages == old(gPages) + n && Lists(r.left, pmm.Available())
              && TakenFor(pages[..n], old(owned), owned, old(pmm.Free()), pmm.Free())
      ensures Kept(old(M()), M(), Live(old(bs)), Touched(old(bs), words, pages))
      ensures old(freeList) != 0 ==> freeList == old(freeList)
    {
      hide Valid, P.Allocator.Valid, P.Allocator.Free, P.Allocator.Available, TakenFor, Kept, Live, Lists;
      hide Ptr, Heads, Touched, Allocate, Started, Taken, Unstarted, Fitting, Settled, Fresh, Room;
      ghost var m0, bs0, owned0, free0, hs := M(), bs, owned, pmm.Free(), Touched(bs, words, pages);
      SettledFits(words, pages);
      AllocateIs(bs, words, pages);
      TouchedHas(bs, words, pages);
      Start(pages);
      ghost var m1, bs1, left, owned1, free1 := M(), bs, Unstarted(bs0, pages), owned, pmm.Free();
      if freeList == 0 {
        NothingChanged(m1, Live(bs0), Heads(bs));
        KeptAgain(m0, m1, m1, Live(bs0), Heads(bs), Heads(bs), hs);
        return 0;
      }
      ptr := SearchTwice(bytes, words, left);
      ghost var last := Allocate(bs0, words, pages).left;
      TakenMore(pages, |pages| - |left|, |left| - |last|, owned0, owned1, owned, free0, free1, pmm.Free());
      KeptAgain(m0, m1, M(), Live(bs0), Heads(bs1), Heads(bs1) + FirstOf(left, last) + Heads(bs), hs);
    }

    // The page counter does not wrap.
    ghost predicate Counts(size: Word, pages: seq<nat>)
      reads this
    {
      size > 0 ==> 4096 * (gPages + Taken(bs, WordsFor(size), pages)) < 0x1_0000_0000
    }

    // What kmalloc asks of the frames it takes, when it takes any: that they meet
    // no block, that a free tail has room for the page it swallows, and that they
    // can be counted.
    ghost predicate Admits(size: Word, pages: seq<nat>)
      reads this
    {
      (size > 0 ==> Fitting(bs, WordsFor(size), pages, mem.Length)) && Counts(size, pages)
    }

    // A fit is cut and handed out; without one, a page is fetched and the search
    // made once more.
    method Kmalloc(size: Word, ghost pages: seq<nat>) returns (ptr: nat)
      requires Valid() && Lists(pages, pmm.Available()) && Admits(size, pages)
      modifies mem, this`freeList, this`gPages, this`owned, this`gUsedBytes, this`gUsedBlocks, this`bs
      modifies pmm`freePages, pmm`log, pmm.bitmap
      ensures Valid()
      ensures var r := Served(old(bs), size, pages);
              && bs == r.bs && ptr == Pointer(hhdm, r.payload) && (r.payload.Some? ==> ptr != 0)
              && gPages == old(gPages) + |pages| - |r.left| && Lists(r.left, pmm.Available())
              && TakenFor(Used(pages, r), old(owned), owned, old(pmm.Free()), pmm.Free())
      ensures Kept(old(M()), M(), Live(old(bs)), Reached(old(bs), size, pages))
      ensures old(freeList) != 0 ==> freeList == old(freeList)
    {
      hide Valid, P.Allocator.Valid, P.Allocator.Free, P.Allocator.Available, TakenFor, Kept, Live, Lists;
      hide Touched, Allocate, Ptr;
      Nothing(pages, owned, pmm.Free());
      NothingChanged(M(), Live(bs), {});
      if size == 0 {
        return 0;
      }
      UsedIs(bs, size, pages);
      ptr := Serve((size + 7) % 0x1_0000_0000_0000_0000 / 8 * 8, WordsFor(size), pages);
    }

    // ---------- kfree ----------

    // Block i released: unmarked, uncounted and merged with its free neighbours,
    // wherever they lie. Blocks that were apart stay so exactly when the block
    // made of them clears the others.
    method Kfree(ptr: nat, ghost i: nat)
      requires Sound() && (ptr != 0 ==> i < |bs| && ptr == Ptr(hhdm, bs[i].at + 4))
      modifies mem, this`gUsedBytes, this`gUsedBlocks, this`bs
      ensures Sound() && pmm.Free() == old(pmm.Free()) && pmm.Available() == old(pmm.Available())
      ensures ptr == 0 || !old(bs)[i].used ==> bs == old(bs) && M() == old(M())
      ensures ptr != 0 && old(bs)[i].used ==> bs == Release(old(bs), i)
      ensures old(Valid()) ==> (Valid() <==> ptr == 0 || !old(bs)[i].used || Clears(old(bs), i, mem.Length))
      ensures Kept(old(M()), M(), Live(bs), Heads(old(bs)))
    {
      hide Sound, Chained, Kept, Live, Words, Canonical, Release, Ptr, IsUsed, Magic, Heads, Disjoint, Headed, Clears;
      hide P.Allocator.Valid, P.Allocator.Free, P.Allocator.Available;
      NothingChanged(M(), Live(bs), Heads(bs));
      ValidFacts();
      if ptr == 0 {
        return;
      }
      PtrSum4(hhdm, bs[i].at);
      var blk := ptr - 32;
      BlockFacts(i);
      var w := GetMeta(blk, bs[i].at);
      if Magic(w) != HEAP_MAGIC {
        assert false;
        return;
      }
      if !IsUsed(w) {
        return;
      }
      ReleaseApart(bs, i, mem.Length);
      FreeCounted(blk, i);
    }

    method FreeCounted(blk: nat, ghost i: nat)
      requires Sound() && i < |bs| && blk == Ptr(hhdm, bs[i].at) && bs[i].used
      modifies mem, this`gUsedBytes, this`gUsedBlocks, this`bs
      ensures Sound() && bs == Release(old(bs), i)
      ensures Kept(old(M()), M(), Live(bs), Heads(old(bs)))
    {
      hide Linked, P.Allocator.Valid, P.Allocator.Free, PayloadsKept, HeadersOnly, Live, Words, Canonical, Coalesce;
      hide Ptr, Node, Heads, Total, Headed, IsUsed;
      ghost var bs0 := bs;
      ValidFacts();
      BlockFacts(i);
      FreeDrops(bs0, i);
      CountersFit(bs0, gPages);
      FreedHeaded(bs0, i, mem.Length);
      FreedSums(bs0, i);
      SetUsed(blk, false, i);
      HeaderFacts(i);
      var size := GetSize(blk, bs[i].at);
      if gUsedBytes >= size {
        gUsedBytes := gUsedBytes - size;
      }
      if gUsedBlocks > 0 {
        gUsedBlocks := gUsedBlocks - 1;
      }
      PayloadsFewer(old(M()), M(), Live(bs0), Live(bs));
      ghost var m1 := M();
      HeapCoalesce(blk, i);
      KeptAgain(old(M()), m1, M(), Live(bs), Heads(bs0), Heads(bs0), Heads(bs0));
    }

    // ---------- heap_memset and heap_memcpy ----------

    method GetByte(addr: nat, ghost p: nat) returns (v: Byte)
      requires addr == hhdm + p && p / 8 < mem.Length
      ensures v == ByteAt(M(), p)
    {
      v := ByteOf(mem[(addr - hhdm) / 8], (addr - hhdm) % 8);
    }

    method PutByte(addr: nat, v: Byte, ghost p: nat)
      requires addr == hhdm + p && p / 8 < mem.Length
      modifies mem
      ensures Within(old(M()), M(), p / 8, 1)
      ensures forall q: nat :: ByteAt(M(), q) == if q == p then v else ByteAt(old(M()), q)
    {
      hide ByteAt, WithByte;
      forall q: nat
        ensures WithByte(M()[p / 8], p % 8, v) < TWO64
        ensures ByteAt(M()[p / 8 := WithByte(M()[p / 8], p % 8, v)], q) == if q == p then v else ByteAt(M(), q)
      {
        ByteStored(M(), p, v, q);
      }
      ByteStored(M(), p, v, p);
      mem[(addr - hhdm) / 8] := WithByte(mem[(addr - hhdm) / 8], (addr - hhdm) % 8, v);
      assert M() == old(M())[p / 8 := WithByte(old(M())[p / 8], p % 8, v)];
    }

    method HeapMemset(dst: nat, v: Byte, n: nat, ghost d: nat, ghost words: nat)
      requires dst == Ptr(hhdm, d) && n <= 8 * words && d + words <= mem.Length
      modifies mem
      ensures Within(old(M()), M(), d, words)
      ensures forall k :: 0 <= k < n ==> ByteFrom(M(), d, k) == v
    {
      hide ByteAt, At;
      for i := 0 to n
        invariant Within(old(M()), M(), d, words)
        invariant forall k :: 0 <= k < i ==> ByteFrom(M(), d, k) == v
      {
        PutByte(dst + i, v, 8 * d + i);
      }
    }

    method HeapMemcpy(dst: nat, src: nat, n: nat, ghost d: nat, ghost s: nat, ghost words: nat)
      requires dst == Ptr(hhdm, d) && src == Ptr(hhdm, s) && n == 8 * words
      requires d + words <= mem.Length && s + words <= mem.Length && (s + words <= d || d + words <= s)
      modifies mem
      ensures Within(old(M()), M(), d, words) && Copied(old(M()), M(), s, d, n)
    {
      hide ByteAt, At;
      for i := 0 to n
        invariant Within(old(M()), M(), d, words) && Copied(old(M()), M(), s, d, i)
        invariant forall k :: 0 <= k < n ==> ByteFrom(M(), s, k) == ByteFrom(old(M()), s, k)
      {
        var v := GetByte(src + i, 8 * s + i);
        assert v == ByteFrom(M(), s, i);
        PutByte(dst + i, v, 8 * d + i);
      }
    }

    // ---------- kcalloc and krealloc ----------

    // The memset of kcalloc, on the block kmalloc has just handed out.
    method ZeroNew(ptr: nat, total: Word, ghost bs0: seq<Blk>, ghost pages: seq<nat>, ghost avail: set<nat>)
      requires Valid() && 0 < total && total + 7 < TWO64 && Disjoint(bs0, mem.Length) && Canonical(bs0)
      requires Lists(pages, avail) && Framed(avail, mem.Length) && Fitting(bs0, WordsFor(total), pages, mem.Length)
      requires bs == Allocate(bs0, WordsFor(total), pages).bs
      requires var r := Allocate(bs0, WordsFor(total), pages);
               r.payload.Some? && ptr == Ptr(hhdm, r.payload.value)
      modifies mem
      ensures Valid() && pmm.Free() == old(pmm.Free()) && pmm.Available() == old(pmm.Available())
      ensures PayloadsKept(old(M()), M(), Live(bs0))
      ensures forall hs :: OutsideKept(old(M()), M(), hs, bs)
      ensures Zeroed(M(), Allocate(bs0, WordsFor(total), pages).payload.value, total)
    {
      hide P.Allocator.Valid, P.Allocator.Free, P.Allocator.Available, PayloadsKept, Lists, Live, Ptr, Allocate;
      hide Linked, Within, ByteFrom, OutsideKept, Canonical, Words, Fitting, Framed, Disjoint, Headed, Total, Described;
      RoundingCovers(total);
      ghost var m0 := M();
      ghost var n := NewBlock(bs0, WordsFor(total), pages, avail, mem.Length);
      BlockFacts(n);
      HeapMemset(ptr, 0, total, bs[n].at + 4, bs[n].words);
      LinkedInside(m0, M(), hhdm, bs, freeList, n, bs[n].words);
      forall hs: set<nat>
        ensures OutsideKept(m0, M(), hs, bs)
      {
        OutsideWithin(m0, M(), hs, bs, n, bs[n].words);
      }
    }

    // Overflowing products are refused; otherwise kmalloc, with the bytes zero.
    method Kcalloc(num: Word, size: Word, ghost pages: seq<nat>) returns (ptr: nat)
      requires Valid() && Lists(pages, pmm.Available())
      requires num * size + 7 < TWO64 || TWO64 <= num * size
      requires num * size < TWO64 ==> Admits(num * size, pages)
      modifies mem, this`freeList, this`gPages, this`owned, this`gUsedBytes, this`gUsedBlocks, this`bs
      modifies pmm`freePages, pmm`log, pmm.bitmap
      ensures Valid() && PayloadsKept(old(M()), M(), Live(old(bs)))
      ensures TWO64 <= num * size ==>
                && ptr == 0 && bs == old(bs) && gPages == old(gPages) && owned == old(owned) && M() == old(M())
                && pmm.Free() == old(pmm.Free()) && Lists(pages, pmm.Available())
      ensures num * size < TWO64 ==>
                var r := Served(old(bs), num * size, pages);
                && bs == r.bs && ptr == Pointer(hhdm, r.payload) && (r.payload.Some? ==> ptr != 0)
                && gPages == old(gPages) + |pages| - |r.left| && Lists(r.left, pmm.Available())
                && TakenFor(Used(pages, r), old(owned), owned, old(pmm.Free()), pmm.Free())
                && (r.payload.Some? ==> Zeroed(M(), r.payload.value, num * size))
                && OutsideKept(old(M()), M(), Reached(old(bs), num * size, pages), bs)
      ensures old(freeList) != 0 ==> freeList == old(freeList)
    {
      hide Valid, P.Allocator.Valid, P.Allocator.Free, P.Allocator.Available, TakenFor, PayloadsKept, HeadersOnly;
      hide Lists, Live, Ptr, Allocate, Within, ByteFrom, OutsideKept, Touched, Canonical, Words, Fitting, Taken;
      hide Disjoint, Headed, Framed;
      ApartFacts();
      var total := num * size % 0x1_0000_0000_0000_0000;
      OverflowCheck(num, size);
      NothingChanged(M(), Live(bs), {});
      ValidFacts();
      if num != 0 && total / num != size {
        return 0;
      }
      ghost var m0, bs0 := M(), bs;
      ptr := Kmalloc(total, pages);
      ghost var hs := Reached(bs0, total, pages);
      OutsideHeaders(m0, M(), hs, hs, bs);
      if ptr != 0 {
        ghost var m1 := M();
        ZeroNew(ptr, total, bs0, pages, old(pmm.Available()));
        PayloadsTwice(m0, m1, M(), Live(bs0));
        OutsideTwice(m0, m1, M(), hs, bs);
      }
    }

    // The memcpy of krealloc, from block j to the larger block n.
    method CopyOver(dst: nat, src: nat, bytes: nat, ghost n: nat, ghost j: nat)
      requires Valid() && n < |bs| && j < |bs| && n != j && bs[n].used && bs[j].used
      requires bytes == 8 * bs[j].words && bs[j].words <= bs[n].words
      requires dst == Ptr(hhdm, bs[n].at + 4) && src == Ptr(hhdm, bs[j].at + 4)
      modifies mem
      ensures Valid() && pmm.Free() == old(pmm.Free()) && pmm.Available() == old(pmm.Available())
      ensures Within(old(M()), M(), bs[n].at + 4, bs[j].words)
      ensures Copied(old(M()), M(), bs[j].at + 4, bs[n].at + 4, bytes)
      ensures forall ls: seq<Blk> ::
                (forall b :: b in ls ==> b in bs && b.used && b != bs[n]) ==> PayloadsKept(old(M()), M(), ls)
    {
      hide P.Allocator.Valid, P.Allocator.Free, P.Allocator.Available, PayloadsKept, Live, Ptr, Linked, Within, Copied;
      hide Canonical, Words, Total, Described, Disjoint, Headed;
      BlockFacts(n);
      BlockFacts(j);
      HeadAt(bs, mem.Length, n, j);
      ghost var m0 := M();
      HeapMemcpy(dst, src, bytes, bs[n].at + 4, bs[j].at + 4, bs[j].words);
      LinkedInside(m0, M(), hhdm, bs, freeList, n, bs[j].words);
    }

    // Block j of the list that kmalloc left was b; it is released, and its bytes
    // are those of the block handed out. As in kfree, the blocks stay apart
    // exactly when the block made of it clears the others.
    ghost predicate MovedTo(m: Mem, r: Result, b: Blk, j: nat, size: Word)
      requires r.payload.Some?
      reads this, pmm, pmm.bitmap, mem
    {
      && j < |r.bs| && r.bs[j] == b && bs == Release(r.bs, j) && (Valid() <==> Clears(r.bs, j, mem.Length))
      && (exists d :: d in Live(bs) && d.at + 4 == r.payload.value && size <= 8 * d.words)
      && Copied(m, M(), b.at + 4, r.payload.value, 8 * b.words)
    }

    lemma MovedFacts(m: Mem, r: Result, b: Blk, j: nat, size: Word)
      requires r.payload.Some? && MovedTo(m, r, b, j, size)
      ensures j < |r.bs| && r.bs[j] == b && bs == Release(r.bs, j) && (Valid() <==> Clears(r.bs, j, mem.Length))
      ensures Copied(m, M(), b.at + 4, r.payload.value, 8 * b.words)
    {
      hide Valid, Clears, Release, Copied;
    }

    // A larger block, the old bytes in it, and the old block freed.
    method Move(ptr: nat, bsize: nat, size: Word, ghost i: nat, ghost pages: seq<nat>)
      returns (moved: nat, ghost j: nat)
      requires Valid() && Lists(pages, pmm.Available()) && Admits(size, pages) && size + 7 < TWO64
      requires i < |bs| && bs[i].used && ptr == Ptr(hhdm, bs[i].at + 4) && bsize == 8 * bs[i].words < size
      modifies mem, this`freeList, this`gPages, this`owned, this`gUsedBytes, this`gUsedBlocks, this`bs
      modifies pmm`freePages, pmm`log, pmm.bitmap
      ensures Sound() && SurvivorsKept(old(M()), M(), Live(old(bs)), Live(bs))
      ensures old(freeList) != 0 ==> freeList == old(freeList)
      ensures var r := Served(old(bs), size, pages);
              && gPages == old(gPages) + |pages| - |r.left| && Lists(r.left, pmm.Available())
              && TakenFor(Used(pages, r), old(owned), owned, old(pmm.Free()), pmm.Free())
              && OutsideKept(old(M()), M(), Reached(old(bs), size, pages), bs)
              && moved == Pointer(hhdm, r.payload) && (r.payload.Some? ==> moved != 0)
              && (r.payload.None? ==> Valid() && bs == r.bs)
              && (r.payload.Some? ==> MovedTo(old(M()), r, old(bs)[i], j, size))
    {
      hide Valid, P.Allocator.Valid, P.Allocator.Free, P.Allocator.Available, TakenFor, PayloadsKept, HeadersOnly;
      hide Lists, Live, Ptr, Allocate, Within, Copied, OutsideKept, Touched, Canonical, Words, Fitting, Taken, Disjoint;
      hide Sound, Chained, Release, Headed, Framed, Heads, SurvivorsKept, Clears;
      ApartFacts();
      ghost var m0, bs0, old_b := M(), bs, bs[i];
      j := 0;
      ValidFacts();
      moved := Kmalloc(size, pages);
      ApartFacts();
      ghost var hs := Reached(bs0, size, pages);
      if moved == 0 {
        SurvivorsOf(m0, M(), Live(bs0), Live(bs), Live(bs0));
        OutsideHeaders(m0, M(), hs, hs, bs);
        return;
      }
      LiveIsUsed(bs0, old_b);
      ghost var n := NewBlock(bs0, WordsFor(size), pages, old(pmm.Available()), mem.Length);
      j :| 0 <= j < |bs| && bs[j] == old_b;
      ghost var m1, bs1, b := M(), bs, bs[n];
      RoundingCovers(size);
      PtrSum4(hhdm, old_b.at);
      CopyOver(moved, ptr, bsize, n, j);
      ghost var m2 := M();
      PayloadsTwice(m0, m1, m2, Live(bs0));
      CopyFrom(m0, m1, m2, old_b, b.at + 4, Live(bs0));
      ApartFacts();
      ValidFacts();
      Kfree(ptr, j);
      ReleaseSpares(bs1, n, j);
      CopySurvives(m0, m2, M(), old_b.at + 4, b, bsize, Live(bs));
      SurvivorsTwice(m0, m2, M(), Live(bs0), Live(bs));
      TouchedHas(bs0, WordsFor(size), pages);
      LiveIsUsed(bs, b);
      OutsideThrice(m0, m1, m2, M(), hs, Heads(bs1), bs, b, old_b.words);
    }

    // krealloc calls kmalloc for these arguments.
    ghost predicate Grows(ptr: nat, size: Word, i: nat)
      requires ptr != 0 ==> i < |bs|
      reads this
    {
      ptr == 0 || size > 8 * bs[i].words
    }

    method Krealloc(ptr: nat, size: Word, ghost i: nat, ghost pages: seq<nat>) returns (moved: nat, ghost j: nat)
      requires Sound() && Lists(pages, pmm.Available())
      requires ptr != 0 ==> i < |bs| && bs[i].used && ptr == Ptr(hhdm, bs[i].at + 4)
      requires Grows(ptr, size, i) ==> Valid() && Admits(size, pages)
      requires ptr != 0 && Grows(ptr, size, i) ==> size + 7 < TWO64
      modifies mem, this`freeList, this`gPages, this`owned, this`gUsedBytes, this`gUsedBlocks, this`bs
      modifies pmm`freePages, pmm`log, pmm.bitmap
      ensures Sound() && SurvivorsKept(old(M()), M(), Live(old(bs)), Live(bs))
      ensures old(freeList) != 0 ==> freeList == old(freeList)
      ensures !old(Grows(ptr, size, i)) ==>
                && (old(Valid()) ==> (Valid() <==> size != 0 || Clears(old(bs), i, mem.Length)))
                && gPages == old(gPages) && owned == old(owned) && pmm.Free() == old(pmm.Free())
                && Lists(pages, pmm.Available()) && HeadersOnly(old(M()), M(), Heads(old(bs)))
                && (if size == 0 then moved == 0 && bs == Release(old(bs), i)
                    else moved == ptr && bs == old(bs) && M() == old(M()))
      ensures old(Grows(ptr, size, i)) ==>
                var r := Served(old(bs), size, pages);
                && gPages == old(gPages) + |pages| - |r.left| && Lists(r.left, pmm.Available())
                && TakenFor(Used(pages, r), old(owned), owned, old(pmm.Free()), pmm.Free())
                && OutsideKept(old(M()), M(), Reached(old(bs), size, pages), bs)
                && moved == Pointer(hhdm, r.payload) && (r.payload.Some? ==> moved != 0)
                && (ptr == 0 || r.payload.None? ==> Valid() && bs == r.bs)
                && (ptr != 0 && r.payload.Some? ==> MovedTo(old(M()), r, old(bs)[i], j, size))
    {
      hide Valid, P.Allocator.Valid, P.Allocator.Free, P.Allocator.Available, TakenFor, PayloadsKept, HeadersOnly;
      hide Lists, Live, Ptr, Served, OutsideKept, Reached, Canonical, Words, Admits, Chained, Release, IsUsed, Magic;
      hide Sound, Headed, Heads, Total, Copied, SurvivorsKept, Clears;
      moved, j := 0, 0;
      ghost var m0, bs0 := M(), bs;
      ValidFacts();
      if ptr == 0 {
        moved := Kmalloc(size, pages);
        ApartFacts();
        SurvivorsOf(m0, M(), Live(bs0), Live(bs), Live(bs0));
        ghost var hs := Reached(bs0, size, pages);
        OutsideHeaders(m0, M(), hs, hs, bs);
        return;
      }
      if size == 0 {
        Kfree(ptr, i);
        SurvivorsOf(m0, M(), Live(bs0), Live(bs), Live(bs));
        return 0, j;
      }
      BlockFacts(i);
      PtrSum4(hhdm, bs[i].at);
      var blk := ptr - 32;
      var w := GetMeta(blk, bs[i].at);
      if Magic(w) != HEAP_MAGIC {
        assert false;
        return;
      }
      var bsize := GetSize(blk, bs[i].at);
      if bsize >= size {
        NothingChanged(M(), Live(bs), Heads(bs));
        SurvivorsOf(M(), M(), Live(bs), Live(bs), Live(bs));
        return ptr, j;
      }
      moved, j := Move(ptr, bsize, size, i, pages);
    }

    // ---------- heap_get_stats ----------

    // A page counts for 4064 bytes, as if it held one block. So free bytes come out too high
    // by 32 for every block beyond one a page, and at least 0.
    method HeapGetStats() returns (s: Stats)
      requires Sound()
      ensures s.pagesAllocated == gPages && s.totalBytes == 4064 * gPages && s.usedBytes == 8 * Words(Live(bs))
      ensures s.totalBlocks == |bs| && s.usedBlocks == |Live(bs)| && s.freeBlocks == |bs| - |Live(bs)|
      ensures var trueFree := 8 * FreeWords(bs);
              s.freeBytes == if trueFree + 32 * |bs| >= 32 * gPages then trueFree + 32 * |bs| - 32 * gPages else 0
    {
      hide Sound, Chained, IsUsed, Ptr, Words, FreeWords, Total, Headed, Linked, Live, Canonical, Described;
      hide P.Allocator.Valid, P.Allocator.Free;
      ValidFacts();
      ListFacts();
      CountersFit(bs, gPages);
      EmptyLive();
      var total := gPages * (4096 - 32) % 0x1_0000_0000;
      var free := if total > gUsedBytes then total - gUsedBytes else 0;
      var blocks, used, unused := 0, 0, 0;
      var curr := freeList;
      while curr != 0
        invariant blocks <= |bs| && used == |Live(bs[..blocks])| && unused == blocks - used
        invariant if blocks < |bs| then curr == Ptr(hhdm, bs[blocks].at) != 0 else curr == 0
        decreases |bs| - blocks
      {
        HeaderFacts(blocks);
        LiveNext(bs, blocks);
        var w := GetMeta(curr, bs[blocks].at);
        if IsUsed(w) {
          used := used + 1;
        } else {
          unused := unused + 1;
        }
        curr := GetNext(curr, bs[blocks].at);
        blocks := blocks + 1;
      }
      assert bs[..blocks] == bs;
      s := Stats(gPages, total, gUsedBytes, free, blocks, used, unused);
    }
  }
}
