// Whole runs of a kernel that uses the heap and the page tables at once: both
// draw on one frame allocator, and neither disturbs the other.

module KernelRuns {
  import opened Machine
  import P = Pmm
  import T = PageTable
  import E = TableEdits
  import S = Spaces
  import V = Vmm
  import L = HeapList
  import A = HeapApart
  import G = HeapPages
  import H = HeapMemory
  import B = HeapBytes
  import K = Heap
  import R = HeapRuns
  import N = Kernel

  datatype Call =
    | Space(op: S.Op)
    | Malloc(size: Word)
    | Calloc(num: Word, size: Word)
    | Realloc(k: nat, size: Word)
    | Free(k: nat)
    | Poke(k: nat, off: nat, v: Word)
  {
    // Maps stay below the shared upper half.
    predicate Lower() {
      this.Space? ==> op.Lower()
    }
  }

  // The heap's frames leave both sides of the account of frames.
  lemma FramesTaken(fs: set<nat>, base: set<nat>, tab0: T.Tabs, owned: set<nat>, owned': set<nat>,
                    free: set<nat>, free': set<nat>, tab: T.Tabs)
    requires fs <= free && owned' == owned + fs && free' == free - fs && tab.Keys !! free
    requires S.Conserved(base, tab0, free, tab) && S.Extends(tab0, tab)
    ensures S.Conserved(base - fs, tab0, free', tab) && free' + owned' == free + owned
  {
    forall f | f in fs
      ensures f !in tab0 && f !in tab
    {
    }
  }

  lemma PagesTaken(pages: seq<nat>, r: L.Result, base: set<nat>, tab0: T.Tabs, owned: set<nat>, owned': set<nat>,
                   free: set<nat>, free': set<nat>, tab: T.Tabs) returns (base': set<nat>)
    requires |r.left| <= |pages| && K.TakenFor(K.Used(pages, r), owned, owned', free, free') && tab.Keys !! free
    requires S.Conserved(base, tab0, free, tab) && S.Extends(tab0, tab)
    ensures S.Conserved(base', tab0, free', tab) && free' + owned' + tab.Keys == free + owned + tab.Keys
    ensures base' <= base
  {
    hide S.Conserved, S.Extends, G.FramesOf, K.Used;
    var fs := G.FramesOf(K.Used(pages, r));
    FramesTaken(fs, base, tab0, owned, owned', free, free', tab);
    base' := base - fs;
  }

  // ---------- what each call does ----------

  // The heap and its buffers at one moment of a run.
  datatype View = View(mem: H.Mem, bs: seq<L.Blk>, held: seq<R.Buffer>, avail: set<nat>, pages: nat)

  // The test made before kmalloc: what it merges touches, and its pages can be counted.
  ghost predicate Callable(s: View, size: Word, ps: seq<nat>) {
    && N.SnugCall(s.bs, size, ps)
    && (size > 0 ==> 4096 * (s.pages + L.Taken(s.bs, K.WordsFor(size), ps)) < 0x1_0000_0000)
  }

  // kmalloc with the available frames at ps: a success adds buffer b.
  ghost predicate Handed(s: View, t: View, size: Word, ps: seq<nat>, b: L.Blk) {
    var r := K.Served(s.bs, size, ps);
    && t.bs == r.bs && G.Lists(r.left, t.avail) && t.pages == s.pages + |ps| - |r.left|
    && (r.payload.None? ==> t.held == s.held)
    && (r.payload.Some? ==> t.held == s.held + [R.BufferAt(t.mem, b)] && Sized(b, r.payload.value, size))
  }

  predicate Sized(b: L.Blk, at: nat, size: Word) {
    b.at + 4 == at && K.WordsFor(size) <= b.words <= K.WordsFor(size) + 4
  }

  ghost predicate Malloced(s: View, t: View, size: Word, ps: seq<nat>, b: L.Blk) {
    G.Lists(ps, s.avail) && if Callable(s, size, ps) then Handed(s, t, size, ps, b) else t == s
  }

  // kcalloc: the same with the bytes zero, and nothing for a product that overflows.
  ghost predicate Cleared(s: View, t: View, n: nat, ps: seq<nat>, b: L.Blk) {
    if n >= TWO64 then t == s
    else Handed(s, t, n, ps, b) && (K.Served(s.bs, n, ps).payload.Some? ==> B.Zeroed(t.mem, b.at + 4, n))
  }

  ghost predicate Calloced(s: View, t: View, num: Word, size: Word, ps: seq<nat>, b: L.Blk) {
    var n := R.Times(num, size);
    && G.Lists(ps, s.avail)
    && if n < TWO64 ==> Callable(s, n, ps) then Cleared(s, t, n, ps, b) else t == s
  }

  // Buffer k, which is block i, given back.
  ghost predicate Released(s: View, t: View, k: nat, i: nat)
    requires k < |s.held| && i < |s.bs|
  {
    t.bs == L.Release(s.bs, i) && t.held == R.Without(s.held, k) && t.avail == s.avail && t.pages == s.pages
  }

  ghost predicate Freed(s: View, t: View, k: nat, i: nat) {
    && k < |s.held| && i < |s.bs| && s.bs[i] == s.held[k].blk
    && if G.Snug(s.bs, i) then Released(s, t, k, i) else t == s
  }

  // Block j of the list that kmalloc left was the buffer's, and is released; the
  // buffer is block b now, and starts with what it held.
  ghost predicate Enlarged(s: View, t: View, k: nat, size: Word, ps: seq<nat>, j: nat, b: L.Blk)
    requires k < |s.held|
  {
    var r := K.Served(s.bs, size, ps);
    && G.Lists(r.left, t.avail) && t.pages == s.pages + |ps| - |r.left|
    && (r.payload.None? ==> t.bs == r.bs && t.held == s.held)
    && (r.payload.Some? ==>
          && j < |r.bs| && r.bs[j] == s.held[k].blk && t.bs == L.Release(r.bs, j)
          && t.held == s.held[k := R.BufferAt(t.mem, b)] && b.at + 4 == r.payload.value && size <= 8 * b.words
          && s.held[k].data <= R.BufferAt(t.mem, b).data)
  }

  // The test made before krealloc: kfree's, kmalloc's and that of its own kfree.
  ghost predicate Resizable(s: View, k: nat, size: Word, ps: seq<nat>, i: nat) {
    && k < |s.held| && i < |s.bs|
    && if size == 0 then G.Snug(s.bs, i)
       else 8 * |s.held[k].data| < size ==> Callable(s, size, ps) && N.SnugMove(s.bs, i, size, ps)
  }

  // krealloc of buffer k, which is block i.
  ghost predicate Resized(s: View, t: View, k: nat, size: Word, ps: seq<nat>, i: nat, j: nat, b: L.Blk) {
    && k < |s.held| && i < |s.bs|
    && if size == 0 then Released(s, t, k, i)
       else if size <= 8 * |s.held[k].data| then t == s
       else Enlarged(s, t, k, size, ps, j, b)
  }

  ghost predicate Realloced(s: View, t: View, k: nat, size: Word, ps: seq<nat>, i: nat, j: nat, b: L.Blk) {
    && k < |s.held| && i < |s.bs| && s.bs[i] == s.held[k].blk && G.Lists(ps, s.avail)
    && if Resizable(s, k, size, ps, i) then Resized(s, t, k, size, ps, i, j, b) else t == s
  }

  ghost predicate Poked(s: View, t: View, k: nat, off: nat, v: Word)
    requires k < |s.held|
  {
    if off < |s.held[k].data| then
      && t.held == s.held[k := s.held[k].(data := s.held[k].data[off := v])]
      && t.bs == s.bs && t.avail == s.avail && t.pages == s.pages
    else t == s
  }

  // One call: made with its whole effect when its test allows, and else not at all.
  ghost predicate Did(call: Call, s: View, t: View) {
    match call
    case Space(op) => t.bs == s.bs && t.held == s.held && t.pages == s.pages
    case Malloc(size) => exists ps, b :: Malloced(s, t, size, ps, b)
    case Calloc(num, size) =>
      if R.Times(num, size) + 7 < TWO64 || TWO64 <= R.Times(num, size)
      then exists ps, b :: Calloced(s, t, num, size, ps, b) else t == s
    case Realloc(k, size) =>
      if k < |s.held| && size + 7 < TWO64
      then exists ps, i, j, b :: Realloced(s, t, k, size, ps, i, j, b) else t == s
    case Free(k) => if k < |s.held| then exists i :: Freed(s, t, k, i) else t == s
    case Poke(k, off, v) => if k < |s.held| then Poked(s, t, k, off, v) else t == s
  }

  // Every call took the heap and its buffers from one view to the next.
  ghost predicate Traced(calls: seq<Call>, trace: seq<View>) {
    |trace| == |calls| + 1 && forall n :: 0 <= n < |calls| ==> Did(calls[n], trace[n], trace[n + 1])
  }

  lemma TraceMore(calls: seq<Call>, n: nat, trace: seq<View>, t: View)
    requires n < |calls| && Traced(calls[..n], trace) && Did(calls[n], trace[n], t)
    ensures Traced(calls[..n + 1], trace + [t])
  {
    hide Did;
    var c, s := calls[..n + 1], trace + [t];
    forall i | 0 <= i < |c|
      ensures Did(c[i], s[i], s[i + 1])
    {
      if i < n {
        assert c[i] == calls[..n][i];
      }
    }
  }

  lemma SpaceOnly(op: S.Op, s: View, t: View)
    requires Did(Space(op), s, t)
    ensures t.bs == s.bs && t.held == s.held
  {
  }

  // The pointers held after kmalloc returned this one.
  function Answered(ptrs: seq<nat>, ptr: nat): seq<nat> {
    if ptr == 0 then ptrs else ptrs + [ptr]
  }

  // A kmalloc that may be called changes none of the buffers held.
  lemma HandedIs(s: View, m: H.Mem, hi: nat, size: Word, ps: seq<nat>, avail: set<nat>,
                 hhdm: nat, ptrs: seq<nat>, ptr: nat) returns (us: seq<R.Buffer>, b: L.Blk)
    requires A.Disjoint(s.bs, hi) && L.Canonical(s.bs) && G.Lists(ps, s.avail) && G.Framed(s.avail, hi)
    requires R.Admitted(s.bs, size, ps, hi) && R.Holding(s.mem, s.bs, s.held) && R.Pointing(hhdm, ptrs, s.held)
    requires H.PayloadsKept(s.mem, m, L.Live(s.bs))
    requires var r := K.Served(s.bs, size, ps);
             && G.Lists(r.left, avail) && ptr == K.Pointer(hhdm, r.payload) && (r.payload.Some? ==> ptr != 0)
    ensures var r := K.Served(s.bs, size, ps);
            && Handed(s, View(m, r.bs, us, avail, s.pages + |ps| - |r.left|), size, ps, b)
            && R.Holding(m, r.bs, us) && R.Pointing(hhdm, Answered(ptrs, ptr), us)
  {
    hide A.Disjoint, L.Canonical, G.Lists, G.Framed, R.Admitted, R.Holding, H.PayloadsKept, L.Live, K.Served;
    hide B.SurvivorsKept, K.WordsFor, R.BufferAt, R.Pointing, H.Ptr;
    var r := K.Served(s.bs, size, ps);
    if r.payload.Some? {
      b := R.Added(s.mem, m, s.bs, size, ps, s.avail, hi, s.held);
      R.PointingMore(hhdm, ptrs, s.held, ptr, R.BufferAt(m, b));
      us := s.held + [R.BufferAt(m, b)];
    } else {
      us, b := s.held, L.Blk(0, 0, false);
      B.SurvivorsOf(s.mem, m, L.Live(s.bs), L.Live(r.bs), L.Live(s.bs));
      R.Failed(s.mem, m, s.bs, size, ps, s.held);
    }
  }

  // Nor does a krealloc to more bytes, but the one it moves.
  lemma EnlargedIs(s: View, m: H.Mem, bs: seq<L.Blk>, hi: nat, k: nat, size: Word, ps: seq<nat>, j: nat,
                   avail: set<nat>, hhdm: nat, ptrs: seq<nat>, ptr: nat) returns (us: seq<R.Buffer>, b: L.Blk)
    requires A.Disjoint(s.bs, hi) && L.Canonical(s.bs) && G.Lists(ps, s.avail) && G.Framed(s.avail, hi)
    requires R.Admitted(s.bs, size, ps, hi) && R.Holding(s.mem, s.bs, s.held) && R.Pointing(hhdm, ptrs, s.held)
    requires k < |s.held| && 8 * s.held[k].blk.words < size && size + 7 < TWO64
    requires B.SurvivorsKept(s.mem, m, L.Live(s.bs), L.Live(bs))
    requires var r := K.Served(s.bs, size, ps);
             && G.Lists(r.left, avail) && ptr == K.Pointer(hhdm, r.payload) && (r.payload.Some? ==> ptr != 0)
             && (r.payload.None? ==> bs == r.bs)
             && (r.payload.Some? ==>
                   && j < |r.bs| && r.bs[j] == s.held[k].blk && bs == L.Release(r.bs, j)
                   && B.Copied(s.mem, m, s.held[k].blk.at + 4, r.payload.value, 8 * s.held[k].blk.words))
    ensures var r := K.Served(s.bs, size, ps);
            && Enlarged(s, View(m, bs, us, avail, s.pages + |ps| - |r.left|), k, size, ps, j, b)
            && R.Holding(m, bs, us)
            && k < |ptrs| && R.Pointing(hhdm, if ptr == 0 then ptrs else ptrs[k := ptr], us)
  {
    hide A.Disjoint, L.Canonical, G.Lists, G.Framed, R.Admitted, R.Holding, L.Live, K.Served, L.Release;
    hide B.SurvivorsKept, K.WordsFor, R.BufferAt, R.Pointing, H.Ptr, B.Copied;
    var r := K.Served(s.bs, size, ps);
    if r.payload.Some? {
      b := R.Moved(s.mem, m, s.bs, size, ps, s.avail, hi, s.held, k, j);
      us := s.held[k := R.BufferAt(m, b)];
      R.PointingMoved(hhdm, ptrs, s.held, k, ptr, R.BufferAt(m, b));
    } else {
      us, b := s.held, L.Blk(0, 0, false);
      R.PointingLess(hhdm, ptrs, s.held, k);
      R.Failed(s.mem, m, s.bs, size, ps, s.held);
    }
  }

  // A word of a block lies in the heap's frames.
  lemma BlockWord(m: T.Mem, m': T.Mem, bs: seq<L.Blk>, owned: set<nat>, i: nat, off: nat, v: Word)
    requires G.Exact(bs, owned) && i < |bs| && off < bs[i].words && bs[i].at + 4 + off < |m|
    requires m' == m[bs[i].at + 4 + off := v]
    ensures N.Inside(m, m', owned)
  {
    assert L.Spans(bs[i], bs[i].at + 4 + off);
    assert L.InBlocks(bs, bs[i].at + 4 + off);
  }

  // A call that takes no page.
  lemma NoneUsed(pages: seq<nat>, bs: seq<L.Blk>, owned: set<nat>, free: set<nat>)
    ensures K.TakenFor(K.Used(pages, L.Result(bs, None, pages)), owned, owned, free, free)
  {
    K.Nothing(pages, owned, free);
    assert K.Used(pages, L.Result(bs, None, pages)) == pages[..0];
  }

  lemma NoneAnswered(ptrs: seq<nat>)
    ensures Answered(ptrs, 0) == ptrs
  {
  }

  lemma SizedAt(s: View, t: View, size: Word, ps: seq<nat>, b: L.Blk)
    requires Handed(s, t, size, ps, b) && K.Served(s.bs, size, ps).payload.Some?
    ensures K.Served(s.bs, size, ps).payload.value == b.at + 4
  {
  }

  lemma TimesIs(num: Word, size: Word)
    ensures R.Times(num, size) == num * size
  {
  }

  lemma SameFrames(free0: set<nat>, owned0: set<nat>, free: set<nat>, owned: set<nat>, tab: T.Tabs)
    requires free + owned + tab.Keys == free0 + owned0 + tab.Keys
    requires tab.Keys !! free && tab.Keys !! owned && tab.Keys !! free0 && tab.Keys !! owned0
    ensures free + owned == free0 + owned0
  {
    forall f
      ensures f in free + owned <==> f in free0 + owned0
    {
      assert f in free + owned + tab.Keys <==> f in free0 + owned0 + tab.Keys;
    }
  }

  lemma SameTotal(base: set<nat>, tab0: T.Tabs, free: set<nat>, tab: T.Tabs, free': set<nat>, tab': T.Tabs,
                  owned: set<nat>)
    requires S.Conserved(base, tab0, free, tab) && S.Conserved(base, tab0, free', tab')
    ensures free' + tab'.Keys == free + tab.Keys && free' + owned + tab'.Keys == free + owned + tab.Keys
  {
  }

  class Session {
    const kernel: N.Kernel
    const client: R.Client
    // The handles of the address spaces opened and not yet destroyed.
    var spaces: set<nat>
    ghost var roots: set<nat>
    // The tables and the memory at the start, and the frames that were free then
    // and are not the heap's.
    ghost const tab0: T.Tabs
    ghost const m0: T.Mem
    ghost var base: set<nat>

    ghost predicate Valid()
      reads this, client, kernel, kernel.spaces, kernel.heap, client.heap, client.heap.pmm, client.heap.pmm.bitmap
      reads client.heap.mem, kernel.spaces.pmm, kernel.spaces.pmm.bitmap, kernel.spaces.mem
      reads kernel.heap.pmm, kernel.heap.pmm.bitmap, kernel.heap.mem
    {
      && kernel.Valid() && client.heap == kernel.heap && client.Valid()
      && kernel.spaces.Running(tab0, base, m0, spaces, roots) && tab0.Keys !! base
    }

    // All frames that are free, the heap's, or tables.
    ghost function Frames(): set<nat>
      reads kernel.spaces, kernel.heap, kernel.heap.pmm, kernel.heap.pmm.bitmap
    {
      kernel.heap.pmm.Free() + kernel.heap.owned + kernel.spaces.tab.Keys
    }

    ghost function Now(): View
      reads client, kernel.heap, kernel.heap.mem, kernel.heap.pmm, kernel.heap.pmm.bitmap
    {
      View(kernel.heap.M(), kernel.heap.bs, client.held, kernel.heap.pmm.Available(), kernel.heap.gPages)
    }

    constructor (kernel: N.Kernel, client: R.Client)
      requires kernel.Valid() && client.heap == kernel.heap && client.Valid()
      ensures Valid() && spaces == {} && this.kernel == kernel && this.client == client
      ensures tab0 == kernel.spaces.tab && m0 == kernel.spaces.M()
    {
      this.kernel, this.client := kernel, client;
      spaces, roots := {}, {};
      tab0, m0, base := kernel.spaces.tab, kernel.spaces.M(), kernel.spaces.pmm.Free();
      new;
      hide T.Shape, S.OpenSpaces, S.Conserved, E.SameTranslations, P.Allocator.Valid, P.Allocator.Free;
      hide K.KernelHeap.Valid, R.Client.Valid, G.Exact;
      S.OpenFirst(m0, tab0, kernel.spaces.KernelRoot());
      S.ConservedTwice(base, tab0, base, tab0, base, tab0);
      E.SameTablesTranslate(m0, m0, tab0, kernel.spaces.KernelRoot());
    }

    lemma RunningFacts()
      requires kernel.spaces.Running(tab0, base, m0, spaces, roots)
      ensures kernel.spaces.Valid() && S.Conserved(base, tab0, kernel.spaces.pmm.Free(), kernel.spaces.tab)
      ensures S.OpenSpaces(tab0, kernel.spaces.tab, kernel.spaces.KernelRoot(), roots)
      ensures E.SameTranslations(m0, kernel.spaces.M(), tab0) && spaces == S.Handles(roots, kernel.spaces.hhdm)
      ensures S.Extends(tab0, kernel.spaces.tab) && kernel.spaces.tab.Keys !! kernel.spaces.pmm.Free()
    {
      hide T.Shape, S.OpenSpaces, S.Conserved, E.SameTranslations, P.Allocator.Valid, P.Allocator.Free, S.Handles;
      S.OpenOld(tab0, kernel.spaces.tab, kernel.spaces.KernelRoot(), roots);
    }

    // A step on address spaces keeps the heap and the buffers.
    method DoSpace(op: S.Op)
      requires Valid() && op.Lower()
      modifies this, kernel.spaces`tab, kernel.heap.mem
      modifies kernel.heap.pmm`freePages, kernel.heap.pmm`log, kernel.heap.pmm.bitmap
      ensures Valid() && Frames() == old(Frames()) && Did(Space(op), old(Now()), Now())
      ensures op.Destroy? ==> spaces == old(spaces) - {op.space}
    {
      hide T.Shape, S.OpenSpaces, S.Conserved, E.SameTranslations, P.Allocator.Valid, P.Allocator.Free, S.Handles;
      hide A.Disjoint, H.Linked, A.Headed, G.Exact, L.Canonical, L.Words, L.Live, L.Total, S.OutsideUnchanged;
      hide R.Holding, H.PayloadsKept;
      hide V.AddressSpaces.Running, H.Ptr, B.SurvivorsKept;
      RunningFacts();
      ghost var m, tab, free := kernel.spaces.M(), kernel.spaces.tab, kernel.spaces.pmm.Free();
      spaces, roots := kernel.spaces.Perform(op, spaces, tab0, base, m0, roots);
      RunningFacts();
      S.ConservedTwice(free, tab, free, tab, free, tab);
      SameTotal(base, tab0, free, tab, kernel.spaces.pmm.Free(), kernel.spaces.tab, kernel.heap.owned);
      N.HeapUntouched(m, kernel.spaces.M(), tab, kernel.spaces.tab, free, kernel.spaces.pmm.Free(),
                      kernel.heap.owned, kernel.heap.hhdm, kernel.heap.bs, kernel.heap.freeList);
      B.SurvivorsOf(m, kernel.heap.M(), L.Live(kernel.heap.bs), L.Live(kernel.heap.bs), L.Live(kernel.heap.bs));
      R.SameHolding(m, kernel.heap.M(), kernel.heap.bs, kernel.heap.bs, client.held);
      assert kernel.heap.Valid();
      assert kernel.Valid();
      assert client.Valid();
    }

    lemma RunningAgain(b: set<nat>)
      requires kernel.spaces.Valid() && S.Conserved(b, tab0, kernel.spaces.pmm.Free(), kernel.spaces.tab)
      requires S.OpenSpaces(tab0, kernel.spaces.tab, kernel.spaces.KernelRoot(), roots)
      requires E.SameTranslations(m0, kernel.spaces.M(), tab0) && spaces == S.Handles(roots, kernel.spaces.hhdm)
      ensures kernel.spaces.Running(tab0, b, m0, spaces, roots)
    {
    }

    lemma KernelFacts()
      requires kernel.Valid()
      ensures kernel.heap.Valid() && kernel.heap.Sound()
      ensures kernel.spaces.Valid() && G.Exact(kernel.heap.bs, kernel.heap.owned)
      ensures kernel.spaces.pmm == kernel.heap.pmm && kernel.spaces.mem == kernel.heap.mem
      ensures kernel.spaces.hhdm == kernel.heap.hhdm && kernel.heap.owned !! kernel.spaces.tab.Keys
    {
      hide K.KernelHeap.Valid, K.KernelHeap.Sound, V.AddressSpaces.Valid, G.Exact, A.Disjoint, G.Framed;
      kernel.heap.ApartFacts();
    }

    // The parts of Valid.
    lemma Parts()
      requires Valid()
      ensures kernel.Valid() && client.heap == kernel.heap && client.Valid() && tab0.Keys !! base
      ensures kernel.heap.Valid() && kernel.spaces.mem == kernel.heap.mem && kernel.spaces.DirectMapOk()
      ensures R.Holding(kernel.heap.M(), kernel.heap.bs, client.held) && kernel.spaces.pmm == kernel.heap.pmm
      ensures R.Pointing(kernel.heap.hhdm, client.ptrs, client.held) && |client.ptrs| == |client.held|
      ensures kernel.spaces.Running(tab0, base, m0, spaces, roots)
    {
      hide R.Holding, K.KernelHeap.Valid, K.KernelHeap.Sound, V.AddressSpaces.Running, G.Exact, T.Shape;
      hide P.Allocator.Valid, P.Allocator.Free;
    }

    lemma Whole()
      requires kernel.Valid() && client.heap == kernel.heap && tab0.Keys !! base
      requires R.Holding(kernel.heap.M(), kernel.heap.bs, client.held)
      requires R.Pointing(kernel.heap.hhdm, client.ptrs, client.held)
      requires kernel.spaces.Running(tab0, base, m0, spaces, roots)
      ensures Valid()
    {
      hide R.Holding, R.Pointing, K.KernelHeap.Valid, K.KernelHeap.Sound, V.AddressSpaces.Running, N.Kernel.Valid;
      KernelFacts();
    }

    // What a run has kept of the frames and tables when the memory was m and these
    // frames were free.
    ghost predicate Account(m: T.Mem, free: set<nat>)
      reads this, kernel.spaces
    {
      && S.Conserved(base, tab0, free, kernel.spaces.tab) && S.Extends(tab0, kernel.spaces.tab)
      && S.OpenSpaces(tab0, kernel.spaces.tab, kernel.spaces.KernelRoot(), roots)
      && spaces == S.Handles(roots, kernel.spaces.hhdm) && kernel.spaces.tab.Keys !! free
      && E.SameTranslations(m0, m, tab0) && tab0.Keys !! base
    }

    lemma AccountNow()
      requires Valid()
      ensures Account(kernel.spaces.M(), kernel.heap.pmm.Free())
    {
      hide S.OpenSpaces, S.Conserved, S.Extends, S.Handles, E.SameTranslations, P.Allocator.Free, R.Client.Valid;
      hide V.AddressSpaces.Running;
      RunningFacts();
    }

    // The same after a heap call that took these pages.
    lemma StillRunning(m1: T.Mem, free1: set<nat>, owned1: set<nat>, pages: seq<nat>, r: L.Result)
      returns (base': set<nat>)
      requires kernel.Valid() && Account(m1, free1) && |r.left| <= |pages|
      requires K.TakenFor(K.Used(pages, r), owned1, kernel.heap.owned, free1, kernel.heap.pmm.Free())
      requires E.SameTranslations(m1, kernel.spaces.M(), kernel.spaces.tab)
      ensures kernel.spaces.Running(tab0, base', m0, spaces, roots) && tab0.Keys !! base'
      ensures Frames() == free1 + owned1 + kernel.spaces.tab.Keys
    {
      hide S.OpenSpaces, S.Conserved, S.Extends, S.Handles, E.SameTranslations, K.TakenFor, K.Used, N.Kernel.Valid;
      hide P.Allocator.Free, V.AddressSpaces.Valid, V.AddressSpaces.Running;
      KernelFacts();
      base' := PagesTaken(pages, r, base, tab0, owned1, kernel.heap.owned, free1, kernel.heap.pmm.Free(),
                          kernel.spaces.tab);
      S.SameTwice(m0, m1, kernel.spaces.M(), tab0, kernel.spaces.tab);
      RunningAgain(base');
    }

    // What the calls below start from.
    lemma CallFacts(size: Word, pages: seq<nat>)
      requires Valid() && G.Lists(pages, kernel.heap.pmm.Available())
      ensures N.SnugCall(kernel.heap.bs, size, pages) && kernel.heap.Counts(size, pages) <==>
              Callable(Now(), size, pages)
      ensures A.Disjoint(kernel.heap.bs, kernel.heap.mem.Length) && L.Canonical(kernel.heap.bs)
      ensures G.Framed(kernel.heap.pmm.Available(), kernel.heap.mem.Length)
      ensures Callable(Now(), size, pages) ==> R.Admitted(kernel.heap.bs, size, pages, kernel.heap.mem.Length)
    {
      hide R.Holding, R.Pointing, K.KernelHeap.Valid, K.KernelHeap.Sound, V.AddressSpaces.Running, G.Exact;
      hide P.Allocator.Available, P.Allocator.Valid, P.Allocator.Free, A.Disjoint, L.Canonical, G.Framed, A.Headed;
      hide V.AddressSpaces.Valid, G.Lists, L.Taken, N.SnugCall, K.WordsFor, R.Admitted, A.Fitting;
      kernel.heap.ApartFacts();
      kernel.heap.ValidFacts();
      if Callable(Now(), size, pages) {
        kernel.SnugAdmits(size, pages);
        R.AdmitsIs(kernel.heap, size, pages);
      }
    }

    // kmalloc, exactly when it may be called: a buffer more, and the others and
    // the tables as they were.
    method DoMalloc(size: Word) returns (ghost pages: seq<nat>, ghost b: L.Blk)
      requires Valid()
      modifies this, client, kernel.heap, kernel.heap.mem
      modifies kernel.heap.pmm`freePages, kernel.heap.pmm`log, kernel.heap.pmm.bitmap
      ensures Valid() && Frames() == old(Frames()) && spaces == old(spaces)
      ensures Malloced(old(Now()), Now(), size, pages, b)
    {
      hide K.KernelHeap.Valid, K.KernelHeap.Sound, V.AddressSpaces.Valid, P.Allocator.Valid;
      hide Valid, N.Kernel.Valid, R.Client.Valid, V.AddressSpaces.Running, P.Allocator.Free, P.Allocator.Available;
      hide G.Lists, N.SnugCall, K.KernelHeap.Counts, Callable, Handed, R.Holding, R.Pointing, R.Admitted, Answered;
      hide A.Disjoint, L.Canonical, G.Framed;
      Parts();
      pages := G.Enumerate(kernel.heap.pmm.Available());
      CallFacts(size, pages);
      b := L.Blk(0, 0, false);
      var ok := kernel.MayAllocate(size, pages);
      if ok {
        var ptr;
        ghost var us;
        ptr, us, b := Alloc(size, pages);
        client.ptrs, client.held := Answered(client.ptrs, ptr), us;
        Whole();
      }
    }

    method Alloc(size: Word, ghost pages: seq<nat>) returns (ptr: nat, ghost us: seq<R.Buffer>, ghost b: L.Blk)
      requires Valid() && G.Lists(pages, kernel.heap.pmm.Available()) && Callable(Now(), size, pages)
      modifies this`base, kernel.heap, kernel.heap.mem
      modifies kernel.heap.pmm`freePages, kernel.heap.pmm`log, kernel.heap.pmm.bitmap
      ensures kernel.Valid() && kernel.spaces.Running(tab0, base, m0, spaces, roots) && tab0.Keys !! base
      ensures Frames() == old(Frames())
      ensures R.Holding(kernel.heap.M(), kernel.heap.bs, us)
      ensures R.Pointing(kernel.heap.hhdm, Answered(client.ptrs, ptr), us)
      ensures Handed(old(Now()), Now().(held := us), size, pages, b)
    {
      hide K.KernelHeap.Valid, K.KernelHeap.Sound, V.AddressSpaces.Valid, P.Allocator.Valid;
      hide Valid, N.Kernel.Valid, R.Client.Valid, V.AddressSpaces.Running, P.Allocator.Free, P.Allocator.Available;
      hide G.Lists, N.SnugCall, K.KernelHeap.Counts, Callable, Handed, R.Holding, R.Pointing, R.Admitted, Answered;
      hide A.Disjoint, L.Canonical, G.Framed, K.Served, K.TakenFor, K.Used, E.SameTables, E.SameTranslations;
      hide H.PayloadsKept, L.Live, Account, H.Ptr;
      Parts();
      ghost var s := Now();
      ghost var m1, free1, owned1 := kernel.spaces.M(), kernel.heap.pmm.Free(), kernel.heap.owned;
      AccountNow();
      CallFacts(size, pages);
      ptr := kernel.Kmalloc(size, pages);
      us, b := HandedIs(s, kernel.heap.M(), kernel.heap.mem.Length, size, pages, kernel.heap.pmm.Available(),
                        kernel.heap.hhdm, client.ptrs, ptr);
      base := StillRunning(m1, free1, owned1, pages, K.Served(s.bs, size, pages));
    }

    // kcalloc likewise; a product that overflows is refused.
    method DoCalloc(num: Word, size: Word) returns (ghost pages: seq<nat>, ghost b: L.Blk)
      requires Valid() && (R.Times(num, size) + 7 < TWO64 || TWO64 <= R.Times(num, size))
      modifies this, client, kernel.heap, kernel.heap.mem
      modifies kernel.heap.pmm`freePages, kernel.heap.pmm`log, kernel.heap.pmm.bitmap
      ensures Valid() && Frames() == old(Frames()) && spaces == old(spaces)
      ensures Calloced(old(Now()), Now(), num, size, pages, b)
    {
      hide K.KernelHeap.Valid, K.KernelHeap.Sound, V.AddressSpaces.Valid, P.Allocator.Valid;
      hide Valid, N.Kernel.Valid, R.Client.Valid, V.AddressSpaces.Running, P.Allocator.Free, P.Allocator.Available;
      hide G.Lists, N.SnugCall, K.KernelHeap.Counts, Callable, Handed, R.Holding, R.Pointing, R.Admitted, Answered;
      hide A.Disjoint, L.Canonical, G.Framed, R.Times, Cleared;
      Parts();
      pages := G.Enumerate(kernel.heap.pmm.Available());
      b := L.Blk(0, 0, false);
      TimesIs(num, size);
      var total := num * size;
      var ok := true;
      if total < TWO64 {
        CallFacts(total, pages);
        ok := kernel.MayAllocate(total, pages);
      }
      if ok {
        var ptr;
        ghost var us;
        ptr, us, b := AllocZero(num, size, pages);
        client.ptrs, client.held := Answered(client.ptrs, ptr), us;
        Whole();
      }
    }

    method AllocZero(num: Word, size: Word, ghost pages: seq<nat>)
      returns (ptr: nat, ghost us: seq<R.Buffer>, ghost b: L.Blk)
      requires Valid() && G.Lists(pages, kernel.heap.pmm.Available())
      requires R.Times(num, size) + 7 < TWO64 || TWO64 <= R.Times(num, size)
      requires R.Times(num, size) < TWO64 ==> Callable(Now(), R.Times(num, size), pages)
      modifies this`base, kernel.heap, kernel.heap.mem
      modifies kernel.heap.pmm`freePages, kernel.heap.pmm`log, kernel.heap.pmm.bitmap
      ensures kernel.Valid() && kernel.spaces.Running(tab0, base, m0, spaces, roots) && tab0.Keys !! base
      ensures Frames() == old(Frames())
      ensures R.Holding(kernel.heap.M(), kernel.heap.bs, us)
      ensures R.Pointing(kernel.heap.hhdm, Answered(client.ptrs, ptr), us)
      ensures Cleared(old(Now()), Now().(held := us), R.Times(num, size), pages, b)
    {
      hide K.KernelHeap.Valid, K.KernelHeap.Sound, V.AddressSpaces.Valid, P.Allocator.Valid;
      hide Valid, N.Kernel.Valid, R.Client.Valid, V.AddressSpaces.Running, P.Allocator.Free, Sized;
      hide G.Lists, N.SnugCall, K.KernelHeap.Counts, Callable, R.Holding, R.Pointing, R.Admitted, Answered;
      hide A.Disjoint, L.Canonical, G.Framed, K.Served, K.TakenFor, K.Used, E.SameTables, E.SameTranslations;
      hide H.PayloadsKept, L.Live, Account, H.Ptr, R.Times, B.Zeroed, R.BufferAt;
      Parts();
      ghost var s, total := Now(), R.Times(num, size);
      ghost var m1, free1, owned1 := kernel.spaces.M(), kernel.heap.pmm.Free(), kernel.heap.owned;
      AccountNow();
      if total < TWO64 {
        CallFacts(total, pages);
      }
      us, b := client.held, L.Blk(0, 0, false);
      ptr := kernel.Kcalloc(num, size, pages);
      if total < TWO64 {
        us, b := HandedIs(s, kernel.heap.M(), kernel.heap.mem.Length, total, pages, kernel.heap.pmm.Available(),
                          kernel.heap.hhdm, client.ptrs, ptr);
        if K.Served(s.bs, total, pages).payload.Some? {
          SizedAt(s, Now().(held := us), total, pages, b);
        }
        base := StillRunning(m1, free1, owned1, pages, K.Served(s.bs, total, pages));
      } else {
        NoneUsed(pages, s.bs, kernel.heap.owned, kernel.heap.pmm.Free());
        NoneAnswered(client.ptrs);
        base := StillRunning(m1, free1, owned1, pages, L.Result(s.bs, None, pages));
      }
    }

    // kfree of buffer k, exactly when the blocks it merges lie side by side: the
    // other buffers and the tables are as they were.
    method DoFree(k: nat) returns (ghost i: nat)
      requires Valid() && k < |client.ptrs|
      modifies this, client, kernel.heap, kernel.heap.mem
      ensures Valid() && Frames() == old(Frames()) && spaces == old(spaces)
      ensures Freed(old(Now()), Now(), k, i)
    {
      hide K.KernelHeap.Valid, K.KernelHeap.Sound, V.AddressSpaces.Valid, P.Allocator.Valid;
      hide Valid, N.Kernel.Valid, R.Client.Valid, V.AddressSpaces.Running, P.Allocator.Free, P.Allocator.Available;
      hide R.Holding, R.Pointing, L.Canonical, G.Snug, L.Release, L.Live, H.PayloadsKept, B.SurvivorsKept, R.Intact;
      hide E.SameTables, E.SameTranslations, H.Ptr, Account, K.TakenFor, K.Used;
      ghost var s := Now();
      Parts();
      i := client.Find(k);
      var ok := kernel.Touches(client.ptrs[k], i);
      if !ok {
        return;
      }
      ghost var m1, free1, owned1 := kernel.spaces.M(), kernel.heap.pmm.Free(), kernel.heap.owned;
      AccountNow();
      kernel.Kfree(client.ptrs[k], i);
      B.SurvivorsOf(s.mem, kernel.heap.M(), L.Live(s.bs), L.Live(kernel.heap.bs), L.Live(kernel.heap.bs));
      R.Removed(s.mem, kernel.heap.M(), s.bs, i, s.held, k);
      R.PointingLess(kernel.heap.hhdm, client.ptrs, s.held, k);
      NoneUsed([], s.bs, kernel.heap.owned, kernel.heap.pmm.Free());
      base := StillRunning(m1, free1, owned1, [], L.Result(s.bs, None, []));
      client.ptrs, client.held := R.Without(client.ptrs, k), R.Without(client.held, k);
      Whole();
    }

    // The test before krealloc.
    method MayResize(k: nat, size: Word, ghost i: nat, ghost pages: seq<nat>) returns (ok: bool)
      requires Valid() && k < |client.ptrs| && k < |client.held| && G.Lists(pages, kernel.heap.pmm.Available())
      requires i < |kernel.heap.bs| && kernel.heap.bs[i] == client.held[k].blk && kernel.heap.bs[i].used
      requires client.ptrs[k] == H.Ptr(kernel.heap.hhdm, kernel.heap.bs[i].at + 4) != 0
      ensures ok <==> Resizable(Now(), k, size, pages, i)
    {
      hide K.KernelHeap.Valid, K.KernelHeap.Sound, V.AddressSpaces.Valid, P.Allocator.Valid;
      hide Valid, N.Kernel.Valid, R.Client.Valid, V.AddressSpaces.Running, P.Allocator.Free, P.Allocator.Available;
      hide G.Lists, N.SnugCall, K.KernelHeap.Counts, Callable, R.Holding, R.Pointing, R.Admitted, R.Intact;
      hide A.Disjoint, L.Canonical, G.Framed, G.Snug, N.SnugMove, H.Ptr;
      Parts();
      CallFacts(size, pages);
      var words := client.Capacity(k);
      ok := true;
      if size == 0 {
        ok := kernel.Touches(client.ptrs[k], i);
      } else if size > 8 * words {
        ok := kernel.MayAllocate(size, pages);
        if ok {
          ok := kernel.StaysSnug(client.ptrs[k], size, i, pages);
        }
      }
    }

    // krealloc of buffer k, exactly when its kmalloc and its kfree may be called.
    method DoRealloc(k: nat, size: Word) returns (ghost pages: seq<nat>, ghost i: nat, ghost j: nat, ghost b: L.Blk)
      requires Valid() && k < |client.ptrs| && size + 7 < TWO64
      modifies this, client, kernel.heap, kernel.heap.mem
      modifies kernel.heap.pmm`freePages, kernel.heap.pmm`log, kernel.heap.pmm.bitmap
      ensures Valid() && Frames() == old(Frames()) && spaces == old(spaces)
      ensures Realloced(old(Now()), Now(), k, size, pages, i, j, b)
    {
      hide K.KernelHeap.Valid, K.KernelHeap.Sound, V.AddressSpaces.Valid, P.Allocator.Valid;
      hide Valid, N.Kernel.Valid, R.Client.Valid, V.AddressSpaces.Running, P.Allocator.Free, P.Allocator.Available;
      hide G.Lists, N.SnugCall, K.KernelHeap.Counts, Callable, R.Holding, R.Pointing, R.Admitted, R.Intact;
      hide A.Disjoint, L.Canonical, G.Framed, Resizable, Resized, R.Client.Repointed, H.Ptr, Frames;
      Parts();
      pages := G.Enumerate(kernel.heap.pmm.Available());
      i := client.Find(k);
      j, b := 0, L.Blk(0, 0, false);
      var ok := MayResize(k, size, i, pages);
      if ok {
        var moved;
        ghost var us;
        moved, us, j, b := Resize(k, size, i, pages);
        client.ptrs, client.held := client.Repointed(k, size, moved), us;
        Whole();
      }
    }

    method Resize(k: nat, size: Word, ghost i: nat, ghost pages: seq<nat>)
      returns (moved: nat, ghost us: seq<R.Buffer>, ghost j: nat, ghost b: L.Blk)
      requires Valid() && k < |client.ptrs| && k < |client.held| && G.Lists(pages, kernel.heap.pmm.Available())
      requires i < |kernel.heap.bs| && kernel.heap.bs[i] == client.held[k].blk && kernel.heap.bs[i].used
      requires client.ptrs[k] == H.Ptr(kernel.heap.hhdm, kernel.heap.bs[i].at + 4) != 0
      requires |client.held[k].data| == kernel.heap.bs[i].words && size + 7 < TWO64
      requires Resizable(Now(), k, size, pages, i)
      modifies this`base, kernel.heap, kernel.heap.mem
      modifies kernel.heap.pmm`freePages, kernel.heap.pmm`log, kernel.heap.pmm.bitmap
      ensures kernel.Valid() && kernel.spaces.Running(tab0, base, m0, spaces, roots) && tab0.Keys !! base
      ensures Frames() == old(Frames())
      ensures R.Holding(kernel.heap.M(), kernel.heap.bs, us)
      ensures R.Pointing(kernel.heap.hhdm, client.Repointed(k, size, moved), us)
      ensures Resized(old(Now()), Now().(held := us), k, size, pages, i, j, b)
    {
      hide K.KernelHeap.Valid, K.KernelHeap.Sound, V.AddressSpaces.Valid, P.Allocator.Valid;
      hide Valid, N.Kernel.Valid, R.Client.Valid, V.AddressSpaces.Running, P.Allocator.Free, Enlarged;
      hide G.Lists, N.SnugCall, K.KernelHeap.Counts, Callable, R.Holding, R.Pointing, R.Admitted, R.Intact;
      hide A.Disjoint, L.Canonical, G.Framed, K.Served, K.TakenFor, K.Used, E.SameTables, E.SameTranslations;
      hide L.Live, Account, H.Ptr, G.Snug, N.SnugMove, L.Release, B.SurvivorsKept, B.Copied, K.KernelHeap.MovedTo;
      Parts();
      ghost var s, grows := Now(), 8 * kernel.heap.bs[i].words < size;
      ghost var m1, free1, owned1 := kernel.spaces.M(), kernel.heap.pmm.Free(), kernel.heap.owned;
      AccountNow();
      CallFacts(size, pages);
      us, b := client.held, L.Blk(0, 0, false);
      moved, j := kernel.Krealloc(client.ptrs[k], size, i, pages);
      if grows {
        if K.Served(s.bs, size, pages).payload.Some? {
          kernel.heap.MovedFacts(s.mem, K.Served(s.bs, size, pages), s.bs[i], j, size);
        }
        us, b := EnlargedIs(s, kernel.heap.M(), kernel.heap.bs, kernel.heap.mem.Length, k, size, pages, j,
                            kernel.heap.pmm.Available(), kernel.heap.hhdm, client.ptrs, moved);
        base := StillRunning(m1, free1, owned1, pages, K.Served(s.bs, size, pages));
      } else {
        NoneUsed(pages, s.bs, kernel.heap.owned, kernel.heap.pmm.Free());
        base := StillRunning(m1, free1, owned1, pages, L.Result(s.bs, None, pages));
        if size == 0 {
          R.Removed(s.mem, kernel.heap.M(), s.bs, i, s.held, k);
          R.PointingLess(kernel.heap.hhdm, client.ptrs, s.held, k);
          us := R.Without(s.held, k);
        } else {
          assert client.ptrs[k := client.ptrs[k]] == client.ptrs;
        }
      }
    }

    // The client's own write: no table and no other buffer sees it.
    method DoPoke(k: nat, off: nat, v: Word)
      requires Valid() && k < |client.ptrs|
      modifies this, client, kernel.heap.mem
      ensures Valid() && Frames() == old(Frames()) && spaces == old(spaces)
      ensures k < |old(client.held)| && Poked(old(Now()), Now(), k, off, v)
    {
      hide K.KernelHeap.Valid, K.KernelHeap.Sound, V.AddressSpaces.Valid, P.Allocator.Valid;
      hide Valid, N.Kernel.Valid, R.Client.Valid, V.AddressSpaces.Running, P.Allocator.Free, P.Allocator.Available;
      hide R.Holding, R.Pointing, E.SameTranslations, K.TakenFor, K.Used, T.Shape, Based, Account;
      Parts();
      var words := client.Capacity(k);
      if off >= words {
        return;
      }
      ghost var m1, free1, owned1 := kernel.spaces.M(), kernel.heap.pmm.Free(), kernel.heap.owned;
      AccountNow();
      TableFacts();
      client.DoPoke(k, off, v);
      ghost var bs := kernel.heap.bs;
      ghost var i :| && 0 <= i < |bs| && bs[i].at + 4 + off < |m1| && off < bs[i].words
                     && kernel.heap.M() == m1[bs[i].at + 4 + off := v];
      Rewritten(m1, i, off, v);
      NoneUsed([], bs, kernel.heap.owned, kernel.heap.pmm.Free());
      base := StillRunning(m1, free1, owned1, [], L.Result(bs, None, []));
      ClientParts();
      Whole();
    }

    // What kernel.Valid says of everything but the words in memory.
    ghost predicate Based()
      reads kernel, kernel.spaces, kernel.heap, kernel.spaces.pmm, kernel.spaces.pmm.bitmap
    {
      var sp, hp := kernel.spaces, kernel.heap;
      && sp.pmm.Valid() && (sp.mem as object) != (sp.pmm.bitmap as object?)
      && sp.mem.Length == 512 * sp.pmm.total && sp.DirectMapOk() && sp.tab.Keys !! sp.pmm.Free()
      && (sp.kernelPagemap != 0 ==>
            sp.kernelPagemap > sp.hhdm && sp.kernelPagemap % 0x1000 == 0 && T.IsRoot(sp.tab, sp.KernelRoot()))
      && sp.pmm == hp.pmm && sp.mem == hp.mem && sp.hhdm == hp.hhdm
      && G.Exact(hp.bs, hp.owned) && hp.owned !! sp.tab.Keys
    }

    lemma TableFacts()
      requires kernel.Valid()
      ensures Based() && T.Shape(kernel.spaces.M(), kernel.spaces.tab, kernel.spaces.KernelRoot())
      ensures (kernel.heap.mem as object) != (kernel.spaces.pmm.bitmap as object?)
    {
      hide T.Shape, G.Exact, K.KernelHeap.Valid, P.Allocator.Valid, P.Allocator.Free;
    }

    // No table changes when a word of a block does.
    lemma Rewritten(m1: T.Mem, i: nat, off: nat, v: Word)
      requires Based() && T.Shape(m1, kernel.spaces.tab, kernel.spaces.KernelRoot()) && kernel.heap.Valid()
      requires i < |kernel.heap.bs| && off < kernel.heap.bs[i].words && kernel.heap.bs[i].at + 4 + off < |m1|
      requires kernel.heap.M() == m1[kernel.heap.bs[i].at + 4 + off := v]
      ensures kernel.Valid() && E.SameTranslations(m1, kernel.spaces.M(), kernel.spaces.tab)
    {
      hide T.Shape, E.SameTranslations, E.SameTables, G.Exact, K.KernelHeap.Valid, P.Allocator.Valid, P.Allocator.Free;
      hide N.Inside;
      BlockWord(m1, kernel.spaces.M(), kernel.heap.bs, kernel.heap.owned, i, off, v);
      N.TablesUntouched(m1, kernel.spaces.M(), kernel.spaces.tab, kernel.spaces.KernelRoot(), kernel.heap.owned);
    }

    lemma ClientParts()
      requires client.Valid()
      ensures R.Holding(client.heap.M(), client.heap.bs, client.held)
      ensures R.Pointing(client.heap.hhdm, client.ptrs, client.held)
    {
      hide R.Holding, R.Pointing, K.KernelHeap.Sound;
    }

    // With no space open the tables are those of the start.
    lemma Closed()
      requires Valid() && spaces == {}
      ensures kernel.spaces.tab == tab0 && E.SameTranslations(m0, kernel.spaces.M(), tab0)
      ensures tab0.Keys !! kernel.heap.pmm.Free() && tab0.Keys !! kernel.heap.owned
    {
      hide T.Shape, S.OpenSpaces, S.Conserved, E.SameTranslations, P.Allocator.Valid, P.Allocator.Free, S.Handles;
      hide G.Exact, K.KernelHeap.Valid, R.Holding, R.Pointing, V.AddressSpaces.Running, S.Extends;
      RunningFacts();
      S.NoHandles(roots, kernel.spaces.hhdm);
      S.OpenLast(tab0, base, kernel.spaces.tab, kernel.spaces.pmm.Free(), kernel.spaces.KernelRoot());
    }

    // One call; a heap call that would leave the heap's own frames is not made.
    method Perform(call: Call)
      requires Valid() && call.Lower()
      modifies this, client, kernel.heap, kernel.heap.mem, kernel.spaces`tab
      modifies kernel.heap.pmm`freePages, kernel.heap.pmm`log, kernel.heap.pmm.bitmap
      ensures Valid() && Frames() == old(Frames()) && Did(call, old(Now()), Now())
    {
      hide G.Exact, R.Holding, K.KernelHeap.Valid, K.KernelHeap.Sound, V.AddressSpaces.Running, V.AddressSpaces.Valid;
      hide P.Allocator.Free, P.Allocator.Available, P.Allocator.Valid, N.Kernel.Valid;
      hide Malloced, Calloced, Realloced, Freed, Poked, R.Times;
      match call {
        case Space(op) => DoSpace(op);
        case Malloc(size) =>
          ghost var ps, b := DoMalloc(size);
        case Calloc(num, size) =>
          TimesIs(num, size);
          if num * size + 7 < TWO64 || TWO64 <= num * size {
            ghost var ps, b := DoCalloc(num, size);
          }
        case Realloc(k, size) =>
          if k < |client.ptrs| && size + 7 < TWO64 {
            ghost var ps, i, j, b := DoRealloc(k, size);
          }
        case Free(k) =>
          if k < |client.ptrs| {
            ghost var i := DoFree(k);
          }
        case Poke(k, off, v) =>
          if k < |client.ptrs| {
            DoPoke(k, off, v);
          }
      }
    }

    // Any such calls, and then the spaces still open destroyed: each call did
    // what it says, the tables are those of the start, no older space ever saw a
    // change, every buffer still held reads what was last written there, and each
    // frame is free, the heap's or a table's as often as before.
    method Run(calls: seq<Call>) returns (ghost trace: seq<View>)
      requires Valid() && forall n :: 0 <= n < |calls| ==> calls[n].Lower()
      modifies this, client, kernel.heap, kernel.heap.mem, kernel.spaces`tab
      modifies kernel.heap.pmm`freePages, kernel.heap.pmm`log, kernel.heap.pmm.bitmap
      ensures Valid() && spaces == {} && kernel.spaces.tab == tab0
      ensures E.SameTranslations(m0, kernel.spaces.M(), tab0)
      ensures Traced(calls, trace) && trace[0] == old(Now())
      ensures kernel.heap.bs == trace[|calls|].bs && client.held == trace[|calls|].held
      ensures Frames() == old(Frames())
      ensures old(spaces) == {} ==>
                kernel.heap.pmm.Free() + kernel.heap.owned == old(kernel.heap.pmm.Free() + kernel.heap.owned)
    {
      hide Valid, P.Allocator.Free, P.Allocator.Available, Did;
      ghost var free, owned := kernel.heap.pmm.Free(), kernel.heap.owned;
      trace := [Now()];
      if spaces == {} {
        Closed();
      }
      for n := 0 to |calls|
        invariant Valid() && Frames() == old(Frames())
        invariant Traced(calls[..n], trace) && trace[0] == old(Now()) && trace[n] == Now()
      {
        Perform(calls[n]);
        TraceMore(calls, n, trace, Now());
        trace := trace + [Now()];
      }
      assert calls[..|calls|] == calls;
      while spaces != {}
        invariant Valid() && Frames() == old(Frames())
        invariant kernel.heap.bs == trace[|calls|].bs && client.held == trace[|calls|].held
        decreases |spaces|
      {
        var pm :| pm in spaces;
        ghost var s := Now();
        DoSpace(S.Destroy(pm));
        SpaceOnly(S.Destroy(pm), s, Now());
      }
      Closed();
      if old(spaces) == {} {
        SameFrames(free, owned, kernel.heap.pmm.Free(), kernel.heap.owned, tab0);
      }
    }
  }
}
