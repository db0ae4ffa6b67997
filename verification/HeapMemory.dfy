// How the block list is laid out in memory: each header holds, in its four
// words, the size in bytes, the used byte with the magic number above it, and
// the pointers to the next and previous header.

module HeapMemory {
  import opened Machine
  import opened HeapApart
  import opened HeapList
  import opened HeapPages

  const HEAP_MAGIC: nat := 0xDEAD_C0DE
  const HEAP_FREED: nat := 0xFEEF_EEFE

  type Mem = seq<Word>

  // The address of word number at, through the direct map.
  function Ptr(hhdm: nat, at: nat): nat { hhdm + 8 * at }

  // The second header word: used in byte 0, magic in bytes 4 to 7.
  function WithUsed(w: Word, used: bool): Word { w - w % 256 + if used then 1 else 0 }

  function WithMagic(w: Word, magic: nat): Word
    requires magic < 0x1_0000_0000
  {
    w % 0x1_0000_0000 + magic * 0x1_0000_0000
  }

  predicate IsUsed(w: Word) { w % 256 != 0 }

  function Magic(w: Word): nat { w / 0x1_0000_0000 }

  lemma MetaLaws(w: Word, used: bool, magic: nat)
    requires magic < 0x1_0000_0000
    ensures IsUsed(WithUsed(w, used)) == used && Magic(WithUsed(w, used)) == Magic(w)
    ensures IsUsed(WithMagic(w, magic)) == IsUsed(w) && Magic(WithMagic(w, magic)) == magic
  {
    var hi, lo := w / 0x1_0000_0000, w % 0x1_0000_0000;
    var mid, byte := lo / 256, lo % 256;
    var bit := if used then 1 else 0;
    Quotient(w, 256, 0x100_0000 * hi + mid, byte);
    Quotient(WithUsed(w, used), 256, 0x100_0000 * hi + mid, bit);
    Quotient(WithUsed(w, used), 0x1_0000_0000, hi, 256 * mid + bit);
    Quotient(WithMagic(w, magic), 256, 0x100_0000 * magic + mid, byte);
    Quotient(WithMagic(w, magic), 0x1_0000_0000, magic, lo);
  }

  function At(m: Mem, k: nat): Word {
    if k < |m| then m[k] else 0
  }

  predicate Meta(w: nat, used: bool) {
    w < TWO64 && IsUsed(w) == used && Magic(w) == HEAP_MAGIC
  }

  // Block b is described by its header.
  predicate Node(m: Mem, b: Blk, next: nat, prev: nat) {
    && At(m, b.at) == 8 * b.words && Meta(At(m, b.at + 1), b.used)
    && At(m, b.at + 2) == next && At(m, b.at + 3) == prev
  }

  function Next(hhdm: nat, bs: seq<Blk>, i: nat): nat
    requires i < |bs|
  {
    if i + 1 < |bs| then Ptr(hhdm, bs[i + 1].at) else 0
  }

  function Prev(hhdm: nat, bs: seq<Blk>, i: nat): nat
    requires i < |bs|
  {
    if i > 0 then Ptr(hhdm, bs[i - 1].at) else 0
  }

  predicate Described(m: Mem, hhdm: nat, bs: seq<Blk>, i: nat)
    requires i < |bs|
  {
    Node(m, bs[i], Next(hhdm, bs, i), Prev(hhdm, bs, i))
  }

  // The headers in memory link up to exactly this list, both ways.
  ghost predicate Listed(m: Mem, hhdm: nat, bs: seq<Blk>) {
    forall i :: 0 <= i < |bs| ==> Described(m, hhdm, bs, i)
  }

  // m' differs from m at most in the words of s.
  ghost predicate Only(m: Mem, m': Mem, s: set<nat>) {
    |m'| == |m| && forall k: nat :: k !in s ==> At(m', k) == At(m, k)
  }

  lemma WordKept(m: Mem, m': Mem, s: set<nat>, k: nat)
    requires Only(m, m', s) && k !in s
    ensures At(m', k) == At(m, k)
  {
  }

  predicate HeaderAvoids(b: Blk, s: set<nat>) {
    b.at !in s && b.at + 1 !in s && b.at + 2 !in s && b.at + 3 !in s
  }

  lemma NodeKept(m: Mem, m': Mem, s: set<nat>, b: Blk, next: nat, prev: nat)
    requires Only(m, m', s) && HeaderAvoids(b, s)
    ensures Node(m', b, next, prev) == Node(m, b, next, prev)
  {
  }

  // The payloads of these blocks are word for word the same.
  ghost predicate PayloadsKept(m: Mem, m': Mem, ls: seq<Blk>) {
    |m'| == |m| && forall b, k: nat :: b in ls && b.at + 4 <= k < b.End() ==> At(m', k) == At(m, k)
  }

  // Word k is in the header of a block, or anywhere in a free one.
  predicate Loose(bs: seq<Blk>, i: nat, k: nat)
    requires i < |bs|
  {
    bs[i].at <= k < if bs[i].used then bs[i].at + 4 else bs[i].End()
  }

  ghost predicate AllLoose(bs: seq<Blk>, s: set<nat>) {
    forall k :: k in s ==> exists i :: 0 <= i < |bs| && Loose(bs, i, k)
  }

  // Words of headers, or inside a free block, belong to no live payload.
  lemma PayloadsUntouched(m: Mem, m': Mem, s: set<nat>, bs: seq<Blk>, hi: nat)
    requires Only(m, m', s) && Disjoint(bs, hi) && AllLoose(bs, s)
    ensures PayloadsKept(m, m', Live(bs))
  {
    hide Disjoint, At;
    forall b, k: nat | b in Live(bs) && b.at + 4 <= k < b.End()
      ensures At(m', k) == At(m, k)
    {
      LiveIsUsed(bs, b);
      var j :| 0 <= j < |bs| && bs[j] == b;
      if k in s {
        var i :| 0 <= i < |bs| && Loose(bs, i, k);
        if i != j {
          OffAt(bs, hi, i, j);
        }
        assert false;
      }
    }
  }

  lemma PayloadsTwice(m: Mem, m1: Mem, m2: Mem, ls: seq<Blk>)
    requires PayloadsKept(m, m1, ls) && PayloadsKept(m1, m2, ls)
    ensures PayloadsKept(m, m2, ls)
  {
  }

  lemma PayloadsFewer(m: Mem, m': Mem, ls: seq<Blk>, ks: seq<Blk>)
    requires PayloadsKept(m, m', ls) && forall b :: b in ks ==> b in ls
    ensures PayloadsKept(m, m', ks)
  {
  }

  // ---------- heap_split ----------

  // The words heap_split writes when it cuts block i.
  function SplitWords(bs: seq<Blk>, i: nat, words: nat): set<nat>
    requires i < |bs|
  {
    var n := bs[i].at + 4 + words;
    {bs[i].at, bs[i].at + 2, n, n + 1, n + 2, n + 3} + if i + 1 < |bs| then {bs[i + 1].at + 3} else {}
  }

  predicate SplitWritten(m': Mem, hhdm: nat, bs: seq<Blk>, i: nat, words: nat)
    requires i < |bs| && bs[i].words >= words + 5
  {
    var b := bs[i];
    var n := b.at + 4 + words;
    && At(m', b.at) == 8 * words && At(m', b.at + 2) == Ptr(hhdm, n)
    && Node(m', Blk(n, b.words - words - 4, false), Next(hhdm, bs, i), Ptr(hhdm, b.at))
    && (i + 1 < |bs| ==> At(m', bs[i + 1].at + 3) == Ptr(hhdm, n))
  }

  // The stores of heap_split, in its order.
  lemma SplitStored(m0: Mem, m1: Mem, m2: Mem, hhdm: nat, bs: seq<Blk>, i: nat, words: nat, hi: nat)
    requires Disjoint(bs, hi) && hi <= |m0| && i < |bs| && bs[i].words >= words + 5 && hhdm + 8 * |m0| <= TWO64
    requires var at, n := bs[i].at, bs[i].at + 4 + words;
             && |m1| == |m0| && at + 2 < |m1| && (i + 1 < |bs| ==> bs[i + 1].at + 3 < |m1|) && n < |m1|
             && Only(m0, m1, {n, n + 1, n + 2, n + 3})
             && Node(m1, Blk(n, bs[i].words - words - 4, false), Next(hhdm, bs, i), Ptr(hhdm, at))
             && m2 == (if i + 1 < |bs| then m1[bs[i + 1].at + 3 := Ptr(hhdm, n)] else m1)
                      [at + 2 := Ptr(hhdm, n)][at := 8 * words]
    ensures Only(m0, m2, SplitWords(bs, i, words)) && SplitWritten(m2, hhdm, bs, i, words)
  {
    hide Meta, Disjoint;
    var at, n := bs[i].at, bs[i].at + 4 + words;
    if i + 1 < |bs| {
      OffAt(bs, hi, i, i + 1);
    }
    var s := {at, at + 2} + if i + 1 < |bs| then {bs[i + 1].at + 3} else {};
    assert Only(m1, m2, s);
    NodeKept(m1, m2, s, Blk(n, bs[i].words - words - 4, false), Next(hhdm, bs, i), Ptr(hhdm, at));
  }

  // A block on either side keeps its header.
  lemma SplitAside(m: Mem, m': Mem, hhdm: nat, bs: seq<Blk>, i: nat, words: nat, hi: nat, j: nat)
    requires Disjoint(bs, hi) && i < |bs| && bs[i].words >= words + 5 && j < |bs|
    requires Only(m, m', SplitWords(bs, i, words)) && (j < i || j > i + 1)
    ensures Node(m', bs[j], Next(hhdm, bs, j), Prev(hhdm, bs, j)) ==
            Node(m, bs[j], Next(hhdm, bs, j), Prev(hhdm, bs, j))
  {
    hide Node, Disjoint, At, Next, Prev;
    OffAt(bs, hi, j, i);
    if i + 1 < |bs| {
      OffAt(bs, hi, j, i + 1);
      OffAt(bs, hi, i, i + 1);
    }
    NodeKept(m, m', SplitWords(bs, i, words), bs[j], Next(hhdm, bs, j), Prev(hhdm, bs, j));
  }

  lemma SplitAt(m: Mem, m': Mem, hhdm: nat, bs: seq<Blk>, i: nat, words: nat, hi: nat, k: nat)
    requires Disjoint(bs, hi) && Listed(m, hhdm, bs) && i < |bs| && bs[i].words >= words + 5
    requires Only(m, m', SplitWords(bs, i, words)) && SplitWritten(m', hhdm, bs, i, words)
    requires k < |Split(bs, i, words)|
    ensures Described(m', hhdm, Split(bs, i, words), k)
  {
    hide Disjoint, At, Ptr, Split, Node, SplitWritten;
    SplitElems(bs, i, words);
    var j := if k <= i then k else k - 1;
    assert Described(m, hhdm, bs, j);
    if k < i || k > i + 2 {
      SplitAside(m, m', hhdm, bs, i, words, hi, j);
    } else {
      SplitBetween(bs, i, words, hi);
      SplitNear(m, m', hhdm, bs, i, words);
    }
  }

  // The three headers the split writes to.
  lemma SplitNear(m: Mem, m': Mem, hhdm: nat, bs: seq<Blk>, i: nat, words: nat)
    requires i < |bs| && bs[i].words >= words + 5 && Listed(m, hhdm, bs)
    requires Only(m, m', SplitWords(bs, i, words)) && SplitWritten(m', hhdm, bs, i, words)
    requires bs[i].at + 1 !in SplitWords(bs, i, words) && bs[i].at + 3 !in SplitWords(bs, i, words)
    requires i + 1 < |bs| ==>
               && bs[i + 1].at !in SplitWords(bs, i, words) && bs[i + 1].at + 1 !in SplitWords(bs, i, words)
               && bs[i + 1].at + 2 !in SplitWords(bs, i, words)
    ensures var n := bs[i].at + 4 + words;
            && Node(m', bs[i].(words := words), Ptr(hhdm, n), Prev(hhdm, bs, i))
            && Node(m', Blk(n, bs[i].words - words - 4, false), Next(hhdm, bs, i), Ptr(hhdm, bs[i].at))
            && (i + 1 < |bs| ==> Node(m', bs[i + 1], Next(hhdm, bs, i + 1), Ptr(hhdm, n)))
  {
    hide Meta, SplitWords, At, Ptr, Next, Prev;
    assert Described(m, hhdm, bs, i);
    if i + 1 < |bs| {
      assert Described(m, hhdm, bs, i + 1);
    }
  }

  // The header words of block i and its neighbour that the split leaves alone.
  lemma SplitBetween(bs: seq<Blk>, i: nat, words: nat, hi: nat)
    requires Disjoint(bs, hi) && i < |bs| && bs[i].words >= words + 5
    ensures bs[i].at + 1 !in SplitWords(bs, i, words) && bs[i].at + 3 !in SplitWords(bs, i, words)
    ensures i + 1 < |bs| ==>
              && bs[i + 1].at !in SplitWords(bs, i, words) && bs[i + 1].at + 1 !in SplitWords(bs, i, words)
              && bs[i + 1].at + 2 !in SplitWords(bs, i, words)
  {
  }

  lemma SplitListed(m: Mem, m': Mem, hhdm: nat, bs: seq<Blk>, i: nat, words: nat, hi: nat)
    requires Disjoint(bs, hi) && Listed(m, hhdm, bs) && i < |bs| && bs[i].words >= words + 5
    requires Only(m, m', SplitWords(bs, i, words)) && SplitWritten(m', hhdm, bs, i, words)
    ensures Listed(m', hhdm, Split(bs, i, words))
    ensures !bs[i].used ==> AllLoose(bs, SplitWords(bs, i, words))
  {
    forall k | 0 <= k < |Split(bs, i, words)|
      ensures Described(m', hhdm, Split(bs, i, words), k)
    {
      SplitAt(m, m', hhdm, bs, i, words, hi, k);
    }
    if !bs[i].used {
      SplitLoose(bs, i, words);
    }
  }

  lemma SplitLoose(bs: seq<Blk>, i: nat, words: nat)
    requires i < |bs| && bs[i].words >= words + 5 && !bs[i].used
    ensures AllLoose(bs, SplitWords(bs, i, words))
  {
    forall k | k in SplitWords(bs, i, words)
      ensures exists j :: 0 <= j < |bs| && Loose(bs, j, k)
    {
      if i + 1 < |bs| && k == bs[i + 1].at + 3 {
        assert Loose(bs, i + 1, k);
      } else {
        assert Loose(bs, i, k);
      }
    }
  }

  // ---------- heap_coalesce ----------

  // The words written when block i swallows block i + 1.
  function MergeWords(bs: seq<Blk>, i: nat): set<nat>
    requires i + 1 < |bs|
  {
    {bs[i].at, bs[i].at + 2, bs[i + 1].at + 1} + if i + 2 < |bs| then {bs[i + 2].at + 3} else {}
  }

  predicate MergeWritten(m': Mem, hhdm: nat, bs: seq<Blk>, i: nat)
    requires i + 1 < |bs|
  {
    && At(m', bs[i].at) == 8 * (bs[i].words + 4 + bs[i + 1].words) && At(m', bs[i].at + 2) == Next(hhdm, bs, i + 1)
    && (i + 2 < |bs| ==> At(m', bs[i + 2].at + 3) == Ptr(hhdm, bs[i].at))
  }

  // The stores of either half of heap_coalesce, in its order.
  lemma MergeStored(m: Mem, m1: Mem, m2: Mem, m3: Mem, m4: Mem, hhdm: nat, bs: seq<Blk>, i: nat, hi: nat)
    requires Headed(bs, hi) && hi <= |m| && i + 1 < |bs| && hhdm + 8 * |m| <= TWO64
    requires bs[i + 1].at + 3 < |m| && bs[i].at + 3 < |m| && (i + 2 < |bs| ==> bs[i + 2].at + 3 < |m|)
    requires Next(hhdm, bs, i + 1) < TWO64 && 8 * (bs[i].words + 4 + bs[i + 1].words) < TWO64
    requires m1 == m[bs[i].at := 8 * (bs[i].words + 4 + bs[i + 1].words)]
    requires m2 == m1[bs[i].at + 2 := Next(hhdm, bs, i + 1)]
    requires i + 2 < |bs| ==> m3 == m2[bs[i + 2].at + 3 := Ptr(hhdm, bs[i].at)]
    requires i + 2 >= |bs| ==> m3 == m2
    requires m4 == m3[bs[i + 1].at + 1 := WithMagic(m3[bs[i + 1].at + 1], HEAP_FREED)]
    ensures Only(m, m4, MergeWords(bs, i)) && MergeWritten(m4, hhdm, bs, i)
  {
    hide Headed, WithMagic;
    HeadAt(bs, hi, i, i + 1);
    if i + 2 < |bs| {
      HeadAt(bs, hi, i, i + 2);
      HeadAt(bs, hi, i + 1, i + 2);
    }
  }

  lemma MergeAside(m: Mem, m': Mem, hhdm: nat, bs: seq<Blk>, i: nat, hi: nat, j: nat)
    requires Headed(bs, hi) && i + 1 < |bs| && j < |bs|
    requires Only(m, m', MergeWords(bs, i)) && (j < i || j > i + 2)
    ensures Node(m', bs[j], Next(hhdm, bs, j), Prev(hhdm, bs, j)) ==
            Node(m, bs[j], Next(hhdm, bs, j), Prev(hhdm, bs, j))
  {
    hide Node, Headed, At, Next, Prev;
    HeadAt(bs, hi, j, i);
    HeadAt(bs, hi, j, i + 1);
    if i + 2 < |bs| {
      HeadAt(bs, hi, j, i + 2);
    }
    NodeKept(m, m', MergeWords(bs, i), bs[j], Next(hhdm, bs, j), Prev(hhdm, bs, j));
  }

  lemma MergeBetween(bs: seq<Blk>, i: nat, hi: nat)
    requires Headed(bs, hi) && i + 1 < |bs|
    ensures bs[i].at + 1 !in MergeWords(bs, i) && bs[i].at + 3 !in MergeWords(bs, i)
    ensures i + 2 < |bs| ==>
              && bs[i + 2].at !in MergeWords(bs, i) && bs[i + 2].at + 1 !in MergeWords(bs, i)
              && bs[i + 2].at + 2 !in MergeWords(bs, i)
  {
    if i + 2 < |bs| {
      HeadAt(bs, hi, i, i + 2);
      HeadAt(bs, hi, i + 1, i + 2);
    }
  }

  lemma MergeAt(m: Mem, m': Mem, hhdm: nat, bs: seq<Blk>, i: nat, hi: nat, k: nat)
    requires Headed(bs, hi) && Listed(m, hhdm, bs) && i + 1 < |bs|
    requires Only(m, m', MergeWords(bs, i)) && MergeWritten(m', hhdm, bs, i)
    requires k < |Merge(bs, i)|
    ensures Described(m', hhdm, Merge(bs, i), k)
  {
    hide Meta, Headed, At, Ptr, Merge, MergeWords;
    MergeElems(bs, i);
    var j := if k <= i then k else k + 1;
    assert Described(m, hhdm, bs, j);
    if k < i || k > i + 1 {
      hide Node, MergeWritten;
      MergeAside(m, m', hhdm, bs, i, hi, j);
    } else {
      MergeBetween(bs, i, hi);
    }
  }

  lemma MergeListed(m: Mem, m': Mem, hhdm: nat, bs: seq<Blk>, i: nat, hi: nat)
    requires Headed(bs, hi) && Listed(m, hhdm, bs) && i + 1 < |bs|
    requires Only(m, m', MergeWords(bs, i)) && MergeWritten(m', hhdm, bs, i)
    ensures Listed(m', hhdm, Merge(bs, i))
    ensures AllLoose(bs, MergeWords(bs, i))
  {
    forall k | 0 <= k < |Merge(bs, i)|
      ensures Described(m', hhdm, Merge(bs, i), k)
    {
      MergeAt(m, m', hhdm, bs, i, hi, k);
    }
    forall k | k in MergeWords(bs, i)
      ensures exists j :: 0 <= j < |bs| && Loose(bs, j, k)
    {
      var j := if i + 2 < |bs| && k == bs[i + 2].at + 3 then i + 2 else if k == bs[i + 1].at + 1 then i + 1 else i;
      assert Loose(bs, j, k);
    }
  }

  // ---------- the used byte ----------

  function Marked(m: Mem, at: nat, used: bool): Mem
    requires at + 1 < |m|
  {
    m[at + 1 := WithUsed(m[at + 1], used)]
  }

  // Setting or clearing the used byte of block i.
  lemma MarkListed(m: Mem, hhdm: nat, bs: seq<Blk>, i: nat, used: bool, hi: nat)
    requires Headed(bs, hi) && hi <= |m| && Listed(m, hhdm, bs) && i < |bs| && bs[i].at + 1 < |m|
    ensures Only(m, Marked(m, bs[i].at, used), {bs[i].at + 1})
    ensures Listed(Marked(m, bs[i].at, used), hhdm, bs[i := bs[i].(used := used)])
  {
    hide IsUsed, Magic, WithUsed, Headed, Ptr;
    var m', t := Marked(m, bs[i].at, used), bs[i := bs[i].(used := used)];
    assert Described(m, hhdm, bs, i);
    MetaLaws(m[bs[i].at + 1], used, HEAP_MAGIC);
    forall k | 0 <= k < |t|
      ensures Described(m', hhdm, t, k)
    {
      assert Described(m, hhdm, bs, k);
      if k != i {
        HeadAt(bs, hi, k, i);
        NodeKept(m, m', {bs[i].at + 1}, bs[k], Next(hhdm, bs, k), Prev(hhdm, bs, k));
      }
    }
  }

  // ---------- linking a page behind the tail ----------

  predicate AppendWritten(m': Mem, hhdm: nat, last: Blk, b: Blk) {
    At(m', last.at + 2) == Ptr(hhdm, b.at) && At(m', b.at + 3) == Ptr(hhdm, last.at)
  }

  lemma AppendListed(m: Mem, m': Mem, hhdm: nat, bs: seq<Blk>, b: Blk, hi: nat)
    requires bs != [] && Headed(bs + [b], hi) && Listed(m, hhdm, bs) && Node(m, b, 0, 0)
    requires Only(m, m', {bs[|bs| - 1].at + 2, b.at + 3}) && AppendWritten(m', hhdm, bs[|bs| - 1], b)
    ensures Listed(m', hhdm, bs + [b])
  {
    hide Meta, At, Ptr;
    var n, t := |bs|, bs + [b];
    var s := {bs[|bs| - 1].at + 2, b.at + 3};
    forall k | 0 <= k < |t|
      ensures Described(m', hhdm, t, k)
    {
      if k < n {
        assert Described(m, hhdm, bs, k);
        HeadAt(t, hi, k, n);
        if k < n - 1 {
          HeadAt(t, hi, k, n - 1);
          NodeKept(m, m', s, bs[k], Next(hhdm, bs, k), Prev(hhdm, bs, k));
        }
      }
    }
  }

  // ---------- what a call may write ----------

  // The words at which headers stand.
  function Heads(bs: seq<Blk>): set<nat> {
    set b | b in bs :: b.at
  }

  predicate InHeader(hs: set<nat>, k: nat) {
    k in hs || k - 1 in hs || k - 2 in hs || k - 3 in hs
  }

  // Words outside the headers at hs are the same.
  ghost predicate HeadersOnly(m: Mem, m': Mem, hs: set<nat>) {
    |m'| == |m| && forall k: nat :: !InHeader(hs, k) ==> At(m', k) == At(m, k)
  }

  // Where the headers of the list stand before and after kmalloc, and the pages
  // it takes.
  function Touched(bs: seq<Blk>, words: nat, pages: seq<nat>): set<nat> {
    Heads(bs) + Heads(Allocate(bs, words, pages).bs) + set p | p in pages[..Taken(bs, words, pages)]
  }

  lemma HeadersFrom(m: Mem, m': Mem, s: set<nat>, hs: set<nat>)
    requires Only(m, m', s) && forall k: nat :: k in s ==> InHeader(hs, k)
    ensures HeadersOnly(m, m', hs)
  {
  }

  lemma HeadersAgain(m: Mem, m1: Mem, m2: Mem, h1: set<nat>, h2: set<nat>, hs: set<nat>)
    requires HeadersOnly(m, m1, h1) && HeadersOnly(m1, m2, h2) && h1 <= hs && h2 <= hs
    ensures HeadersOnly(m, m2, hs)
  {
    forall k: nat | !InHeader(hs, k)
      ensures At(m2, k) == At(m, k)
    {
      assert !InHeader(h1, k) && !InHeader(h2, k);
    }
  }

  // These payloads and all words outside these headers are the same.
  ghost predicate Kept(m: Mem, m': Mem, ls: seq<Blk>, hs: set<nat>) {
    PayloadsKept(m, m', ls) && HeadersOnly(m, m', hs)
  }

  lemma KeptAgain(m: Mem, m1: Mem, m2: Mem, ls: seq<Blk>, h1: set<nat>, h2: set<nat>, hs: set<nat>)
    requires Kept(m, m1, ls, h1) && Kept(m1, m2, ls, h2) && h1 <= hs && h2 <= hs
    ensures Kept(m, m2, ls, hs)
  {
    hide PayloadsKept, HeadersOnly;
    PayloadsTwice(m, m1, m2, ls);
    HeadersAgain(m, m1, m2, h1, h2, hs);
  }

  lemma NothingChanged(m: Mem, ls: seq<Blk>, hs: set<nat>)
    ensures Kept(m, m, ls, hs) && PayloadsKept(m, m, ls) && HeadersOnly(m, m, hs)
  {
  }

  // ---------- the heap as a whole ----------

  function Lo(bs: seq<Blk>): nat {
    if bs == [] then 0 else bs[0].at
  }

  // freeList heads a well-linked list, no header of which lies in another or in a
  // block handed out.
  ghost predicate Linked(m: Mem, hhdm: nat, bs: seq<Blk>, freeList: nat) {
    && hhdm + 8 * |m| <= TWO64 && (bs == [] <==> freeList == 0)
    && (bs != [] ==> freeList == Ptr(hhdm, Lo(bs))) && Listed(m, hhdm, bs) && Headed(bs, |m|)
  }

  // And no two of its blocks share a word, wherever they lie.
  ghost predicate Heaped(m: Mem, hhdm: nat, bs: seq<Blk>, freeList: nat) {
    Linked(m, hhdm, bs, freeList) && Disjoint(bs, |m|)
  }

  lemma LinkedBlock(m: Mem, hhdm: nat, bs: seq<Blk>, freeList: nat, i: nat)
    requires Linked(m, hhdm, bs, freeList) && i < |bs|
    ensures Described(m, hhdm, bs, i) && bs[i].at >= 512 && bs[i].at + 4 <= |m|
    ensures bs[i].used ==> bs[i].End() <= |m|
    ensures hhdm + 8 * |m| <= TWO64 && freeList == Ptr(hhdm, bs[0].at)
  {
  }

  lemma LinkedNext(m: Mem, hhdm: nat, bs: seq<Blk>, freeList: nat, i: nat)
    requires Linked(m, hhdm, bs, freeList) && i < |bs|
    ensures freeList == Ptr(hhdm, bs[0].at) && bs[i].at + 4 <= |m|
    ensures if i + 1 < |bs| then At(m, bs[i].at + 2) == Ptr(hhdm, bs[i + 1].at) != 0 else At(m, bs[i].at + 2) == 0
  {
    LinkedBlock(m, hhdm, bs, freeList, i);
    if i + 1 < |bs| {
      LinkedBlock(m, hhdm, bs, freeList, i + 1);
    }
  }

  lemma LinkedParts(m: Mem, hhdm: nat, bs: seq<Blk>, freeList: nat)
    requires Linked(m, hhdm, bs, freeList)
    ensures hhdm + 8 * |m| <= TWO64 && (bs == [] <==> freeList == 0) && Listed(m, hhdm, bs) && Headed(bs, |m|)
    ensures bs != [] ==> freeList == Ptr(hhdm, Lo(bs))
  {
  }

  lemma HeapedSplit(m: Mem, m': Mem, hhdm: nat, bs: seq<Blk>, freeList: nat, i: nat, words: nat)
    requires Heaped(m, hhdm, bs, freeList) && i < |bs| && bs[i].words >= words + 5
    requires Only(m, m', SplitWords(bs, i, words)) && SplitWritten(m', hhdm, bs, i, words)
    ensures Heaped(m', hhdm, Split(bs, i, words), freeList)
    ensures HeadersOnly(m, m', Heads(Split(bs, i, words)))
    ensures !bs[i].used ==> PayloadsKept(m, m', Live(bs))
  {
    hide Disjoint, Headed, Listed, SplitWritten, AllLoose, SplitWords, PayloadsKept, HeadersOnly, Live, Heads;
    SplitListed(m, m', hhdm, bs, i, words, |m|);
    PlaceDisjoint(bs, i, words, |m|);
    DisjointHeaded(Split(bs, i, words), |m|);
    SplitHeads(bs, i, words);
    HeadersFrom(m, m', SplitWords(bs, i, words), Heads(Split(bs, i, words)));
    if !bs[i].used {
      PayloadsUntouched(m, m', SplitWords(bs, i, words), bs, |m|);
    }
  }

  lemma InHeads(bs: seq<Blk>, i: nat)
    requires i < |bs|
    ensures bs[i].at in Heads(bs)
  {
  }

  lemma SplitHeads(bs: seq<Blk>, i: nat, words: nat)
    requires i < |bs| && bs[i].words >= words + 5
    ensures forall k :: k in SplitWords(bs, i, words) ==> InHeader(Heads(Split(bs, i, words)), k)
    ensures Lo(Split(bs, i, words)) == Lo(bs) && Split(bs, i, words) != []
  {
    var t := Split(bs, i, words);
    SplitElems(bs, i, words);
    hide Split, Heads;
    InHeads(t, i);
    InHeads(t, i + 1);
    if i + 1 < |bs| {
      InHeads(t, i + 2);
    }
  }

  // Writing to headers changes no payload handed out.
  lemma HeadsUntouched(m: Mem, m': Mem, s: set<nat>, bs: seq<Blk>, hi: nat)
    requires Only(m, m', s) && Headed(bs, hi) && forall k: nat :: k in s ==> InHeader(Heads(bs), k)
    ensures PayloadsKept(m, m', Live(bs)) && HeadersOnly(m, m', Heads(bs))
  {
    hide Headed, At;
    forall b, k: nat | b in Live(bs) && b.at + 4 <= k < b.End()
      ensures At(m', k) == At(m, k)
    {
      LiveIsUsed(bs, b);
      var j :| 0 <= j < |bs| && bs[j] == b;
      if InHeader(Heads(bs), k) {
        NotInHeader(bs, j, k, hi);
      }
    }
    HeadersFrom(m, m', s, Heads(bs));
  }

  lemma NotInHeader(bs: seq<Blk>, j: nat, k: nat, hi: nat)
    requires Headed(bs, hi) && j < |bs| && bs[j].used && bs[j].at + 4 <= k < bs[j].End()
    ensures !InHeader(Heads(bs), k)
  {
    hide Headed;
    forall b | b in bs
      ensures !(b.at <= k < b.at + 4)
    {
      var n :| 0 <= n < |bs| && bs[n] == b;
      if n != j {
        HeadAt(bs, hi, n, j);
      }
    }
  }

  // A merge leaves the list in memory as it should be, wherever the blocks lie.
  lemma LinkedMerge(m: Mem, m': Mem, hhdm: nat, bs: seq<Blk>, freeList: nat, i: nat)
    requires Linked(m, hhdm, bs, freeList) && i + 1 < |bs| && !bs[i].used
    requires Only(m, m', MergeWords(bs, i)) && MergeWritten(m', hhdm, bs, i)
    ensures Linked(m', hhdm, Merge(bs, i), freeList)
    ensures PayloadsKept(m, m', Live(bs)) && HeadersOnly(m, m', Heads(bs))
  {
    hide Headed, Listed, MergeWritten, MergeWords, PayloadsKept, HeadersOnly, Live, Heads;
    MergeListed(m, m', hhdm, bs, i, |m|);
    MergeHeaded(bs, i, |m|);
    MergeHeads(bs, i);
    HeadsUntouched(m, m', MergeWords(bs, i), bs, |m|);
  }

  lemma MergeHeads(bs: seq<Blk>, i: nat)
    requires i + 1 < |bs|
    ensures forall k :: k in MergeWords(bs, i) ==> InHeader(Heads(bs), k)
    ensures Heads(Merge(bs, i)) <= Heads(bs)
    ensures Lo(Merge(bs, i)) == Lo(bs) && Merge(bs, i) != []
  {
    MergeElems(bs, i);
    var t := Merge(bs, i);
    forall h | h in Heads(t)
      ensures h in Heads(bs)
    {
      var j :| 0 <= j < |t| && t[j].at == h;
      InHeads(bs, if j <= i then j else j + 1);
    }
    hide Merge, Heads;
    InHeads(bs, i);
    InHeads(bs, i + 1);
    if i + 2 < |bs| {
      InHeads(bs, i + 2);
    }
  }

  lemma MarkHeads(bs: seq<Blk>, i: nat, used: bool)
    requires i < |bs|
    ensures Heads(bs[i := bs[i].(used := used)]) == Heads(bs)
    ensures InHeader(Heads(bs), bs[i].at + 1) && Lo(bs[i := bs[i].(used := used)]) == Lo(bs)
  {
    var t := bs[i := bs[i].(used := used)];
    assert forall b :: b in t ==> b == t[i] || b in bs;
    forall h | h in Heads(bs)
      ensures h in Heads(t)
    {
      var j :| 0 <= j < |bs| && bs[j].at == h;
      InHeads(t, j);
    }
  }

  lemma SameSize(m: Mem, at: nat, used: bool)
    requires at + 1 < |m|
    ensures |Marked(m, at, used)| == |m|
  {
  }

  lemma LinkedMark(m: Mem, hhdm: nat, bs: seq<Blk>, freeList: nat, i: nat, used: bool)
    requires Linked(m, hhdm, bs, freeList) && i < |bs| && bs[i].at + 1 < |m|
    requires Headed(bs[i := bs[i].(used := used)], |m|)
    ensures Linked(Marked(m, bs[i].at, used), hhdm, bs[i := bs[i].(used := used)], freeList)
    ensures PayloadsKept(m, Marked(m, bs[i].at, used), Live(bs))
    ensures HeadersOnly(m, Marked(m, bs[i].at, used), Heads(bs))
  {
    hide Listed, Marked, PayloadsKept, HeadersOnly, Live, Headed, Only, Heads;
    var m' := Marked(m, bs[i].at, used);
    MarkListed(m, hhdm, bs, i, used, |m|);
    SameSize(m, bs[i].at, used);
    MarkHeads(bs, i, used);
    HeadsUntouched(m, m', {bs[i].at + 1}, bs, |m|);
  }

  lemma AppendStored(m: Mem, m': Mem, last: nat, at: nat, blk: Word, tail: Word)
    requires last + 2 < |m| && at + 3 < |m| && last + 2 != at + 3
    requires m' == m[last + 2 := blk][at + 3 := tail]
    ensures Only(m, m', {last + 2, at + 3}) && At(m', last + 2) == blk && At(m', at + 3) == tail
  {
  }

  lemma AppendLinks(m: Mem, hhdm: nat, last: Blk, b: Blk)
    requires At(m, last.at + 2) == Ptr(hhdm, b.at) && At(m, b.at + 3) == Ptr(hhdm, last.at)
    ensures AppendWritten(m, hhdm, last, b)
  {
  }

  lemma AppendHeads(bs: seq<Blk>, at: nat)
    requires bs != []
    ensures Heads(Appended(bs, at)) == Heads(bs) + {at} && Lo(Appended(bs, at)) == Lo(bs)
    ensures forall k :: k in {bs[|bs| - 1].at + 2, at + 3} ==> InHeader(Heads(Appended(bs, at)), k)
    ensures Appended(bs, at) == bs + [Blk(at, 508, false)] && Appended(bs, at) != []
  {
    var t := Appended(bs, at);
    assert t[|bs|].at == at;
    assert forall i :: 0 <= i < |bs| ==> t[i] == bs[i];
    InHeads(bs, |bs| - 1);
  }

  // A page that meets no block, linked behind the tail.
  lemma LinkedAppend(m: Mem, m': Mem, hhdm: nat, bs: seq<Blk>, freeList: nat, at: nat)
    requires bs != [] && Linked(m, hhdm, bs, freeList) && Headed(Appended(bs, at), |m|)
    requires Node(m, Blk(at, 508, false), 0, 0)
    requires Only(m, m', {bs[|bs| - 1].at + 2, at + 3})
    requires AppendWritten(m', hhdm, bs[|bs| - 1], Blk(at, 508, false))
    ensures Linked(m', hhdm, Appended(bs, at), freeList)
    ensures PayloadsKept(m, m', Live(bs)) && HeadersOnly(m, m', Heads(bs) + {at})
  {
    hide Listed, PayloadsKept, HeadersOnly, Live, AppendWritten, Node, Headed, Appended, Heads;
    AppendHeads(bs, at);
    AppendListed(m, m', hhdm, bs, Blk(at, 508, false), |m|);
    AppendedLive(bs, at);
    HeadsUntouched(m, m', {bs[|bs| - 1].at + 2, at + 3}, Appended(bs, at), |m|);
  }

  // The first page of the heap.
  lemma HeapedFirst(m: Mem, hhdm: nat, at: nat)
    requires hhdm + 8 * |m| <= TWO64 && at >= 512 && at + 512 <= |m|
    requires Node(m, Blk(at, 508, false), 0, 0)
    ensures Heaped(m, hhdm, [Blk(at, 508, false)], Ptr(hhdm, at))
  {
    hide Meta;
  }

  // Words in no block of the heap do not matter to it.
  lemma LinkedOutside(m: Mem, m': Mem, s: set<nat>, hhdm: nat, bs: seq<Blk>, freeList: nat)
    requires Linked(m, hhdm, bs, freeList) && Only(m, m', s)
    requires forall k :: k in s ==> !InBlocks(bs, k)
    ensures Linked(m', hhdm, bs, freeList)
    ensures PayloadsKept(m, m', Live(bs))
  {
    hide Node, Headed, Next, Prev;
    forall i | 0 <= i < |bs|
      ensures Described(m', hhdm, bs, i)
    {
      LinkedBlock(m, hhdm, bs, freeList, i);
      forall k | bs[i].at <= k < bs[i].at + 4
        ensures k !in s
      {
        assert Spans(bs[i], k);
      }
      NodeKept(m, m', s, bs[i], Next(hhdm, bs, i), Prev(hhdm, bs, i));
    }
    forall b, k: nat | b in Live(bs) && b.at + 4 <= k < b.End()
      ensures At(m', k) == At(m, k)
    {
      LiveIsUsed(bs, b);
      var j :| 0 <= j < |bs| && bs[j] == b;
      assert Spans(bs[j], k);
    }
  }

  // A fresh page's words are in no block.
  lemma FreshWords(bs: seq<Blk>, at: nat, k: nat)
    requires Fresh(bs, at) && at <= k < at + 512
    ensures !InBlocks(bs, k)
  {
    forall i | 0 <= i < |bs|
      ensures !Spans(bs[i], k)
    {
      assert bs[i] in bs;
    }
  }

  // ---------- a frame that lies under a block ----------

  // The header of a page dressed at that word leaves the header of b readable.
  // A block of no words shows only a size of 0 to the page's last word.
  predicate Clear(b: Blk, at: nat) {
    b.at + 4 <= at || at + 4 <= b.at || (b.at == at + 3 && b.words == 0)
  }

  // heap_new_page does not look where its frame lies: dressing it keeps the list
  // readable exactly when it meets no header of the list.
  lemma DressExact(m: Mem, m': Mem, hhdm: nat, bs: seq<Blk>, freeList: nat, at: nat)
    requires Linked(m, hhdm, bs, freeList) && bs != [Blk(at, 508, false)]
    requires Only(m, m', {at, at + 1, at + 2, at + 3}) && Node(m', Blk(at, 508, false), 0, 0)
    ensures Linked(m', hhdm, bs, freeList) <==> forall i :: 0 <= i < |bs| ==> Clear(bs[i], at)
  {
    hide Headed, Meta;
    forall i | 0 <= i < |bs|
      ensures Described(m', hhdm, bs, i) <==> Clear(bs[i], at)
    {
      DressOne(m, m', hhdm, bs, freeList, at, i);
    }
  }

  lemma DressOne(m: Mem, m': Mem, hhdm: nat, bs: seq<Blk>, freeList: nat, at: nat, i: nat)
    requires Linked(m, hhdm, bs, freeList) && bs != [Blk(at, 508, false)] && i < |bs|
    requires Only(m, m', {at, at + 1, at + 2, at + 3}) && Node(m', Blk(at, 508, false), 0, 0)
    ensures Described(m', hhdm, bs, i) <==> Clear(bs[i], at)
  {
    hide Linked, Only, Next, Prev, Meta, At;
    var b, next, prev := bs[i], Next(hhdm, bs, i), Prev(hhdm, bs, i);
    LinkedBlock(m, hhdm, bs, freeList, i);
    if i > 0 {
      LinkedBlock(m, hhdm, bs, freeList, i - 1);
    }
    if i + 1 < |bs| {
      LinkedBlock(m, hhdm, bs, freeList, i + 1);
    }
    if b.at + 4 <= at || at + 4 <= b.at {
      NodeKept(m, m', {at, at + 1, at + 2, at + 3}, b, next, prev);
    } else {
      Alone(m', hhdm, bs, i, at);
      if b.at != at {
        DressNode(m, m', b, next, prev, at);
      }
    }
  }

  // Only a block without neighbours has the header of a fresh page.
  lemma Alone(m: Mem, hhdm: nat, bs: seq<Blk>, i: nat, at: nat)
    requires i < |bs| && bs != [Blk(at, 508, false)] && Node(m, Blk(at, 508, false), 0, 0)
    requires i + 1 < |bs| ==> bs[i + 1].at >= 512
    requires i > 0 ==> bs[i - 1].at >= 512
    ensures bs[i].at == at ==> !Described(m, hhdm, bs, i)
    ensures Next(hhdm, bs, i) == 0 || Next(hhdm, bs, i) >= 4096
    ensures Prev(hhdm, bs, i) == 0 || Prev(hhdm, bs, i) >= 4096
  {
    if |bs| == 1 {
      assert bs == [bs[0]];
    }
  }

  lemma DressNode(m: Mem, m': Mem, b: Blk, next: nat, prev: nat, at: nat)
    requires Node(m, b, next, prev) && Only(m, m', {at, at + 1, at + 2, at + 3})
    requires Node(m', Blk(at, 508, false), 0, 0) && at - 4 < b.at < at + 4 && b.at != at
    requires (next == 0 || next >= 4096) && (prev == 0 || prev >= 4096)
    ensures Node(m', b, next, prev) <==> Clear(b, at)
  {
    if b.at == at + 3 {
      WordKept(m, m', {at, at + 1, at + 2, at + 3}, b.at + 1);
      WordKept(m, m', {at, at + 1, at + 2, at + 3}, b.at + 2);
      WordKept(m, m', {at, at + 1, at + 2, at + 3}, b.at + 3);
    }
  }

  // The list that frames 256 and 258 left has a header in frame 257. When that
  // frame is available again, a request for 507 words takes it, and no memory
  // then holds both the fresh header and the one that was there.
  lemma OverlapWitness(m: Mem, next: nat, prev: nat)
    ensures var across := [Blk(131072, 2, true), Blk(131078, 504, true), Blk(131586, 506, false)];
            && Taken(across, 507, [512 * 257]) == 1 && !Fresh(across, 512 * 257)
            && !Clear(across[2], 512 * 257)
            && (Node(m, Blk(512 * 257, 508, false), 0, 0) ==> !Node(m, across[2], next, prev))
  {
    var a, b, c := Blk(131072, 2, true), Blk(131078, 504, true), Blk(131586, 506, false);
    var across := [a, b, c];
    assert across[1..] == [b, c];
    assert c in across && !Off(c, Blk(512 * 257, 508, false));
    TwoFit(b, c, 507);
    TakenIs(across, 507, [512 * 257]);
  }
}
