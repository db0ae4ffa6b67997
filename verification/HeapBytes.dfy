// Bytes inside the words of memory, for the byte loops of memset and memcpy.

module HeapBytes {
  import opened Machine
  import opened HeapApart
  import opened HeapList
  import opened HeapMemory

  type Byte = b: nat | b < 256

  function ByteOf(w: nat, j: nat): Byte {
    if j == 0 then w % 256 else ByteOf(w / 256, j - 1)
  }

  function WithByte(w: nat, j: nat, v: Byte): nat {
    if j == 0 then w - w % 256 + v else 256 * WithByte(w / 256, j - 1, v) + w % 256
  }

  function Pow256(n: nat): nat {
    if n == 0 then 1 else 256 * Pow256(n - 1)
  }

  // Storing one byte of a word changes that byte and no other.
  lemma {:induction false} ByteLaw(w: nat, j: nat, k: nat, v: Byte)
    ensures ByteOf(WithByte(w, j, v), k) == if k == j then v else ByteOf(w, k)
    decreases j
  {
    var w' := WithByte(w, j, v);
    if j == 0 {
      Quotient(w', 256, w / 256, v);
    } else {
      Quotient(w', 256, WithByte(w / 256, j - 1, v), w % 256);
      if k > 0 {
        ByteLaw(w / 256, j - 1, k - 1, v);
      }
    }
  }

  lemma {:induction false} WithByteFits(w: nat, j: nat, v: Byte, n: nat)
    requires w < Pow256(n) && j < n
    ensures WithByte(w, j, v) < Pow256(n)
    decreases j
  {
    if j == 0 {
      Scale(256, Pow256(n - 1) - w / 256);
    } else {
      WithByteFits(w / 256, j - 1, v, n - 1);
    }
  }

  lemma EightBytes(w: Word, j: nat, v: Byte)
    requires j < 8
    ensures WithByte(w, j, v) < TWO64
  {
    assert Pow256(4) == 0x1_0000_0000;
    assert Pow256(8) == TWO64;
    WithByteFits(w, j, v, 8);
  }

  // Two words with the same bytes are the same word.
  lemma {:induction false} BytesDetermine(w: nat, u: nat, n: nat)
    requires w < Pow256(n) && u < Pow256(n) && forall j :: 0 <= j < n ==> ByteOf(w, j) == ByteOf(u, j)
    ensures w == u
    decreases n
  {
    if n > 0 {
      forall j | 0 <= j < n - 1
        ensures ByteOf(w / 256, j) == ByteOf(u / 256, j)
      {
        assert ByteOf(w, j + 1) == ByteOf(u, j + 1);
      }
      assert ByteOf(w, 0) == ByteOf(u, 0);
      BytesDetermine(w / 256, u / 256, n - 1);
    }
  }

  // The byte at byte position p of memory.
  function ByteAt(m: Mem, p: nat): Byte {
    ByteOf(At(m, p / 8), p % 8)
  }

  // The k-th byte from word at on.
  function ByteFrom(m: Mem, at: nat, k: nat): Byte {
    ByteAt(m, 8 * at + k)
  }

  lemma ByteStored(m: Mem, p: nat, v: Byte, q: nat)
    requires p / 8 < |m|
    ensures WithByte(m[p / 8], p % 8, v) < TWO64
    ensures ByteAt(m[p / 8 := WithByte(m[p / 8], p % 8, v)], q) == if q == p then v else ByteAt(m, q)
  {
    EightBytes(m[p / 8], p % 8, v);
    ByteLaw(m[p / 8], p % 8, q % 8, v);
    assert q == p <==> q / 8 == p / 8 && q % 8 == p % 8;
  }

  // m' differs from m at most in the words from d to d + words.
  ghost predicate Within(m: Mem, m': Mem, d: nat, words: nat) {
    |m'| == |m| && forall k: nat :: k < d || d + words <= k ==> At(m', k) == At(m, k)
  }

  // Bytes equal to those of m at s, n of them.
  ghost predicate Copied(m: Mem, m': Mem, s: nat, d: nat, n: nat) {
    forall k :: 0 <= k < n ==> ByteFrom(m', d, k) == ByteFrom(m, s, k)
  }

  ghost predicate Zeroed(m: Mem, d: nat, n: nat) {
    forall k :: 0 <= k < n ==> ByteFrom(m, d, k) == 0
  }

  // A block whose payload words are the same has the same bytes.
  lemma SameBytes(m: Mem, m': Mem, b: Blk, ls: seq<Blk>, p: nat)
    requires PayloadsKept(m, m', ls) && b in ls && 8 * (b.at + 4) <= p < 8 * b.End()
    ensures ByteAt(m', p) == ByteAt(m, p)
  {
    assert b.at + 4 <= p / 8 < b.End();
  }

  lemma CopySurvives(m: Mem, m1: Mem, m2: Mem, s: nat, b: Blk, n: nat, ls: seq<Blk>)
    requires Copied(m, m1, s, b.at + 4, n) && PayloadsKept(m1, m2, ls) && b in ls && n <= 8 * b.words
    ensures Copied(m, m2, s, b.at + 4, n)
  {
    hide ByteAt, PayloadsKept;
    forall k | 0 <= k < n
      ensures ByteFrom(m2, b.at + 4, k) == ByteFrom(m, s, k)
    {
      SameBytes(m1, m2, b, ls, 8 * (b.at + 4) + k);
    }
  }

  lemma CopyFrom(m: Mem, m1: Mem, m2: Mem, b: Blk, d: nat, ls: seq<Blk>)
    requires PayloadsKept(m, m1, ls) && b in ls && Copied(m1, m2, b.at + 4, d, 8 * b.words)
    ensures Copied(m, m2, b.at + 4, d, 8 * b.words)
  {
    hide ByteAt, PayloadsKept;
    forall k | 0 <= k < 8 * b.words
      ensures ByteFrom(m2, d, k) == ByteFrom(m, b.at + 4, k)
    {
      SameBytes(m, m1, b, ls, 8 * (b.at + 4) + k);
      assert ByteFrom(m2, d, k) == ByteFrom(m1, b.at + 4, k);
    }
  }

  // The payloads of the blocks that are in both lists are the same.
  ghost predicate SurvivorsKept(m: Mem, m': Mem, ls: seq<Blk>, ks: seq<Blk>) {
    forall b, k: nat :: b in ls && b in ks && b.at + 4 <= k < b.End() ==> At(m', k) == At(m, k)
  }

  lemma SurvivorsOf(m: Mem, m': Mem, ls: seq<Blk>, ks: seq<Blk>, js: seq<Blk>)
    requires PayloadsKept(m, m', js) && (js == ls || js == ks)
    ensures SurvivorsKept(m, m', ls, ks)
  {
  }

  lemma SurvivorsTwice(m: Mem, m1: Mem, m2: Mem, ls: seq<Blk>, ks: seq<Blk>)
    requires PayloadsKept(m, m1, ls) && PayloadsKept(m1, m2, ks)
    ensures SurvivorsKept(m, m2, ls, ks)
  {
  }

  // Writing inside one payload that is handed out disturbs neither the list nor
  // another such payload.
  lemma LinkedInside(m: Mem, m': Mem, hhdm: nat, bs: seq<Blk>, freeList: nat, i: nat, words: nat)
    requires Linked(m, hhdm, bs, freeList) && i < |bs| && bs[i].used && words <= bs[i].words
    requires Within(m, m', bs[i].at + 4, words)
    ensures Linked(m', hhdm, bs, freeList)
    ensures forall ls: seq<Blk> ::
              (forall b :: b in ls ==> b in bs && b.used && b != bs[i]) ==> PayloadsKept(m, m', ls)
  {
    hide Node, Headed, Next, Prev;
    LinkedParts(m, hhdm, bs, freeList);
    forall j | 0 <= j < |bs|
      ensures Described(m', hhdm, bs, j)
    {
      LinkedBlock(m, hhdm, bs, freeList, j);
      if j != i {
        HeadAt(bs, |m|, i, j);
      }
      InsideNode(m, m', bs[i].at + 4, words, bs[j], Next(hhdm, bs, j), Prev(hhdm, bs, j));
    }
    forall ls: seq<Blk>, b, k: nat |
        (forall b :: b in ls ==> b in bs && b.used && b != bs[i]) && b in ls && b.at + 4 <= k < b.End()
      ensures At(m', k) == At(m, k)
    {
      var j :| 0 <= j < |bs| && bs[j] == b;
      HeadAt(bs, |m|, i, j);
    }
  }

  lemma InsideNode(m: Mem, m': Mem, d: nat, words: nat, b: Blk, next: nat, prev: nat)
    requires Within(m, m', d, words) && (b.at + 4 <= d || d + words <= b.at)
    ensures Node(m', b, next, prev) == Node(m, b, next, prev)
  {
  }

  // Words outside these headers and these blocks are the same.
  ghost predicate OutsideKept(m: Mem, m': Mem, hs: set<nat>, bs: seq<Blk>) {
    |m'| == |m| && forall k: nat :: !InHeader(hs, k) && !InBlocks(bs, k) ==> At(m', k) == At(m, k)
  }

  lemma OutsideHeaders(m: Mem, m': Mem, hs: set<nat>, hs': set<nat>, bs: seq<Blk>)
    requires HeadersOnly(m, m', hs) && hs <= hs'
    ensures OutsideKept(m, m', hs', bs)
  {
    forall k: nat | !InHeader(hs', k)
      ensures At(m', k) == At(m, k)
    {
      assert !InHeader(hs, k);
    }
  }

  lemma OutsideWithin(m: Mem, m': Mem, hs: set<nat>, bs: seq<Blk>, n: nat, words: nat)
    requires n < |bs| && Within(m, m', bs[n].at + 4, words) && words <= bs[n].words
    ensures OutsideKept(m, m', hs, bs)
  {
    forall k: nat | !InBlocks(bs, k)
      ensures At(m', k) == At(m, k)
    {
      assert !Spans(bs[n], k);
    }
  }

  // Headers written, then one block's payload, then headers again.
  lemma OutsideThrice(m: Mem, m1: Mem, m2: Mem, m3: Mem, hs: set<nat>, h3: set<nat>, bs: seq<Blk>, b: Blk, words: nat)
    requires HeadersOnly(m, m1, hs) && Within(m1, m2, b.at + 4, words) && HeadersOnly(m2, m3, h3)
    requires h3 <= hs && b in bs && words <= b.words
    ensures OutsideKept(m, m3, hs, bs)
  {
    hide HeadersOnly, Within, OutsideKept;
    var n :| 0 <= n < |bs| && bs[n] == b;
    OutsideHeaders(m, m1, hs, hs, bs);
    OutsideWithin(m1, m2, hs, bs, n, words);
    OutsideHeaders(m2, m3, h3, hs, bs);
    OutsideTwice(m, m1, m2, hs, bs);
    OutsideTwice(m, m2, m3, hs, bs);
  }

  lemma OutsideTwice(m: Mem, m1: Mem, m2: Mem, hs: set<nat>, bs: seq<Blk>)
    requires OutsideKept(m, m1, hs, bs) && OutsideKept(m1, m2, hs, bs)
    ensures OutsideKept(m, m2, hs, bs)
  {
  }
}
