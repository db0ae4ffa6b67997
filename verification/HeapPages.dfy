// What the heap's list does to the pages it was given: the sizes always add up,
// and the blocks stay inside their own frames exactly when no merge crosses a gap.

module HeapPages {
  import opened Machine
  import opened HeapList
  import opened HeapApart

  // ---------- sizes ----------

  lemma {:induction false} TotalOfConcat(a: seq<Blk>, b: seq<Blk>)
    ensures Total(a + b) == Total(a) + Total(b)
  {
    if a == [] {
      assert a + b == b;
    } else {
      assert (a + b)[1..] == a[1..] + b;
      TotalOfConcat(a[1..], b);
    }
  }

  lemma TotalOfThree(a: seq<Blk>, x: seq<Blk>, c: seq<Blk>)
    ensures Total(a + x + c) == Total(a) + Total(x) + Total(c)
  {
    TotalOfConcat(a + x, c);
    TotalOfConcat(a, x);
  }

  lemma TotalOne(b: Blk)
    ensures Total([b]) == 4 + b.words
  {
    assert [b][1..] == [];
  }

  lemma PlacedTotal(b: Blk, words: nat)
    ensures Total(Placed(b, words)) == 4 + b.words
  {
    var y := Placed(b, words);
    assert y == [y[0]] + y[1..];
    TotalOfConcat([y[0]], y[1..]);
    TotalOne(y[0]);
    if |y| == 2 {
      assert y[1..] == [y[1]];
      TotalOne(y[1]);
    }
  }

  lemma PlaceAround(bs: seq<Blk>, i: nat, words: nat)
    requires i < |bs|
    ensures bs == bs[..i] + [bs[i]] + bs[i + 1..]
    ensures Place(bs, i, words) == bs[..i] + Placed(bs[i], words) + bs[i + 1..]
    ensures Place(bs, i, words) != [] && Place(bs, i, words)[0].at == bs[0].at
  {
    hide Cut;
  }

  lemma PlaceTotal(bs: seq<Blk>, i: nat, words: nat)
    requires i < |bs|
    ensures Place(bs, i, words) != []
    ensures Total(Place(bs, i, words)) == Total(bs) && Place(bs, i, words)[0].at == bs[0].at
  {
    hide Total, Placed, Place;
    PlacedTotal(bs[i], words);
    TotalOne(bs[i]);
    SwapTotal(bs[..i], [bs[i]], Placed(bs[i], words), bs[i + 1..]);
    PlaceAround(bs, i, words);
  }

  lemma PairTotal(b: Blk, d: Blk)
    ensures Total([b, d]) == Total([Merged(b, d)])
  {
    assert [b, d] == [b] + [d];
    TotalOfConcat([b], [d]);
    TotalOne(b);
    TotalOne(d);
    TotalOne(Merged(b, d));
  }

  lemma SwapTotal(a: seq<Blk>, x: seq<Blk>, y: seq<Blk>, c: seq<Blk>)
    requires Total(x) == Total(y)
    ensures Total(a + x + c) == Total(a + y + c)
  {
    TotalOfThree(a, x, c);
    TotalOfThree(a, y, c);
  }

  lemma Around(bs: seq<Blk>, i: nat)
    requires i + 1 < |bs|
    ensures bs == bs[..i] + [bs[i], bs[i + 1]] + bs[i + 2..]
    ensures Merge(bs, i) == bs[..i] + [Merged(bs[i], bs[i + 1])] + bs[i + 2..]
    ensures Merge(bs, i)[0].at == bs[0].at
  {
  }

  lemma MergeTotal(bs: seq<Blk>, i: nat)
    requires i + 1 < |bs|
    ensures Total(Merge(bs, i)) == Total(bs) && Merge(bs, i)[0].at == bs[0].at
  {
    hide Total, Merge, Merged;
    PairTotal(bs[i], bs[i + 1]);
    SwapTotal(bs[..i], [bs[i], bs[i + 1]], [Merged(bs[i], bs[i + 1])], bs[i + 2..]);
    Around(bs, i);
  }

  lemma {:induction false} MergeNextsTotal(bs: seq<Blk>, i: nat)
    requires i < |bs|
    ensures Total(MergeNexts(bs, i)) == Total(bs) && MergeNexts(bs, i)[0].at == bs[0].at
    decreases |bs|
  {
    if i + 1 < |bs| && !bs[i + 1].used {
      MergeTotal(bs, i);
      MergeNextsTotal(Merge(bs, i), i);
    }
  }

  lemma CoalesceTotal(bs: seq<Blk>, i: nat)
    requires i < |bs|
    ensures Coalesce(bs, i) != []
    ensures Total(Coalesce(bs, i)) == Total(bs) && Coalesce(bs, i)[0].at == bs[0].at
  {
    hide Total, Merge;
    MergeNextsTotal(bs, i);
    if i > 0 && !bs[i - 1].used {
      MergeTotal(MergeNexts(bs, i), i - 1);
    }
  }

  lemma ReleaseTotal(bs: seq<Blk>, i: nat)
    requires i < |bs|
    ensures Release(bs, i) != []
    ensures Total(Release(bs, i)) == Total(bs) && Release(bs, i)[0].at == bs[0].at
  {
    hide Coalesce, Total, Freed;
    var d := bs[i].(used := false);
    TotalOne(bs[i]);
    TotalOne(d);
    SwapTotal(bs[..i], [bs[i]], [d], bs[i + 1..]);
    FreedAround(bs, i);
    CoalesceTotal(Freed(bs, i), i);
  }

  lemma GrowTotal(bs: seq<Blk>, at: nat)
    ensures Grow(bs, at) != [] && Total(Grow(bs, at)) == Total(bs) + 512
    ensures bs != [] ==> Grow(bs, at)[0].at == bs[0].at
  {
    hide Coalesce, Total;
    TotalOfConcat(bs, [Blk(at, 508, false)]);
    TotalOne(Blk(at, 508, false));
    CoalesceTotal(Appended(bs, at), |bs|);
  }

  // ---------- the pages at hand ----------

  // The words at which the available frames start, in ascending order.
  ghost predicate Lists(pages: seq<nat>, avail: set<nat>) {
    if pages == [] then avail == {}
    else
      && pages[0] % 512 == 0 && pages[0] / 512 in avail && (forall g :: g in avail ==> pages[0] / 512 <= g)
      && Lists(pages[1..], avail - {pages[0] / 512})
  }

  function FramesOf(pages: seq<nat>): set<nat> {
    if pages == [] then {} else {pages[0] / 512} + FramesOf(pages[1..])
  }

  // Any set of frames can be listed.
  lemma {:induction false} Enumerate(avail: set<nat>) returns (pages: seq<nat>)
    ensures Lists(pages, avail)
    decreases |avail|
  {
    if avail == {} {
      pages := [];
    } else {
      var f := Least(avail);
      var rest := Enumerate(avail - {f});
      pages := [512 * f] + rest;
      assert pages[1..] == rest && pages[0] / 512 == f;
    }
  }

  lemma {:induction false} Least(avail: set<nat>) returns (f: nat)
    requires avail != {}
    ensures f in avail && forall g :: g in avail ==> f <= g
    decreases |avail|
  {
    var x :| x in avail;
    var rest := avail - {x};
    f := x;
    if rest != {} {
      var h := Least(rest);
      f := if h < x then h else x;
    }
    forall g | g in avail
      ensures f <= g
    {
      assert g == x || g in rest;
    }
  }

  // First fit takes the first page of the list and leaves the rest of it.
  lemma FirstPage(pages: seq<nat>, avail: set<nat>)
    requires Lists(pages, avail)
    ensures pages == [] <==> avail == {}
    ensures pages != [] ==>
              && pages[0] % 512 == 0 && pages[0] / 512 in avail && (forall g :: g in avail ==> pages[0] / 512 <= g)
              && Lists(pages[1..], avail - {pages[0] / 512})
  {
  }

  // The pages come one behind the other.
  lemma SecondPage(pages: seq<nat>, avail: set<nat>)
    requires Lists(pages, avail) && |pages| >= 2
    ensures pages[1] % 512 == 0 && pages[0] + 512 <= pages[1] && pages[1] / 512 in avail
  {
    assert pages[1..][0] == pages[1];
    assert pages[1] / 512 in avail - {pages[0] / 512};
  }

  lemma OneFrame(at: nat)
    ensures FramesOf([]) == {} && FramesOf([at]) == {at / 512}
  {
    assert [at][1..] == [];
    assert FramesOf([at]) == {at / 512} + FramesOf([]);
  }

  lemma FirstFrames(pages: seq<nat>)
    ensures |pages| >= 1 ==> FramesOf(pages[..1]) == {pages[0] / 512}
    ensures |pages| >= 2 ==> FramesOf(pages[..2]) == {pages[0] / 512, pages[1] / 512}
    ensures FramesOf(pages[..0]) == {}
  {
    if |pages| >= 1 {
      OneFrame(pages[0]);
      assert pages[..1] == [pages[0]];
    }
    if |pages| >= 2 {
      OneFrame(pages[1]);
      var two := pages[..2];
      assert two[0] == pages[0] && two[1..] == [pages[1]];
      assert FramesOf(two) == {two[0] / 512} + FramesOf(two[1..]);
    }
  }

  // ---------- which words the blocks cover ----------

  // The blocks cover the heap's own frames, whole, and nothing else.
  ghost predicate Exact(bs: seq<Blk>, owned: set<nat>) {
    forall k: nat :: InBlocks(bs, k) <==> k / 512 in owned
  }

  ghost predicate SameCover(bs: seq<Blk>, t: seq<Blk>) {
    forall k: nat :: InBlocks(t, k) <==> InBlocks(bs, k)
  }

  lemma InOne(b: Blk, k: nat)
    ensures InBlocks([b], k) <==> Spans(b, k)
  {
    assert [b][0] == b;
  }

  lemma InConcat(a: seq<Blk>, b: seq<Blk>, k: nat)
    ensures InBlocks(a + b, k) <==> InBlocks(a, k) || InBlocks(b, k)
  {
    if InBlocks(a, k) {
      var i :| 0 <= i < |a| && Spans(a[i], k);
      assert (a + b)[i] == a[i];
    }
    if InBlocks(b, k) {
      var i :| 0 <= i < |b| && Spans(b[i], k);
      assert (a + b)[|a| + i] == b[i];
    }
  }

  lemma InThree(a: seq<Blk>, x: seq<Blk>, c: seq<Blk>, k: nat)
    ensures InBlocks(a + x + c, k) <==> InBlocks(a, k) || InBlocks(x, k) || InBlocks(c, k)
  {
    InConcat(a + x, c, k);
    InConcat(a, x, k);
  }

  lemma CoverSwapped(a: seq<Blk>, x: seq<Blk>, y: seq<Blk>, c: seq<Blk>)
    requires SameCover(x, y)
    ensures SameCover(a + x + c, a + y + c)
  {
    hide InBlocks;
    forall k: nat
      ensures InBlocks(a + y + c, k) <==> InBlocks(a + x + c, k)
    {
      InThree(a, x, c, k);
      InThree(a, y, c, k);
    }
  }

  // A cut covers what the whole did.
  lemma PlacedCover(b: Blk, words: nat)
    ensures SameCover([b], Placed(b, words))
  {
    var y := Placed(b, words);
    forall k: nat
      ensures InBlocks(y, k) <==> InBlocks([b], k)
    {
      InOne(b, k);
      assert y == [y[0]] + y[1..];
      InConcat([y[0]], y[1..], k);
      InOne(y[0], k);
      if |y| == 2 {
        assert y[1..] == [y[1]];
        InOne(y[1], k);
      }
    }
  }

  lemma PlaceCover(bs: seq<Blk>, i: nat, words: nat)
    requires i < |bs|
    ensures SameCover(bs, Place(bs, i, words))
  {
    hide Placed, Place, SameCover;
    PlaceAround(bs, i, words);
    PlacedCover(bs[i], words);
    CoverSwapped(bs[..i], [bs[i]], Placed(bs[i], words), bs[i + 1..]);
  }

  lemma FreedCover(bs: seq<Blk>, i: nat)
    requires i < |bs|
    ensures SameCover(bs, Freed(bs, i))
  {
    hide Freed;
    var d := bs[i].(used := false);
    FreedAround(bs, i);
    forall k: nat
      ensures InBlocks([d], k) <==> InBlocks([bs[i]], k)
    {
      InOne(d, k);
      InOne(bs[i], k);
    }
    CoverSwapped(bs[..i], [bs[i]], [d], bs[i + 1..]);
  }

  // Merging touching neighbours covers what the two did.
  lemma MergeCover(bs: seq<Blk>, i: nat)
    requires i + 1 < |bs| && bs[i + 1].at == bs[i].End()
    ensures SameCover(bs, Merge(bs, i))
  {
    hide Merge;
    var x, y := [bs[i], bs[i + 1]], [Merged(bs[i], bs[i + 1])];
    Around(bs, i);
    forall k: nat
      ensures InBlocks(y, k) <==> InBlocks(x, k)
    {
      assert x == [x[0]] + [x[1]];
      InConcat([x[0]], [x[1]], k);
      InOne(x[0], k);
      InOne(x[1], k);
      InOne(y[0], k);
    }
    CoverSwapped(bs[..i], x, y, bs[i + 2..]);
  }

  // heap_coalesce compares no addresses: a merge keeps the blocks inside the
  // heap's own frames exactly when the second block touches the first.
  lemma MergeExact(bs: seq<Blk>, i: nat, owned: set<nat>, hi: nat)
    requires i + 1 < |bs| && Disjoint(bs, hi) && Exact(bs, owned)
    ensures Exact(Merge(bs, i), owned) <==> bs[i + 1].at == bs[i].End()
  {
    OffAt(bs, hi, i, i + 1);
    if bs[i + 1].at == bs[i].End() {
      MergeCover(bs, i);
    } else {
      var k := if bs[i + 1].at < bs[i].at then bs[i + 1].at else bs[i + 1].End() - 1;
      assert Spans(bs[i + 1], k) && InBlocks(bs, k);
      MergeElems(bs, i);
      var t := Merge(bs, i);
      if InBlocks(t, k) {
        var j :| 0 <= j < |t| && Spans(t[j], k);
        if j != i {
          OffAt(bs, hi, i + 1, if j < i then j else j + 1);
        }
      }
    }
  }

  // Block i and those of its neighbours lie side by side behind the first of
  // them: each touches, or the last of three lies between the other two.
  predicate SideBySide(bs: seq<Blk>, i: nat, before: bool, behind: bool)
    requires i < |bs| && (before ==> i > 0) && (behind ==> i + 1 < |bs|)
  {
    || ((behind ==> bs[i + 1].at == bs[i].End()) && (before ==> bs[i].at == bs[i - 1].End()))
    || (before && behind && bs[i + 1].at == bs[i - 1].End() && bs[i].at == bs[i + 1].End())
  }

  // The blocks that heap_coalesce makes one of lie so.
  predicate Snug(bs: seq<Blk>, i: nat)
    requires i < |bs|
  {
    SideBySide(bs, i, FreeBefore(bs, i), FreeBehind(bs, i))
  }

  // Of the blocks it makes one of.
  predicate Partner(bs: seq<Blk>, i: nat, j: nat)
    requires i < |bs|
  {
    First(bs, i) <= j < Beyond(bs, i)
  }

  // Side by side, they cover what the block made of them does.
  lemma JoinedCover(bs: seq<Blk>, i: nat, k: nat)
    requires i < |bs| && Snug(bs, i)
    ensures Spans(Joined(bs, i), k) <==> exists j :: 0 <= j < |bs| && Partner(bs, i, j) && Spans(bs[j], k)
  {
    assert Partner(bs, i, i) && Partner(bs, i, First(bs, i));
    if FreeBehind(bs, i) {
      assert Partner(bs, i, i + 1);
    }
    if FreeBefore(bs, i) {
      assert Partner(bs, i, i - 1);
    }
  }

  // Otherwise a word of one of them is lost.
  lemma LostWord(bs: seq<Blk>, i: nat, hi: nat) returns (j: nat, k: nat)
    requires i < |bs| && Disjoint(bs, hi) && !Snug(bs, i)
    ensures Partner(bs, i, j) && Spans(bs[j], k) && !Spans(Joined(bs, i), k)
  {
    var b := Joined(bs, i);
    if FreeBehind(bs, i) {
      OffAt(bs, hi, i, i + 1);
    }
    if FreeBefore(bs, i) {
      OffAt(bs, hi, i - 1, i);
      if FreeBehind(bs, i) {
        OffAt(bs, hi, i - 1, i + 1);
      }
    }
    j := if FreeBehind(bs, i) && !(b.at <= bs[i + 1].at && bs[i + 1].End() <= b.End()) then i + 1 else i;
    k := if bs[j].at < b.at then bs[j].at else bs[j].End() - 1;
  }

  // Coalescing keeps the blocks inside the heap's own frames exactly when the
  // blocks it makes one of lie side by side.
  lemma CoalesceExact(bs: seq<Blk>, i: nat, owned: set<nat>, hi: nat)
    requires i < |bs| && !bs[i].used && CanonicalBut(bs, i) && Disjoint(bs, hi) && Exact(bs, owned)
    ensures Exact(Coalesce(bs, i), owned) <==> Snug(bs, i)
  {
    hide CanonicalBut, Coalesce, Exact, Disjoint, Snug, Joined, InBlocks, Partner;
    var t := Coalesce(bs, i);
    CoalesceList(bs, i);
    if Snug(bs, i) {
      forall k: nat
        ensures InBlocks(t, k) <==> InBlocks(bs, k)
      {
        JoinedCover(bs, i, k);
        InJoined(bs, i, k);
      }
      SameExact(bs, t, owned);
    } else {
      var j, k := LostWord(bs, i, hi);
      InJoined(bs, i, k);
      NotElsewhere(bs, i, j, k, hi);
      ExactAt(bs, owned, k);
      if Exact(t, owned) {
        ExactAt(t, owned, k);
      }
    }
  }

  lemma SameExact(bs: seq<Blk>, t: seq<Blk>, owned: set<nat>)
    requires Exact(bs, owned) && SameCover(bs, t)
    ensures Exact(t, owned)
  {
    hide InBlocks;
    forall k: nat
      ensures InBlocks(t, k) <==> k / 512 in owned
    {
      assert InBlocks(t, k) <==> InBlocks(bs, k);
    }
  }

  lemma ExactAt(bs: seq<Blk>, owned: set<nat>, k: nat)
    requires Exact(bs, owned)
    ensures InBlocks(bs, k) <==> k / 512 in owned
  {
  }

  // A word in the list, before and after.
  lemma InJoined(bs: seq<Blk>, i: nat, k: nat)
    requires i < |bs|
    ensures var t := bs[..First(bs, i)] + [Joined(bs, i)] + bs[Beyond(bs, i)..];
            InBlocks(t, k) <==>
            (exists j :: 0 <= j < |bs| && !Partner(bs, i, j) && Spans(bs[j], k)) || Spans(Joined(bs, i), k)
    ensures InBlocks(bs, k) <==>
            (exists j :: 0 <= j < |bs| && !Partner(bs, i, j) && Spans(bs[j], k))
            || exists j :: 0 <= j < |bs| && Partner(bs, i, j) && Spans(bs[j], k)
  {
    var a, b, c := bs[..First(bs, i)], Joined(bs, i), bs[Beyond(bs, i)..];
    hide Joined;
    InThree(a, [b], c, k);
    InOne(b, k);
    if InBlocks(a, k) {
      var j :| 0 <= j < |a| && Spans(a[j], k);
      assert !Partner(bs, i, j) && Spans(bs[j], k);
    }
    if InBlocks(c, k) {
      var j :| 0 <= j < |c| && Spans(c[j], k);
      assert !Partner(bs, i, Beyond(bs, i) + j) && Spans(bs[Beyond(bs, i) + j], k);
    }
    if j :| 0 <= j < |bs| && !Partner(bs, i, j) && Spans(bs[j], k) {
      if j < First(bs, i) {
        assert Spans(a[j], k);
      } else {
        assert Spans(c[j - Beyond(bs, i)], k);
      }
    }
  }

  // A word of block j is in no other block.
  lemma NotElsewhere(bs: seq<Blk>, i: nat, j: nat, k: nat, hi: nat)
    requires i < |bs| && Disjoint(bs, hi) && Partner(bs, i, j) && Spans(bs[j], k)
    ensures InBlocks(bs, k) && !exists n :: 0 <= n < |bs| && !Partner(bs, i, n) && Spans(bs[n], k)
  {
    if n :| 0 <= n < |bs| && !Partner(bs, i, n) && Spans(bs[n], k) {
      OffAt(bs, hi, j, n);
    }
  }

  // kfree keeps the blocks inside the heap's frames exactly when the free
  // neighbours it merges with lie side by side with the block.
  lemma ReleaseExact(bs: seq<Blk>, i: nat, owned: set<nat>, hi: nat)
    requires i < |bs| && bs[i].used && Canonical(bs) && Disjoint(bs, hi) && Exact(bs, owned)
    ensures Exact(Release(bs, i), owned) <==> Snug(bs, i)
  {
    var t := Freed(bs, i);
    FreedApart(bs, i, hi);
    FreedCover(bs, i);
    FreedSnug(bs, i);
    hide Coalesce, Disjoint, Canonical, CanonicalBut, InBlocks, Snug, Freed;
    CoalesceExact(t, i, owned, hi);
  }

  lemma FreedSnug(bs: seq<Blk>, i: nat)
    requires i < |bs|
    ensures i < |Freed(bs, i)| && (Snug(Freed(bs, i), i) <==> Snug(bs, i))
  {
    var t := Freed(bs, i);
    assert i > 0 ==> t[i - 1] == bs[i - 1];
    assert i + 1 < |bs| ==> t[i + 1] == bs[i + 1];
  }

  // Then the blocks also stay apart.
  lemma SnugClears(bs: seq<Blk>, i: nat, hi: nat)
    requires i < |bs| && Disjoint(bs, hi) && Snug(bs, i)
    ensures Clears(bs, i, hi)
  {
    var b := Joined(bs, i);
    if FreeBehind(bs, i) {
      OffAt(bs, hi, i, i + 1);
    }
    forall j | 0 <= j < |bs| && !Partner(bs, i, j)
      ensures Off(bs[j], b)
    {
      SnugOff(bs, i, hi, j);
    }
    forall x | x in bs[..First(bs, i)]
      ensures Off(x, b)
    {
      var j :| 0 <= j < First(bs, i) && bs[j] == x;
      assert !Partner(bs, i, j);
    }
    forall x | x in bs[Beyond(bs, i)..]
      ensures Off(b, x)
    {
      var j :| Beyond(bs, i) <= j < |bs| && bs[j] == x;
      assert !Partner(bs, i, j);
    }
  }

  lemma SnugOff(bs: seq<Blk>, i: nat, hi: nat, j: nat)
    requires i < |bs| && Disjoint(bs, hi) && Snug(bs, i) && j < |bs| && !Partner(bs, i, j)
    ensures Off(bs[j], Joined(bs, i))
  {
    OffAt(bs, hi, i, j);
    if FreeBefore(bs, i) {
      OffAt(bs, hi, i - 1, j);
    }
    if FreeBehind(bs, i) {
      OffAt(bs, hi, i + 1, j);
    }
  }

  lemma AppendedExact(bs: seq<Blk>, at: nat, owned: set<nat>)
    requires Exact(bs, owned) && at % 512 == 0
    ensures Exact(Appended(bs, at), owned + {at / 512})
  {
    hide InBlocks;
    forall k: nat
      ensures InBlocks(Appended(bs, at), k) <==> k / 512 in owned + {at / 512}
    {
      InConcat(bs, [Blk(at, 508, false)], k);
      InOne(Blk(at, 508, false), k);
      assert Spans(Blk(at, 508, false), k) <==> k / 512 == at / 512;
    }
  }

  // A frame that is not the heap's meets no block.
  lemma ForeignFresh(bs: seq<Blk>, at: nat, owned: set<nat>)
    requires Exact(bs, owned) && at % 512 == 0 && at / 512 !in owned
    ensures Fresh(bs, at)
  {
    forall b | b in bs
      ensures Off(b, Blk(at, 508, false))
    {
      var i :| 0 <= i < |bs| && bs[i] == b;
      var k := if b.at < at then at else b.at;
      assert Spans(bs[i], k) ==> InBlocks(bs, k);
      assert at <= k < at + 512 ==> k / 512 == at / 512;
    }
  }

  // A page keeps the blocks inside the heap's frames exactly when the tail is
  // used or the page touches it.
  lemma GrowExact(bs: seq<Blk>, at: nat, owned: set<nat>, hi: nat)
    requires bs != [] && Canonical(bs) && Disjoint(bs, hi) && Exact(bs, owned)
    requires at % 512 == 0 && at / 512 !in owned && at >= 512 && at + 512 <= hi
    ensures Exact(Grow(bs, at), owned + {at / 512}) <==> bs[|bs| - 1].used || at == End(bs)
  {
    var t := Appended(bs, at);
    ForeignFresh(bs, at, owned);
    AppendedDisjoint(bs, at, hi);
    AppendedBut(bs, Blk(at, 508, false));
    AppendedExact(bs, at, owned);
    assert t[|bs| - 1] == bs[|bs| - 1];
    assert Snug(t, |bs|) <==> bs[|bs| - 1].used || at == End(bs);
    hide Coalesce, Disjoint, Canonical, CanonicalBut, Exact, Snug;
    CoalesceExact(t, |bs|, owned + {at / 512}, hi);
  }

  // ---------- kmalloc on the pages at hand ----------

  ghost predicate InOrder(bs: seq<Blk>) {
    bs == [] || Stacked(bs, bs[0].at, End(bs))
  }

  lemma Wider(bs: seq<Blk>, lo: nat, hi: nat, hi': nat)
    requires Stacked(bs, lo, hi)
    ensures bs != [] && lo == bs[0].at && End(bs) <= hi
    ensures End(bs) <= hi' ==> Stacked(bs, lo, hi')
  {
  }

  // A page that is taken lies at or beyond the end of the tail.
  predicate AheadOf(bs: seq<Blk>, words: nat, pages: seq<nat>) {
    bs != [] && Taken(bs, words, pages) > 0 ==> End(bs) <= pages[0]
  }

  // And it touches the tail when it will be merged with it.
  predicate SnugPage(bs: seq<Blk>, words: nat, pages: seq<nat>) {
    var n := Taken(bs, words, pages);
    n > 0 ==>
      if bs == [] then n >= 2 ==> pages[1] == pages[0] + 512
      else bs[|bs| - 1].used || pages[0] == End(bs)
  }

  // How far the list reaches after the call.
  function Reach(bs: seq<Blk>, words: nat, pages: seq<nat>): nat {
    var n := Taken(bs, words, pages);
    if n > 0 then pages[n - 1] + 512 else End(bs)
  }

  lemma PlaceEnd(bs: seq<Blk>, i: nat, words: nat)
    requires i < |bs|
    ensures Place(bs, i, words) != [] && End(Place(bs, i, words)) == End(bs)
    ensures Place(bs, i, words)[0].at == bs[0].at
  {
    hide Cut;
    var t := Place(bs, i, words);
    CutEnd(bs[i], words);
    if i + 1 < |bs| {
      assert t[|t| - 1] == bs[i + 1..][|bs| - i - 2];
    }
  }

  lemma CutEnd(b: Blk, words: nat)
    ensures var y := Placed(b, words); y[|y| - 1].End() == b.End()
  {
  }

  // What the search finds is placed, in any list.
  lemma PlaceKeeps(s: seq<Blk>, i: nat, words: nat)
    requires i < |s| && Fits(s[i], words) && InOrder(s) && Canonical(s)
    ensures var t := Place(s, i, words);
            && t != [] && InOrder(t) && Canonical(t) && Total(t) == Total(s) && End(t) == End(s) && t[0].at == s[0].at
  {
    hide Place, Stacked, Canonical, Total;
    PlaceEnd(s, i, words);
    PlaceCanonical(s, i, words);
    PlaceTotal(s, i, words);
    SplitStacked(s, i, words, s[0].at, End(s));
  }

  lemma GrowOn(s: seq<Blk>, at: nat)
    requires s != [] && InOrder(s) && Canonical(s) && End(s) <= at
    ensures var t := Grow(s, at);
            && t != [] && InOrder(t) && Canonical(t) && Total(t) == Total(s) + 512
            && End(t) <= at + 512 && t[0].at == s[0].at
  {
    hide Grow, Stacked, Canonical, Total;
    Wider(s, s[0].at, End(s), at + 512);
    GrowKeeps(s, at, s[0].at, at + 512);
    GrowTotal(s, at);
    Wider(Grow(s, at), s[0].at, at + 512, End(Grow(s, at)));
  }

  lemma StartedKeeps(at: nat)
    ensures var s := [Blk(at, 508, false)];
            InOrder(s) && Canonical(s) && Total(s) == 512 && End(s) == at + 512
  {
    TotalOne(Blk(at, 508, false));
  }

  // Pages that come ahead of the tail keep the order, the canonical form, the
  // head, and the sum of the sizes.
  lemma AllocateKeeps(bs: seq<Blk>, words: nat, pages: seq<nat>, avail: set<nat>)
    requires InOrder(bs) && Canonical(bs) && Lists(pages, avail) && AheadOf(bs, words, pages)
    ensures var t, n := Allocate(bs, words, pages).bs, Taken(bs, words, pages);
            && InOrder(t) && Canonical(t) && Total(t) == Total(bs) + 512 * n && End(t) <= Reach(bs, words, pages)
            && (bs != [] ==> t != [] && t[0].at == bs[0].at) && (bs == [] && n > 0 ==> t != [] && t[0].at == pages[0])
            && (bs == [] && n == 0 ==> t == [])
  {
    hide Grow, Place, Stacked, Canonical, Total, Lists, FirstFit;
    NothingTotal();
    var s, left := Started(bs, pages), Unstarted(bs, pages);
    if bs == [] && pages != [] {
      StartedKeeps(pages[0]);
      if |pages| >= 2 {
        SecondPage(pages, avail);
      }
    }
    if s != [] {
      var i := FirstFit(s, words);
      if i < |s| {
        PlaceKeeps(s, i, words);
      } else if left != [] {
        GrowOn(s, left[0]);
        var t := Grow(s, left[0]);
        if FirstFit(t, words) < |t| {
          PlaceKeeps(t, FirstFit(t, words), words);
        }
      }
    }
  }

  lemma NothingTotal()
    ensures Total([]) == 0
  {
  }

  // All available frames lie beyond the end of the tail.
  ghost predicate Ahead(avail: set<nat>, end: nat) {
    forall f :: f in avail ==> end <= 512 * f
  }

  lemma PagesTaken(bs: seq<Blk>, words: nat, pages: seq<nat>, avail: set<nat>)
    requires Lists(pages, avail)
    ensures var r, n := Allocate(bs, words, pages), Taken(bs, words, pages);
            && n <= 2 && FramesOf(pages[..n]) <= avail && Lists(r.left, avail - FramesOf(pages[..n]))
            && (n > 0 ==> Ahead(avail - FramesOf(pages[..n]), pages[n - 1] + 512))
  {
    hide Grow, Place, Allocate;
    TakenIs(bs, words, pages);
    FirstFrames(pages);
    var n := Taken(bs, words, pages);
    assert Allocate(bs, words, pages).left == pages[n..];
    assert pages[0..] == pages;
    if n >= 1 {
      AheadOfFirst(pages, avail);
    }
    if n >= 2 {
      assert pages[1..][1..] == pages[2..] && pages[1..][0] == pages[1];
      AheadOfFirst(pages[1..], avail - {pages[0] / 512});
      assert avail - {pages[0] / 512} - {pages[1] / 512} == avail - {pages[0] / 512, pages[1] / 512};
    }
    assert avail - {} == avail;
  }

  lemma AheadOfFirst(pages: seq<nat>, avail: set<nat>)
    requires Lists(pages, avail) && pages != []
    ensures Ahead(avail - {pages[0] / 512}, pages[0] + 512)
  {
    forall f | f in avail - {pages[0] / 512}
      ensures pages[0] + 512 <= 512 * f
    {
      assert pages[0] / 512 <= f;
    }
  }

  // First fit hands the frames out upwards, so once they lie ahead they do so
  // for good, until one is given back. On an empty heap they always do.
  lemma AheadKept(bs: seq<Blk>, words: nat, pages: seq<nat>, avail: set<nat>)
    requires InOrder(bs) && Canonical(bs) && Lists(pages, avail) && Ahead(avail, End(bs))
    ensures AheadOf(bs, words, pages)
    ensures Ahead(avail - FramesOf(pages[..Taken(bs, words, pages)]), End(Allocate(bs, words, pages).bs))
  {
    hide Grow, Place, Allocate, InOrder, Canonical;
    FirstPage(pages, avail);
    assert AheadOf(bs, words, pages);
    PagesTaken(bs, words, pages, avail);
    AllocateKeeps(bs, words, pages, avail);
  }

  // The available frames lie in memory.
  ghost predicate Framed(avail: set<nat>, hi: nat) {
    forall f :: f in avail ==> 1 <= f && 512 * f + 512 <= hi
  }

  lemma FramedPages(pages: seq<nat>, avail: set<nat>, hi: nat)
    requires Lists(pages, avail) && Framed(avail, hi)
    ensures pages != [] ==> pages[0] >= 512 && pages[0] + 512 <= hi
    ensures |pages| >= 2 ==> pages[0] + 512 <= pages[1] && pages[1] + 512 <= hi
  {
    if |pages| >= 2 {
      SecondPage(pages, avail);
    }
  }

  // kmalloc keeps the blocks apart exactly when a page it takes meets none of
  // them behind a used tail, or a free tail that swallows it has room.
  lemma AllocateDisjoint(bs: seq<Blk>, words: nat, pages: seq<nat>, avail: set<nat>, hi: nat)
    requires Disjoint(bs, hi) && Lists(pages, avail) && Framed(avail, hi)
    ensures Disjoint(Allocate(bs, words, pages).bs, hi) <==>
            (bs != [] && Taken(bs, words, pages) > 0 ==>
               if bs[|bs| - 1].used then Fresh(bs, pages[0]) else Room(bs, hi))
  {
    hide Grow, Place, Disjoint, Lists, FirstFit, Fresh, Framed;
    FramedPages(pages, avail, hi);
    TakenIs(bs, words, pages);
    var s, left := Started(bs, pages), Unstarted(bs, pages);
    if bs == [] && pages != [] {
      DisjointOne(Blk(pages[0], 508, false), hi);
    }
    if s != [] {
      var i := FirstFit(s, words);
      if i < |s| {
        PlaceDisjoint(s, i, words, hi);
      } else if left != [] {
        GrowDisjoint(s, left[0], hi);
        var t := Grow(s, left[0]);
        if FirstFit(t, words) < |t| {
          PlaceDisjoint(t, FirstFit(t, words), words, hi);
        }
      }
    }
  }

  // Pages ahead of blocks in address order fit.
  lemma AheadFits(bs: seq<Blk>, words: nat, pages: seq<nat>, avail: set<nat>, hi: nat)
    requires InOrder(bs) && AheadOf(bs, words, pages) && Lists(pages, avail) && Framed(avail, hi)
    ensures Fitting(bs, words, pages, hi)
  {
    hide Taken, Lists, Framed;
    FramedPages(pages, avail, hi);
    if bs != [] && Taken(bs, words, pages) > 0 {
      forall b | b in bs
        ensures b.End() <= End(bs)
      {
        var i :| 0 <= i < |bs| && bs[i] == b;
        BeforeEnd(bs, bs[0].at, End(bs), i);
      }
      assert Fresh(bs, pages[0]);
      assert End(bs) + 512 <= hi;
      forall b | b in bs[..|bs| - 1]
        ensures b.End() <= End(bs)
      {
        assert b in bs;
      }
      assert Room(bs, hi);
    }
  }

  // Pages that are not the heap's fit when the one that is merged touches.
  lemma SnugFits(bs: seq<Blk>, words: nat, pages: seq<nat>, avail: set<nat>, owned: set<nat>, hi: nat)
    requires Exact(bs, owned) && Lists(pages, avail) && Framed(avail, hi) && avail !! owned
    requires SnugPage(bs, words, pages)
    ensures Fitting(bs, words, pages, hi)
  {
    hide Taken, Exact, Lists, Framed;
    if bs != [] && Taken(bs, words, pages) > 0 {
      FramedPages(pages, avail, hi);
      FirstPage(pages, avail);
      ForeignFresh(bs, pages[0], owned);
      if !bs[|bs| - 1].used {
        FreshRoom(bs, hi);
      }
    }
  }

  // A page that meets no block and touches the tail has room behind it.
  lemma FreshRoom(bs: seq<Blk>, hi: nat)
    requires bs != [] && Fresh(bs, End(bs)) && End(bs) + 512 <= hi
    ensures Room(bs, hi)
  {
    forall b | b in bs[..|bs| - 1]
      ensures b.End() <= End(bs) || End(bs) + 512 <= b.at
    {
      assert Off(b, Blk(End(bs), 508, false));
    }
  }

  // kmalloc keeps the blocks inside the heap's frames exactly when a page that
  // it merges with a free tail touches the tail.
  lemma AllocateExact(bs: seq<Blk>, words: nat, pages: seq<nat>, avail: set<nat>, owned: set<nat>, hi: nat)
    requires Disjoint(bs, hi) && Canonical(bs) && Lists(pages, avail) && Framed(avail, hi)
    requires avail !! owned && Exact(bs, owned)
    ensures Exact(Allocate(bs, words, pages).bs, owned + FramesOf(pages[..Taken(bs, words, pages)])) <==>
            SnugPage(bs, words, pages)
  {
    hide Grow, Place, Disjoint, Canonical, Lists, FirstFit, Exact, Appended, Framed;
    TakenIs(bs, words, pages);
    FirstFrames(pages);
    FirstPage(pages, avail);
    FramedPages(pages, avail, hi);
    var s, left := Started(bs, pages), Unstarted(bs, pages);
    StartedIs(bs, pages);
    if bs == [] && pages != [] {
      DisjointOne(Blk(pages[0], 508, false), hi);
      StartedExact(pages[0], owned);
      if |pages| >= 2 {
        SecondPage(pages, avail);
      }
    }
    var mine := if bs == [] && pages != [] then owned + {pages[0] / 512} else owned;
    assert owned + {} == owned;
    if s != [] {
      var i := FirstFit(s, words);
      if i < |s| {
        PlaceExact(s, i, words, mine);
      } else if left != [] {
        GrowExact(s, left[0], mine, hi);
        var t := Grow(s, left[0]);
        if FirstFit(t, words) < |t| {
          PlaceExact(t, FirstFit(t, words), words, mine + {left[0] / 512});
        }
        if bs == [] {
          assert left[0] == pages[1];
          assert mine + {left[0] / 512} == owned + {pages[0] / 512, pages[1] / 512};
        }
      }
    }
  }

  lemma PlaceExact(s: seq<Blk>, i: nat, words: nat, owned: set<nat>)
    requires i < |s|
    ensures Exact(Place(s, i, words), owned) <==> Exact(s, owned)
  {
    hide Place, InBlocks;
    PlaceCover(s, i, words);
    var t := Place(s, i, words);
    if Exact(t, owned) {
      forall k: nat
        ensures InBlocks(s, k) <==> k / 512 in owned
      {
        assert InBlocks(t, k) <==> InBlocks(s, k);
      }
    }
  }

  lemma StartedExact(at: nat, owned: set<nat>)
    requires Exact([], owned) && at % 512 == 0
    ensures Exact([Blk(at, 508, false)], owned + {at / 512})
  {
    hide Exact;
    assert [] + [Blk(at, 508, false)] == [Blk(at, 508, false)];
    AppendedExact([], at, owned);
  }

  // ---------- krealloc ----------

  // A neighbour that is free before krealloc calls kmalloc, and still free when it
  // calls kfree: kmalloc has not handed it out, nor, as the tail, with its page.
  predicate StaysBehind(bs: seq<Blk>, i: nat, words: nat)
    requires i < |bs|
  {
    var n := FirstFit(bs, words);
    FreeBehind(bs, i) && n != i + 1 && !(n == |bs| && i + 2 == |bs|)
  }

  // Of a block that is cut, the rest stays.
  predicate StaysBefore(bs: seq<Blk>, i: nat, words: nat)
    requires i < |bs|
  {
    var n := FirstFit(bs, words);
    FreeBefore(bs, i) && !(n + 1 == i && bs[n].words < words + 5)
  }

  predicate MoveSnug(bs: seq<Blk>, i: nat, words: nat)
    requires i < |bs|
  {
    SideBySide(bs, i, StaysBefore(bs, i, words), StaysBehind(bs, i, words))
  }

  // The place of a block behind or before the one that is cut.
  function Shifted(s: seq<Blk>, n: nat, words: nat, i: nat): nat
    requires n < |s|
  {
    if n < i && s[n].words >= words + 5 then i + 1 else i
  }

  lemma PlaceNear(s: seq<Blk>, n: nat, words: nat, i: nat)
    requires n < |s| && i < |s| && i != n && Fits(s[n], words)
    ensures var t, w := Place(s, n, words), Shifted(s, n, words, i);
            && w < |t| && t[w] == s[i]
            && (FreeBehind(t, w) <==> FreeBehind(s, i) && n != i + 1)
            && (FreeBehind(t, w) ==> t[w + 1] == s[i + 1])
            && (FreeBefore(t, w) <==> FreeBefore(s, i) && !(n + 1 == i && s[n].words < words + 5))
            && (FreeBefore(t, w) ==> t[w - 1].End() == s[i - 1].End())
  {
    hide Place, Placed;
    PlaceElem(s, n, words, i);
    if i > 0 {
      PlaceElem(s, n, words, i - 1);
    }
    if i + 1 < |s| {
      PlaceElem(s, n, words, i + 1);
    }
  }

  // Where each block is found once block n is placed: the others shift by the
  // piece that is cut off.
  lemma PlaceElem(s: seq<Blk>, n: nat, words: nat, i: nat)
    requires n < |s| && i < |s|
    ensures var t, w := Place(s, n, words), Shifted(s, n, words, i);
            && w < |t| && |t| == |s| + (if s[n].words >= words + 5 then 1 else 0)
            && (i != n ==> t[w] == s[i])
            && t[n].used && t[n].at == s[n].at
            && (s[n].words >= words + 5 ==> !t[n + 1].used && t[n + 1].End() == s[n].End())
  {
  }

  lemma GrowNear(bs: seq<Blk>, at: nat, i: nat)
    requires i < |bs| && bs[i].used
    ensures var s := Grow(bs, at); var n := |s| - 1;
            && i < n && s[i] == bs[i]
            && (FreeBehind(s, i) && n != i + 1 <==> FreeBehind(bs, i) && i + 2 != |bs|)
            && (FreeBehind(s, i) && n != i + 1 ==> s[i + 1] == bs[i + 1])
            && (FreeBefore(s, i) <==> FreeBefore(bs, i)) && (i > 0 ==> s[i - 1] == bs[i - 1])
  {
    GrowIs(bs, at);
  }

  // What kfree will merge the old block with, told before krealloc moves it.
  lemma MovedSnug(bs: seq<Blk>, i: nat, words: nat, pages: seq<nat>) returns (j: nat)
    requires i < |bs| && bs[i].used && Allocate(bs, words, pages).payload.Some?
    ensures var r := Allocate(bs, words, pages);
            j < |r.bs| && r.bs[j] == bs[i] && (Snug(r.bs, j) <==> MoveSnug(bs, i, words))
  {
    hide Grow, Place;
    var n := FirstFit(bs, words);
    if n < |bs| {
      PlaceNear(bs, n, words, i);
      j := Shifted(bs, n, words, i);
    } else {
      var s := Grow(bs, pages[0]);
      GrowthLaw(bs, words, pages[0]);
      GrowNear(bs, pages[0], i);
      PlaceNear(s, |s| - 1, words, i);
      j := i;
    }
  }

  // krealloc keeps the blocks inside the heap's frames exactly when those that
  // its kfree merges lie side by side.
  lemma MoveExact(bs: seq<Blk>, i: nat, words: nat, pages: seq<nat>, owned: set<nat>, hi: nat, j: nat)
    requires i < |bs| && bs[i].used && Allocate(bs, words, pages).payload.Some? && Canonical(bs)
    requires var r := Allocate(bs, words, pages);
             Disjoint(r.bs, hi) && Exact(r.bs, owned) && j < |r.bs| && r.bs[j] == bs[i]
    ensures Exact(Release(Allocate(bs, words, pages).bs, j), owned) <==> MoveSnug(bs, i, words)
    ensures MoveSnug(bs, i, words) ==> Clears(Allocate(bs, words, pages).bs, j, hi)
  {
    hide Allocate, Disjoint, Canonical, Exact, Release, Snug, MoveSnug, After, Clears;
    var r := Allocate(bs, words, pages);
    var w := MovedSnug(bs, i, words, pages);
    if w != j {
      OffAt(r.bs, hi, w, j);
    }
    var steps := AllocateIsRun(bs, words, pages);
    RunKeeps(bs, steps);
    ReleaseExact(r.bs, j, owned, hi);
    if Snug(r.bs, j) {
      SnugClears(r.bs, j, hi);
    }
  }

  // ---------- one run of frames ----------

  // The pages follow each other, and the first starts at hi.
  ghost predicate OneRun(pages: seq<nat>, hi: nat) {
    pages == [] || (pages[0] == hi && OneRun(pages[1..], hi + 512))
  }

  // Frames without a hole among them make one run.
  lemma {:induction false} RunOfFrames(pages: seq<nat>, avail: set<nat>)
    requires Lists(pages, avail) && pages != []
    requires forall f, g, h :: f in avail && h in avail && f <= g <= h ==> g in avail
    ensures OneRun(pages, pages[0])
    decreases |pages|
  {
    var f, rest := pages[0] / 512, avail - {pages[0] / 512};
    if |pages| > 1 {
      SecondPage(pages, avail);
      assert pages[1..][0] == pages[1];
      assert f + 1 in avail;
      assert f + 1 in rest && pages[1] / 512 <= f + 1;
      RunOfFrames(pages[1..], rest);
    } else {
      assert pages[1..] == [];
    }
  }

  // When every page directly follows the one before, the blocks tile the pages:
  // the hypothesis is met once and for all when the available frames make one
  // run behind the heap.
  lemma RunTiles(bs: seq<Blk>, words: nat, pages: seq<nat>, avail: set<nat>, lo: nat, hi: nat)
    requires Canonical(bs) && Lists(pages, avail) && OneRun(pages, hi)
    requires if bs == [] then lo == hi else Tiles(bs, lo, hi)
    ensures AheadOf(bs, words, pages) && SnugPage(bs, words, pages)
    ensures var r, hi' := Allocate(bs, words, pages), hi + 512 * Taken(bs, words, pages);
            OneRun(r.left, hi') && (r.bs != [] ==> Tiles(r.bs, lo, hi'))
  {
    hide Grow, Place, Canonical, Total, Allocate, Lists;
    TakenIs(bs, words, pages);
    if |pages| >= 2 {
      assert pages[1..][0] == pages[1] && pages[1..][1..] == pages[2..];
    }
    var n, t := Taken(bs, words, pages), Allocate(bs, words, pages).bs;
    assert pages[0..] == pages;
    assert Allocate(bs, words, pages).left == pages[n..];
    NothingTotal();
    if bs != [] {
      TilesStacked(bs, lo, hi);
    }
    hide Tiles;
    AllocateKeeps(bs, words, pages, avail);
    if t != [] {
      Wider(t, t[0].at, End(t), hi + 512 * n);
      TilesExactly(t, lo, hi + 512 * n);
    }
  }

  lemma TilesStacked(bs: seq<Blk>, lo: nat, hi: nat)
    requires Tiles(bs, lo, hi)
    ensures Stacked(bs, lo, hi) && InOrder(bs) && End(bs) == hi && Total(bs) == hi - lo
  {
    TilesExactly(bs, lo, hi);
  }

  // Freeing in a tiling leaves a tiling, and always touches what it merges with.
  lemma ReleaseTiles(bs: seq<Blk>, i: nat, lo: nat, hi: nat)
    requires i < |bs| && bs[i].used && Canonical(bs) && Tiles(bs, lo, hi)
    ensures Snug(bs, i) && Tiles(Release(bs, i), lo, hi)
  {
    TilesStacked(bs, lo, hi);
    hide Coalesce, Canonical, Total, Release, Stacked;
    assert Snug(bs, i);
    hide Tiles;
    ReleaseKeeps(bs, i, lo, hi);
    ReleaseTotal(bs, i);
    TilesExactly(Release(bs, i), lo, hi);
  }

  // ---------- runs of the list ----------

  // The three things that ever happen to the list: a fitting block handed out,
  // a block taken back, a page from anywhere appended.
  datatype Step = Placing(i: nat, words: nat) | Releasing(i: nat) | Appending(at: nat)

  function Stepped(bs: seq<Blk>, s: Step): seq<Blk> {
    match s
    case Placing(i, words) => if i < |bs| && Fits(bs[i], words) then Place(bs, i, words) else bs
    case Releasing(i) => if i < |bs| && bs[i].used then Release(bs, i) else bs
    case Appending(at) => Coalesce(bs + [Blk(at, 508, false)], |bs|)
  }

  function After(bs: seq<Blk>, steps: seq<Step>): seq<Blk>
    decreases |steps|
  {
    if steps == [] then bs else After(Stepped(bs, steps[0]), steps[1..])
  }

  function Pages(steps: seq<Step>): nat {
    if steps == [] then 0 else (if steps[0].Appending? then 1 else 0) + Pages(steps[1..])
  }

  lemma StepKeeps(bs: seq<Blk>, s: Step)
    requires Canonical(bs)
    ensures var t := Stepped(bs, s);
            && Canonical(t) && Total(t) == Total(bs) + (if s.Appending? then 512 else 0)
            && (bs != [] ==> t != [] && t[0].at == bs[0].at)
  {
    hide Total, Coalesce, Place;
    match s
    case Placing(i, words) =>
      if i < |bs| && Fits(bs[i], words) {
        PlaceCanonical(bs, i, words);
        PlaceTotal(bs, i, words);
      }
    case Releasing(i) =>
      if i < |bs| && bs[i].used {
        CoalesceCanonical(Freed(bs, i), i);
        ReleaseTotal(bs, i);
      }
    case Appending(at) =>
      var b := Blk(at, 508, false);
      TotalOfConcat(bs, [b]);
      TotalOne(b);
      AppendedBut(bs, b);
      CoalesceCanonical(bs + [b], |bs|);
      CoalesceTotal(bs + [b], |bs|);
  }

  // Over any run, wherever its pages lie: no two neighbours both free, the head
  // stays the first page, and headers and sizes add up to the pages.
  lemma {:induction false} RunKeeps(bs: seq<Blk>, steps: seq<Step>)
    requires Canonical(bs)
    ensures var t := After(bs, steps);
            && Canonical(t) && Total(t) == Total(bs) + 512 * Pages(steps)
            && (bs != [] ==> t != [] && t[0].at == bs[0].at)
    decreases |steps|
  {
    hide Total, Stepped, Canonical;
    if steps != [] {
      StepKeeps(bs, steps[0]);
      RunKeeps(Stepped(bs, steps[0]), steps[1..]);
    }
  }

  // Every page of the run is appended at or beyond the tail of its time.
  ghost predicate Upwards(bs: seq<Blk>, steps: seq<Step>)
    decreases |steps|
  {
    steps == [] ||
    ((steps[0].Appending? ==> End(bs) <= steps[0].at) && Upwards(Stepped(bs, steps[0]), steps[1..]))
  }

  // Then the blocks never overlap, so their headers can lie in memory as the
  // list says.
  lemma {:induction false} RunInOrder(bs: seq<Blk>, steps: seq<Step>)
    requires Canonical(bs) && InOrder(bs) && Upwards(bs, steps)
    ensures InOrder(After(bs, steps))
    decreases |steps|
  {
    hide Stepped, Canonical, InOrder;
    if steps != [] {
      StepInOrder(bs, steps[0]);
      StepKeeps(bs, steps[0]);
      RunInOrder(Stepped(bs, steps[0]), steps[1..]);
    }
  }

  lemma StepInOrder(bs: seq<Blk>, s: Step)
    requires Canonical(bs) && InOrder(bs) && (s.Appending? ==> End(bs) <= s.at)
    ensures InOrder(Stepped(bs, s))
  {
    hide Coalesce, Canonical, Place, Stacked, Release, Grow, Total;
    match s
    case Placing(i, words) =>
      if i < |bs| && Fits(bs[i], words) {
        PlaceKeeps(bs, i, words);
      }
    case Releasing(i) =>
      if i < |bs| && bs[i].used {
        ReleaseInOrder(bs, i);
      }
    case Appending(at) =>
      if bs == [] {
        StartedKeeps(at);
        StartedIsRun(at);
      } else {
        GrowOn(bs, at);
        AppendIsGrow(bs, at);
      }
  }

  lemma AppendIsGrow(bs: seq<Blk>, at: nat)
    ensures Stepped(bs, Appending(at)) == Grow(bs, at)
  {
    hide Coalesce;
  }

  // Freeing keeps the order and moves neither the head nor the end outwards.
  lemma ReleaseInOrder(bs: seq<Blk>, i: nat)
    requires i < |bs| && bs[i].used && Canonical(bs) && InOrder(bs)
    ensures var t := Release(bs, i);
            && t != [] && InOrder(t) && Canonical(t) && Total(t) == Total(bs)
            && t[0].at == bs[0].at && End(t) <= End(bs)
  {
    hide Canonical, Release, Stacked, Total;
    ReleaseKeeps(bs, i, bs[0].at, End(bs));
    ReleaseTotal(bs, i);
    Wider(Release(bs, i), bs[0].at, End(bs), End(Release(bs, i)));
  }

  lemma StartedIsRun(first: nat)
    ensures Stepped([], Appending(first)) == [Blk(first, 508, false)]
  {
    assert [] + [Blk(first, 508, false)] == [Blk(first, 508, false)];
  }

  lemma RunOne(bs: seq<Blk>, s: Step)
    ensures After(bs, [s]) == Stepped(bs, s) && After(bs, []) == bs
  {
    assert [s][1..] == [];
  }

  lemma {:induction false} RunMore(bs: seq<Blk>, steps: seq<Step>, s: Step)
    ensures After(bs, steps + [s]) == Stepped(After(bs, steps), s)
    decreases |steps|
  {
    hide Stepped;
    if steps == [] {
      assert steps + [s] == [s];
      RunOne(bs, s);
    } else {
      assert (steps + [s])[1..] == steps[1..] + [s];
      RunMore(Stepped(bs, steps[0]), steps[1..], s);
    }
  }

  // kmalloc is such a run.
  lemma AllocateIsRun(bs: seq<Blk>, words: nat, pages: seq<nat>) returns (steps: seq<Step>)
    ensures Allocate(bs, words, pages).bs == After(bs, steps)
  {
    hide Place, FirstFit, Grow, Stepped, After;
    var s, left := Started(bs, pages), Unstarted(bs, pages);
    RunOne(bs, Appending(0));
    steps := [];
    if bs == [] && pages != [] {
      StartedIsRun(pages[0]);
      RunOne(bs, Appending(pages[0]));
      steps := [Appending(pages[0])];
    }
    if s != [] {
      var i := FirstFit(s, words);
      if i < |s| {
        steps := RunPlace(bs, steps, s, words);
      } else if left != [] {
        AppendIsGrow(s, left[0]);
        RunMore(bs, steps, Appending(left[0]));
        steps := steps + [Appending(left[0])];
        var t := Grow(s, left[0]);
        if FirstFit(t, words) < |t| {
          steps := RunPlace(bs, steps, t, words);
        }
      }
    }
  }

  lemma RunPlace(bs: seq<Blk>, steps: seq<Step>, s: seq<Blk>, words: nat) returns (more: seq<Step>)
    requires After(bs, steps) == s && FirstFit(s, words) < |s|
    ensures After(bs, more) == Place(s, FirstFit(s, words), words)
  {
    hide Place, After;
    more := steps + [Placing(FirstFit(s, words), words)];
    RunMore(bs, steps, Placing(FirstFit(s, words), words));
  }

  // ---------- frames with a hole between them ----------

  // With frames 256 and 258 at hand and 257 elsewhere, kmalloc(16) and
  // kmalloc(4032) leave a free block whose header lies in frame 257.
  lemma GapWitness()
    ensures var start := [Blk(131072, 2, true), Blk(131078, 502, false)];
            var across := [Blk(131072, 2, true), Blk(131078, 504, true), Blk(131586, 506, false)];
            && Allocate([], 2, [512 * 256, 512 * 258]).bs == start
            && Allocate(start, 504, [512 * 258]).bs == across
            && AheadOf(start, 504, [512 * 258]) && !SnugPage(start, 504, [512 * 258])
            && Exact(start, {256}) && !Exact(across, {256, 258}) && 131586 / 512 == 257
  {
    var start := [Blk(131072, 2, true), Blk(131078, 502, false)];
    var across := [Blk(131072, 2, true), Blk(131078, 504, true), Blk(131586, 506, false)];
    StartWitness();
    AcrossWitness();
    StartExact();
    assert Spans(across[2], 131586);
    assert InBlocks(across, 131586);
  }

  lemma StartWitness()
    ensures Allocate([], 2, [512 * 256, 512 * 258]).bs == [Blk(131072, 2, true), Blk(131078, 502, false)]
  {
    hide Grow;
    OneFits(512 * 256, 2);
    var s := [Blk(512 * 256, 508, false)];
    assert Placed(s[0], 2) == [Blk(131072, 2, true), Blk(131078, 502, false)];
    assert Place(s, 0, 2) == Placed(s[0], 2);
  }

  lemma StartExact()
    ensures Exact([Blk(131072, 2, true), Blk(131078, 502, false)], {256})
  {
    var b, d := Blk(131072, 2, true), Blk(131078, 502, false);
    forall k: nat
      ensures InBlocks([b, d], k) <==> k / 512 in {256}
    {
      assert [b, d] == [b] + [d];
      InConcat([b], [d], k);
      InOne(b, k);
      InOne(d, k);
    }
  }

  lemma AcrossWitness()
    ensures var start := [Blk(131072, 2, true), Blk(131078, 502, false)];
            && Allocate(start, 504, [512 * 258]).bs ==
                 [Blk(131072, 2, true), Blk(131078, 504, true), Blk(131586, 506, false)]
            && Taken(start, 504, [512 * 258]) == 1
  {
    var b, d := Blk(131072, 2, true), Blk(131078, 502, false);
    var start, wide := [b, d], [b, Blk(131078, 1014, false)];
    TwoFit(b, d, 504);
    GrowIs(start, 512 * 258);
    assert start[..1] == [b];
    assert Grow(start, 512 * 258) == wide;
    TwoFit(b, wide[1], 504);
    assert Placed(wide[1], 504) == [Blk(131078, 504, true), Blk(131586, 506, false)];
    assert wide[..1] == [b] && wide[2..] == [];
    assert Place(wide, 1, 504) == [b] + Placed(wide[1], 504) + [];
  }

  // A page may lie below the tail: with frame 258 handed out whole and 257 at
  // hand, kmalloc(16) takes a page that fits and keeps the heap in its frames.
  lemma BelowWitness()
    ensures var bs, pages := [Blk(512 * 258, 508, true)], [512 * 257];
            && Taken(bs, 2, pages) == 1 && !AheadOf(bs, 2, pages)
            && Fitting(bs, 2, pages, 512 * 260) && SnugPage(bs, 2, pages)
  {
    var bs, pages := [Blk(512 * 258, 508, true)], [512 * 257];
    TakenIs(bs, 2, pages);
    assert bs[1..] == [];
  }

  // With frames 258, 257 and 259 taken in that order and handed out whole, kfree
  // of the first block and of the second makes a free block of the third one's
  // words, and the next kmalloc hands them out again.
  lemma SwallowWitness()
    ensures var whole := [Blk(512 * 258, 508, true), Blk(512 * 257, 508, true), Blk(512 * 259, 508, true)];
            var first := [Blk(512 * 258, 508, false), Blk(512 * 257, 508, true), Blk(512 * 259, 508, true)];
            var both := [Blk(512 * 258, 1020, false), Blk(512 * 259, 508, true)];
            var again := [Blk(512 * 258, 1020, true), Blk(512 * 259, 508, true)];
            && Disjoint(whole, 512 * 260) && Clears(whole, 0, 512 * 260) && Release(whole, 0) == first
            && Disjoint(first, 512 * 260) && !Clears(first, 1, 512 * 260) && Release(first, 1) == both
            && Allocate(both, 1020, []).bs == again && !Off(again[0], again[1])
  {
    hide Release, Clears, Allocate;
    FirstFreed(Blk(512 * 258, 508, true), Blk(512 * 257, 508, true), Blk(512 * 259, 508, true), 512 * 260);
    SecondFreed(Blk(512 * 258, 508, false), Blk(512 * 257, 508, true), Blk(512 * 259, 508, true), 512 * 260);
    ServedAgain(Blk(512 * 258, 1020, false), Blk(512 * 259, 508, true), 1020);
  }

  lemma FirstFreed(b: Blk, d: Blk, e: Blk, hi: nat)
    requires b.used && d.used && Disjoint([b, d, e], hi)
    ensures Release([b, d, e], 0) == [b.(used := false), d, e] && Clears([b, d, e], 0, hi)
  {
    var bs, t := [b, d, e], [b.(used := false), d, e];
    assert Freed(bs, 0) == t;
    assert MergeNexts(t, 0) == t;
    assert bs[1..] == [d, e] && bs[..0] == [];
    OffAt(bs, hi, 0, 1);
    OffAt(bs, hi, 0, 2);
  }

  lemma SecondFreed(b: Blk, d: Blk, e: Blk, hi: nat)
    requires !b.used && d.used && e.used && Disjoint([b, d, e], hi)
    ensures var whole := Blk(b.at, b.words + 4 + d.words, false);
            Release([b, d, e], 1) == [whole, e] && (!Off(whole, e) ==> !Clears([b, d, e], 1, hi))
  {
    var bs, t := [b, d, e], [b, d.(used := false), e];
    assert Freed(bs, 1) == t;
    assert MergeNexts(t, 1) == t;
    MergeOne(t, 0);
    assert t[2..] == [e] && t[..0] == [];
    assert e in bs[2..];
  }

  lemma ServedAgain(b: Blk, d: Blk, words: nat)
    requires !b.used && b.words == words
    ensures Allocate([b, d], words, []).bs == [b.(used := true), d]
  {
    var bs := [b, d];
    assert FirstFit(bs, words) == 0;
    assert Placed(b, words) == [b.(used := true)];
    assert bs[1..] == [d] && bs[..0] == [];
    assert Place(bs, 0, words) == [] + Placed(b, words) + [d];
  }

  lemma TwoFit(b: Blk, d: Blk, words: nat)
    requires b.used
    ensures FirstFit([b, d], words) == if Fits(d, words) then 1 else 2
  {
    assert [b, d][1..] == [d] && [d][1..] == [];
  }
}
