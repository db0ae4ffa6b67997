// When blocks of the heap's list share no word, wherever they lie: which calls
// keep them apart, and which headers can stand in memory together.

module HeapApart {
  import opened Machine
  import opened HeapList

  predicate Off(b: Blk, d: Blk) {
    b.End() <= d.at || d.End() <= b.at
  }

  // No two blocks share a word. Nothing is said of the order they lie in.
  ghost predicate Disjoint(bs: seq<Blk>, hi: nat) {
    && (forall i :: 0 <= i < |bs| ==> 512 <= bs[i].at && bs[i].End() <= hi)
    && (forall i, j :: 0 <= i < j < |bs| ==> Off(bs[i], bs[j]))
  }

  // The header of b lies outside d's, and outside all of d when d is handed out.
  predicate HeadOff(b: Blk, d: Blk) {
    b.at + 4 <= d.at || (if d.used then d.End() else d.at + 4) <= b.at
  }

  // No header lies in another header or in a block handed out. Free blocks may overlap.
  ghost predicate Headed(bs: seq<Blk>, hi: nat) {
    && (forall i :: 0 <= i < |bs| ==>
          512 <= bs[i].at && bs[i].at + 4 <= hi && (bs[i].used ==> bs[i].End() <= hi))
    && (forall i, j :: 0 <= i < |bs| && 0 <= j < |bs| && i != j ==> HeadOff(bs[i], bs[j]))
  }

  lemma DisjointHeaded(bs: seq<Blk>, hi: nat)
    requires Disjoint(bs, hi)
    ensures Headed(bs, hi)
  {
    forall i, j | 0 <= i < |bs| && 0 <= j < |bs| && i != j
      ensures HeadOff(bs[i], bs[j])
    {
      OffAt(bs, hi, i, j);
    }
  }

  lemma OffAt(bs: seq<Blk>, hi: nat, i: nat, j: nat)
    requires Disjoint(bs, hi) && i < |bs| && j < |bs| && i != j
    ensures Off(bs[i], bs[j]) && bs[i].at != bs[j].at
  {
    assert i < j ==> Off(bs[i], bs[j]);
    assert j < i ==> Off(bs[j], bs[i]);
  }

  lemma HeadAt(bs: seq<Blk>, hi: nat, i: nat, j: nat)
    requires Headed(bs, hi) && i < |bs| && j < |bs| && i != j
    ensures HeadOff(bs[i], bs[j]) && HeadOff(bs[j], bs[i])
    ensures bs[i].at + 4 <= bs[j].at || bs[j].at + 4 <= bs[i].at
    ensures bs[i].used && bs[j].used ==> Off(bs[i], bs[j])
  {
  }

  // Blocks in address order share no word.
  lemma StackedDisjoint(bs: seq<Blk>, lo: nat, hi: nat)
    requires Stacked(bs, lo, hi) && lo >= 512
    ensures Disjoint(bs, hi)
  {
    forall i | 0 <= i < |bs|
      ensures 512 <= bs[i].at && bs[i].End() <= hi
    {
      Inside(bs, lo, hi, i);
    }
    forall i, j | 0 <= i < j < |bs|
      ensures Off(bs[i], bs[j])
    {
      Ordered(bs, lo, hi, i, j);
    }
  }

  // ---------- replacing a stretch of the list ----------

  ghost predicate Aside(a: seq<Blk>, b: seq<Blk>) {
    forall x, y :: x in a && y in b ==> Off(x, y)
  }

  lemma DisjointConcat(a: seq<Blk>, b: seq<Blk>, hi: nat)
    ensures Disjoint(a + b, hi) <==> Disjoint(a, hi) && Disjoint(b, hi) && Aside(a, b)
  {
    var s := a + b;
    if Disjoint(s, hi) {
      DisjointParts(a, b, hi);
    }
    if Disjoint(a, hi) && Disjoint(b, hi) && Aside(a, b) {
      forall i, j | 0 <= i < j < |s|
        ensures Off(s[i], s[j])
      {
        if i < |a| <= j {
          assert s[i] in a && s[j] in b;
        }
      }
    }
  }

  lemma DisjointParts(a: seq<Blk>, b: seq<Blk>, hi: nat)
    requires Disjoint(a + b, hi)
    ensures Disjoint(a, hi) && Disjoint(b, hi) && Aside(a, b)
  {
    var s := a + b;
    forall i | 0 <= i < |a|
      ensures 512 <= a[i].at && a[i].End() <= hi
    {
      assert a[i] == s[i];
    }
    forall i | 0 <= i < |b|
      ensures 512 <= b[i].at && b[i].End() <= hi
    {
      assert b[i] == s[|a| + i];
    }
    forall i, j | 0 <= i < j < |a|
      ensures Off(a[i], a[j])
    {
      assert Off(s[i], s[j]);
    }
    forall i, j | 0 <= i < j < |b|
      ensures Off(b[i], b[j])
    {
      assert Off(s[|a| + i], s[|a| + j]);
    }
    forall x, y | x in a && y in b
      ensures Off(x, y)
    {
      var i :| 0 <= i < |a| && a[i] == x;
      var j :| 0 <= j < |b| && b[j] == y;
      assert Off(s[i], s[|a| + j]);
    }
  }

  lemma DisjointThree(a: seq<Blk>, x: seq<Blk>, c: seq<Blk>, hi: nat)
    ensures Disjoint(a + x + c, hi) <==>
            Disjoint(a, hi) && Disjoint(x, hi) && Disjoint(c, hi) && Aside(a, x) && Aside(a, c) && Aside(x, c)
  {
    hide Disjoint;
    DisjointConcat(a + x, c, hi);
    DisjointConcat(a, x, hi);
    assert Aside(a + x, c) <==> Aside(a, c) && Aside(x, c) by {
      AsideConcat(a, x, c);
    }
  }

  lemma AsideConcat(a: seq<Blk>, x: seq<Blk>, c: seq<Blk>)
    ensures Aside(a + x, c) <==> Aside(a, c) && Aside(x, c)
  {
    assert forall b :: b in a + x <==> b in a || b in x;
  }

  lemma DisjointOne(b: Blk, hi: nat)
    ensures Disjoint([b], hi) <==> 512 <= b.at && b.End() <= hi
  {
    assert [b][0] == b;
  }

  lemma AsideOne(a: seq<Blk>, b: Blk)
    ensures Aside(a, [b]) <==> forall x :: x in a ==> Off(x, b)
    ensures Aside([b], a) <==> forall x :: x in a ==> Off(b, x)
  {
    assert b in [b];
  }

  // ---------- heap_split ----------

  // The pieces of a block share no word with another exactly when the block does not.
  lemma CutOff(b: Blk, words: nat, d: Blk)
    ensures (forall x :: x in Cut(b, words) ==> Off(d, x)) <==> Off(d, b)
    ensures (forall x :: x in Placed(b, words) ==> Off(d, x)) <==> Off(d, b)
  {
    var y, p := Cut(b, words), Placed(b, words);
    assert y[0] in y && p[0] in p;
    if |y| == 2 {
      assert y == [y[0], y[1]] && p == [p[0], p[1]];
      assert y[1] in y && p[1] in p;
    } else {
      assert y == [y[0]] && p == [p[0]];
    }
  }

  lemma CutDisjoint(b: Blk, words: nat, hi: nat)
    ensures Disjoint(Cut(b, words), hi) <==> Disjoint([b], hi)
    ensures Disjoint(Placed(b, words), hi) <==> Disjoint([b], hi)
  {
    var y, p := Cut(b, words), Placed(b, words);
    DisjointOne(b, hi);
    assert y[0].at == p[0].at == b.at && y[|y| - 1].End() == p[|p| - 1].End() == b.End();
    if |y| == 2 {
      assert Off(y[0], y[1]) && Off(p[0], p[1]);
    }
  }

  lemma CutAside(b: Blk, words: nat, a: seq<Blk>)
    ensures Aside(a, Cut(b, words)) == Aside(a, [b]) == Aside(a, Placed(b, words))
    ensures Aside(Cut(b, words), a) == Aside([b], a) == Aside(Placed(b, words), a)
  {
    hide Cut, Placed;
    AsideOne(a, b);
    forall d
      ensures (forall x :: x in Cut(b, words) ==> Off(d, x)) <==> Off(d, b)
      ensures (forall x :: x in Placed(b, words) ==> Off(d, x)) <==> Off(d, b)
    {
      CutOff(b, words, d);
    }
  }

  // Cutting a block, and handing it out, keeps the blocks apart; and only blocks
  // that were apart are so afterwards.
  lemma PlaceDisjoint(bs: seq<Blk>, i: nat, words: nat, hi: nat)
    requires i < |bs|
    ensures Disjoint(Split(bs, i, words), hi) <==> Disjoint(bs, hi)
    ensures Disjoint(Place(bs, i, words), hi) <==> Disjoint(bs, hi)
  {
    hide Disjoint, Aside, Cut, Placed;
    var a, c := bs[..i], bs[i + 1..];
    assert bs == a + [bs[i]] + c;
    CutDisjoint(bs[i], words, hi);
    CutAside(bs[i], words, a);
    CutAside(bs[i], words, c);
    DisjointThree(a, [bs[i]], c, hi);
    DisjointThree(a, Cut(bs[i], words), c, hi);
    DisjointThree(a, Placed(bs[i], words), c, hi);
  }

  // ---------- heap_coalesce ----------

  // Between canonical neighbours there is one merge at most to either side.
  lemma CoalesceIs(bs: seq<Blk>, i: nat)
    requires i < |bs| && CanonicalBut(bs, i)
    ensures var s := if i + 1 < |bs| && !bs[i + 1].used then Merge(bs, i) else bs;
            && i < |s| && (i > 0 ==> s[i - 1] == bs[i - 1]) && s[i].at == bs[i].at && MergeNexts(bs, i) == s
            && Coalesce(bs, i) == if i > 0 && !bs[i - 1].used then Merge(s, i - 1) else s
  {
    if i + 1 < |bs| && !bs[i + 1].used {
      var s := Merge(bs, i);
      MergeElems(bs, i);
      if i + 1 < |s| {
        assert s[i + 1] == bs[i + 2] && (bs[i + 2 - 1].used || bs[i + 2].used);
      }
      assert MergeNexts(s, i) == s;
    }
  }

  predicate FreeBefore(bs: seq<Blk>, i: nat)
    requires i < |bs|
  {
    i > 0 && !bs[i - 1].used
  }

  predicate FreeBehind(bs: seq<Blk>, i: nat)
    requires i < |bs|
  {
    i + 1 < |bs| && !bs[i + 1].used
  }

  // The blocks heap_coalesce makes one of, around block i.
  function First(bs: seq<Blk>, i: nat): (f: nat)
    requires i < |bs|
    ensures f <= i
  {
    if FreeBefore(bs, i) then i - 1 else i
  }

  function Beyond(bs: seq<Blk>, i: nat): (k: nat)
    requires i < |bs|
    ensures i < k <= |bs|
  {
    if FreeBehind(bs, i) then i + 2 else i + 1
  }

  // The block it makes: it starts where the first of them does and is as long as
  // all of them, wherever the others lie.
  function Joined(bs: seq<Blk>, i: nat): Blk
    requires i < |bs|
  {
    var before := if FreeBefore(bs, i) then bs[i - 1].words + 4 else 0;
    var behind := if FreeBehind(bs, i) then bs[i + 1].words + 4 else 0;
    Blk(bs[First(bs, i)].at, before + bs[i].words + behind, false)
  }

  lemma CoalesceList(bs: seq<Blk>, i: nat)
    requires i < |bs| && !bs[i].used && CanonicalBut(bs, i)
    ensures Coalesce(bs, i) == bs[..First(bs, i)] + [Joined(bs, i)] + bs[Beyond(bs, i)..]
  {
    hide CanonicalBut, Coalesce, MergeNexts, Merge, Merged;
    CoalesceIs(bs, i);
    if FreeBehind(bs, i) && FreeBefore(bs, i) {
      MergeBoth(bs, i);
    } else if FreeBehind(bs, i) {
      MergeOne(bs, i);
    } else if FreeBefore(bs, i) {
      MergeOne(bs, i - 1);
    } else {
      ThreeParts(bs, i, i + 1);
      assert bs[i..i + 1] == [bs[i]];
    }
  }

  lemma ThreeParts(bs: seq<Blk>, f: nat, k: nat)
    requires f <= k <= |bs|
    ensures bs == bs[..f] + bs[f..k] + bs[k..]
  {
  }

  lemma MergeOne(bs: seq<Blk>, i: nat)
    requires i + 1 < |bs|
    ensures Merge(bs, i) ==
            bs[..i] + [Blk(bs[i].at, bs[i].words + 4 + bs[i + 1].words, bs[i].used)] + bs[i + 2..]
  {
  }

  lemma MergeBoth(bs: seq<Blk>, i: nat)
    requires 0 < i && i + 1 < |bs|
    ensures Merge(Merge(bs, i), i - 1) ==
            bs[..i - 1] + [Blk(bs[i - 1].at, bs[i - 1].words + 4 + bs[i].words + 4 + bs[i + 1].words, bs[i - 1].used)]
            + bs[i + 2..]
  {
    var t := Merge(bs, i);
    assert t[..i - 1] == bs[..i - 1] && t[i + 1..] == bs[i + 2..];
    MergeElems(bs, i);
    hide Merge;
    MergeOne(t, i - 1);
  }

  // The block it makes ends in memory and meets no other block.
  ghost predicate Clears(bs: seq<Blk>, i: nat, hi: nat)
    requires i < |bs|
  {
    var b := Joined(bs, i);
    && b.End() <= hi
    && (forall x :: x in bs[..First(bs, i)] ==> Off(x, b))
    && (forall x :: x in bs[Beyond(bs, i)..] ==> Off(b, x))
  }

  // heap_coalesce compares no addresses: it keeps the blocks apart exactly when
  // the block it makes clears the others.
  lemma CoalesceDisjoint(bs: seq<Blk>, i: nat, hi: nat)
    requires i < |bs| && !bs[i].used && CanonicalBut(bs, i) && Disjoint(bs, hi)
    ensures Disjoint(Coalesce(bs, i), hi) <==> Clears(bs, i, hi)
  {
    var b, a, c := Joined(bs, i), bs[..First(bs, i)], bs[Beyond(bs, i)..];
    assert b.at >= 512;
    CoalesceList(bs, i);
    ThreeParts(bs, First(bs, i), Beyond(bs, i));
    hide Disjoint, Coalesce, CanonicalBut, Joined, Aside;
    DisjointThree(a, bs[First(bs, i)..Beyond(bs, i)], c, hi);
    DisjointThree(a, [b], c, hi);
    DisjointOne(b, hi);
    AsideOne(a, b);
    AsideOne(c, b);
  }

  // kfree likewise.
  lemma ReleaseDisjoint(bs: seq<Blk>, i: nat, hi: nat)
    requires i < |bs| && bs[i].used && Canonical(bs) && Disjoint(bs, hi)
    ensures Disjoint(Release(bs, i), hi) <==> Clears(bs, i, hi)
  {
    FreedApart(bs, i, hi);
    hide Disjoint, Canonical, CanonicalBut, Coalesce, Clears, Freed;
    CoalesceDisjoint(Freed(bs, i), i, hi);
  }

  lemma FreedApart(bs: seq<Blk>, i: nat, hi: nat)
    requires i < |bs| && bs[i].used && Canonical(bs)
    ensures var t := Freed(bs, i);
            && i < |t| && !t[i].used && CanonicalBut(t, i)
            && (Disjoint(bs, hi) ==> Disjoint(t, hi)) && (Clears(t, i, hi) <==> Clears(bs, i, hi))
  {
    FreedSame(bs, i);
    if Disjoint(bs, hi) {
      FreedDisjoint(bs, i, hi);
    }
  }

  lemma FreedSame(bs: seq<Blk>, i: nat)
    requires i < |bs|
    ensures var t := Freed(bs, i);
            && i < |t| && Joined(t, i) == Joined(bs, i)
            && t[..First(t, i)] == bs[..First(bs, i)] && t[Beyond(t, i)..] == bs[Beyond(bs, i)..]
  {
    var t := Freed(bs, i);
    assert i > 0 ==> t[i - 1] == bs[i - 1];
    assert i + 1 < |bs| ==> t[i + 1] == bs[i + 1];
  }

  lemma FreedDisjoint(bs: seq<Blk>, i: nat, hi: nat)
    requires i < |bs| && Disjoint(bs, hi)
    ensures Disjoint(Freed(bs, i), hi)
  {
    var t := Freed(bs, i);
    forall j, k | 0 <= j < k < |t|
      ensures Off(t[j], t[k])
    {
      assert Off(bs[j], bs[k]);
    }
  }

  lemma FreedHeaded(bs: seq<Blk>, i: nat, hi: nat)
    requires i < |bs| && Headed(bs, hi)
    ensures Headed(Freed(bs, i), hi)
  {
    var t := Freed(bs, i);
    forall j, k | 0 <= j < |t| && 0 <= k < |t| && j != k
      ensures HeadOff(t[j], t[k])
    {
      assert HeadOff(bs[j], bs[k]);
    }
  }

  // Freed blocks in address order are always clear of each other.
  lemma OrderedClears(bs: seq<Blk>, i: nat, lo: nat, hi: nat)
    requires i < |bs| && bs[i].used && Canonical(bs) && Stacked(bs, lo, hi) && lo >= 512
    ensures Clears(bs, i, hi)
  {
    hide Stacked, Canonical, Release, Disjoint, Clears, Live, Words;
    StackedDisjoint(bs, lo, hi);
    ReleaseKeeps(bs, i, lo, hi);
    StackedDisjoint(Release(bs, i), lo, hi);
    ReleaseDisjoint(bs, i, hi);
  }

  // A merge adds no header and no block handed out.
  lemma MergeHeaded(bs: seq<Blk>, i: nat, hi: nat)
    requires i + 1 < |bs| && !bs[i].used && Headed(bs, hi)
    ensures Headed(Merge(bs, i), hi)
  {
    var t := Merge(bs, i);
    MergeElems(bs, i);
    hide Merge;
    forall j, k | 0 <= j < |t| && 0 <= k < |t| && j != k
      ensures HeadOff(t[j], t[k])
    {
      HeadAt(bs, hi, if j <= i then j else j + 1, if k <= i then k else k + 1);
    }
  }

  // ---------- growing by a page ----------

  // A page at that word meets no block.
  predicate Fresh(bs: seq<Blk>, at: nat) {
    forall b :: b in bs ==> Off(b, Blk(at, 508, false))
  }

  // The words a free tail grows into are no block's.
  predicate Room(bs: seq<Blk>, hi: nat)
    requires bs != []
  {
    && End(bs) + 512 <= hi
    && forall b :: b in bs[..|bs| - 1] ==> b.End() <= End(bs) || End(bs) + 512 <= b.at
  }

  lemma AppendedDisjoint(bs: seq<Blk>, at: nat, hi: nat)
    requires Disjoint(bs, hi) && at >= 512 && at + 512 <= hi
    ensures Disjoint(Appended(bs, at), hi) <==> Fresh(bs, at)
  {
    var b := Blk(at, 508, false);
    hide Disjoint, Aside;
    DisjointConcat(bs, [b], hi);
    DisjointOne(b, hi);
    AsideOne(bs, b);
  }

  // Growing keeps the blocks apart exactly when the page meets none of them
  // behind a used tail, and when a free tail has room where it lies for the 4096
  // bytes it gets.
  lemma GrowDisjoint(bs: seq<Blk>, at: nat, hi: nat)
    requires bs != [] && Disjoint(bs, hi) && at >= 512 && at + 512 <= hi
    ensures Disjoint(Grow(bs, at), hi) <==> if bs[|bs| - 1].used then Fresh(bs, at) else Room(bs, hi)
  {
    GrowIs(bs, at);
    var last := bs[|bs| - 1];
    var a, b := bs[..|bs| - 1], last.(words := last.words + 512);
    if last.used {
      AppendedDisjoint(bs, at, hi);
    } else {
      assert bs == a + [last];
      RoomIs(bs, hi);
      hide Disjoint, Aside;
      DisjointConcat(a, [last], hi);
      DisjointConcat(a, [b], hi);
      DisjointOne(last, hi);
      DisjointOne(b, hi);
      AsideOne(a, b);
    }
  }

  lemma RoomIs(bs: seq<Blk>, hi: nat)
    requires bs != [] && Disjoint(bs, hi)
    ensures var last := bs[|bs| - 1]; var b := Blk(last.at, last.words + 512, false);
            Room(bs, hi) <==> b.End() <= hi && forall x :: x in bs[..|bs| - 1] ==> Off(x, b)
  {
    var last := bs[|bs| - 1];
    var b := Blk(last.at, last.words + 512, false);
    forall x | x in bs[..|bs| - 1]
      ensures Off(x, b) <==> x.End() <= End(bs) || End(bs) + 512 <= x.at
    {
      var j :| 0 <= j < |bs| - 1 && bs[j] == x;
      OffAt(bs, hi, j, |bs| - 1);
    }
  }

  // ---------- kmalloc ----------

  // What the pages a call takes must satisfy: a page that is linked behind other
  // blocks meets none of them, and a free tail that swallows it has room.
  predicate Fitting(bs: seq<Blk>, words: nat, pages: seq<nat>, hi: nat) {
    bs != [] && Taken(bs, words, pages) > 0 ==> Fresh(bs, pages[0]) && (bs[|bs| - 1].used || Room(bs, hi))
  }
}
