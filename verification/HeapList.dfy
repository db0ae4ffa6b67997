// The block list of the kernel heap as a value: what first fit, splitting and
// coalescing do to it. Positions and sizes are in 8-byte words; a block has a
// header of 4 words, and a page is 512 words.

module HeapList {
  import opened Machine

  datatype Blk = Blk(at: nat, words: nat, used: bool) {
    function End(): nat { at + 4 + words }
  }

  // The blocks, headers included, lie between lo and hi in address order
  // without overlap; there may be gaps between them.
  ghost predicate Stacked(bs: seq<Blk>, lo: nat, hi: nat) {
    && |bs| > 0 && bs[0].at == lo && bs[|bs| - 1].End() <= hi
    && forall i :: 0 < i < |bs| ==> bs[i - 1].End() <= bs[i].at
  }

  // They cover lo to hi without a gap.
  ghost predicate Tiles(bs: seq<Blk>, lo: nat, hi: nat) {
    && |bs| > 0 && bs[0].at == lo && bs[|bs| - 1].End() == hi
    && forall i :: 0 < i < |bs| ==> bs[i].at == bs[i - 1].End()
  }

  // The end of the tail, 0 for an empty list.
  function End(bs: seq<Blk>): nat {
    if bs == [] then 0 else bs[|bs| - 1].End()
  }

  // Word k lies in block b, or in some block.
  predicate Spans(b: Blk, k: nat) {
    b.at <= k < b.End()
  }

  ghost predicate InBlocks(bs: seq<Blk>, k: nat) {
    exists i :: 0 <= i < |bs| && Spans(bs[i], k)
  }

  // No two neighbours are both free.
  ghost predicate Canonical(bs: seq<Blk>) {
    forall i :: 0 < i < |bs| ==> bs[i - 1].used || bs[i].used
  }

  // The blocks handed out, in list order.
  function Live(bs: seq<Blk>): seq<Blk> {
    if bs == [] then [] else (if bs[0].used then [bs[0]] else []) + Live(bs[1..])
  }

  function Words(bs: seq<Blk>): nat {
    if bs == [] then 0 else bs[0].words + Words(bs[1..])
  }

  function FreeWords(bs: seq<Blk>): nat {
    if bs == [] then 0 else (if bs[0].used then 0 else bs[0].words) + FreeWords(bs[1..])
  }

  // Headers and payloads together.
  function Total(bs: seq<Blk>): nat {
    if bs == [] then 0 else 4 + bs[0].words + Total(bs[1..])
  }

  lemma {:induction false} LiveOfConcat(a: seq<Blk>, b: seq<Blk>)
    ensures Live(a + b) == Live(a) + Live(b)
  {
    if a == [] {
      assert a + b == b;
    } else {
      var head := if a[0].used then [a[0]] else [];
      assert (a + b)[0] == a[0] && (a + b)[1..] == a[1..] + b;
      LiveOfConcat(a[1..], b);
      assert Live(a + b) == head + (Live(a[1..]) + Live(b));
    }
  }

  lemma {:induction false} WordsOfConcat(a: seq<Blk>, b: seq<Blk>)
    ensures Words(a + b) == Words(a) + Words(b)
  {
    if a == [] {
      assert a + b == b;
    } else {
      assert (a + b)[1..] == a[1..] + b;
      WordsOfConcat(a[1..], b);
    }
  }

  lemma LiveOne(b: Blk)
    ensures Live([b]) == if b.used then [b] else []
    ensures Words([b]) == b.words
  {
    assert [b][1..] == [];
  }

  // Free neighbours, whatever their shape, do not show in the live list.
  lemma LiveReplaced(a: seq<Blk>, x: seq<Blk>, y: seq<Blk>, c: seq<Blk>)
    ensures Live(a + x + c) == Live(a) + Live(x) + Live(c)
    ensures Live(x) == Live(y) ==> Live(a + x + c) == Live(a + y + c)
  {
    LiveOfConcat(a + x, c);
    LiveOfConcat(a, x);
    LiveOfConcat(a + y, c);
    LiveOfConcat(a, y);
  }

  // Blocks in list order lie in address order.
  lemma {:induction false} Ordered(bs: seq<Blk>, lo: nat, hi: nat, i: nat, j: nat)
    requires Stacked(bs, lo, hi) && i < j < |bs|
    ensures bs[i].End() <= bs[j].at
  {
    if i < j - 1 {
      Ordered(bs, lo, hi, i, j - 1);
    }
  }

  lemma Inside(bs: seq<Blk>, lo: nat, hi: nat, i: nat)
    requires Stacked(bs, lo, hi) && i < |bs|
    ensures lo <= bs[i].at && bs[i].End() <= hi
  {
    if i > 0 {
      Ordered(bs, lo, hi, 0, i);
    }
    if i < |bs| - 1 {
      Ordered(bs, lo, hi, i, |bs| - 1);
    }
  }

  lemma BeforeEnd(bs: seq<Blk>, lo: nat, hi: nat, i: nat)
    requires Stacked(bs, lo, hi) && i < |bs|
    ensures bs[i].End() <= End(bs)
  {
    if i < |bs| - 1 {
      Ordered(bs, lo, hi, i, |bs| - 1);
    }
  }

  lemma {:induction false} LiveIsUsed(bs: seq<Blk>, b: Blk)
    ensures b in Live(bs) <==> b in bs && b.used
  {
    if bs != [] {
      LiveIsUsed(bs[1..], b);
    }
  }

  // Headers, used words and free words are all there is.
  lemma {:induction false} Accounted(bs: seq<Blk>)
    ensures Total(bs) == 4 * |bs| + Words(Live(bs)) + FreeWords(bs)
  {
    if bs != [] {
      Accounted(bs[1..]);
      WordsOfConcat(if bs[0].used then [bs[0]] else [], Live(bs[1..]));
      LiveOne(bs[0]);
    }
  }

  // Ordered blocks leave no gap exactly when their sizes add up to the span.
  lemma {:induction false} TilesExactly(bs: seq<Blk>, lo: nat, hi: nat)
    requires Stacked(bs, lo, hi)
    ensures Total(bs) <= hi - lo
    ensures Tiles(bs, lo, hi) <==> Total(bs) == hi - lo
  {
    if |bs| == 1 {
      assert bs[1..] == [];
    } else {
      var rest := bs[1..];
      assert rest[0] == bs[1] && rest[|rest| - 1] == bs[|bs| - 1];
      forall i | 0 < i < |rest|
        ensures rest[i - 1] == bs[i] && rest[i] == bs[i + 1] && rest[i - 1].End() <= rest[i].at
      {
        assert bs[i + 1 - 1].End() <= bs[i + 1].at;
      }
      assert bs[1 - 1].End() <= bs[1].at;
      TilesExactly(rest, rest[0].at, hi);
      TilesRest(bs, lo, hi);
    }
  }

  lemma TilesRest(bs: seq<Blk>, lo: nat, hi: nat)
    requires |bs| > 1 && bs[0].at == lo
    ensures Tiles(bs, lo, hi) <==> Tiles(bs[1..], bs[1].at, hi) && bs[1].at == bs[0].End()
  {
    var rest := bs[1..];
    assert forall i :: 0 < i < |bs| ==> bs[i] == rest[i - 1];
    if Tiles(rest, bs[1].at, hi) && bs[1].at == bs[0].End() {
      forall i | 0 < i < |bs|
        ensures bs[i].at == bs[i - 1].End()
      {
        if i > 1 {
          assert rest[i - 1].at == rest[i - 1 - 1].End();
        }
      }
    }
    if Tiles(bs, lo, hi) {
      forall i | 0 < i < |rest|
        ensures rest[i].at == rest[i - 1].End()
      {
        assert bs[i + 1].at == bs[i + 1 - 1].End();
      }
      assert bs[1].at == bs[1 - 1].End();
    }
  }

  // ---------- replacing a stretch of the list ----------

  // One or two blocks in place of one or two, over the same words.
  lemma Replaced(a: seq<Blk>, x: seq<Blk>, y: seq<Blk>, c: seq<Blk>, lo: nat, hi: nat)
    requires Stacked(a + x + c, lo, hi) && 1 <= |x| <= 2 && 1 <= |y| <= 2
    requires x[0].at == y[0].at && y[|y| - 1].End() <= x[|x| - 1].End()
    requires |y| == 2 ==> y[1].at == y[0].End()
    ensures Stacked(a + y + c, lo, hi)
  {
    var s, t := a + x + c, a + y + c;
    forall i | 0 < i < |t|
      ensures t[i - 1].End() <= t[i].at
    {
      if i < |a| {
        assert s[i - 1].End() <= s[i].at;
      } else if i == |a| {
        assert s[i - 1].End() <= s[i].at;
      } else if i < |a| + |y| {
      } else {
        var j := i - |y| + |x|;
        assert s[j - 1].End() <= s[j].at;
      }
    }
    if c != [] {
      assert s[|s| - 1] == t[|t| - 1];
    }
  }

  // ---------- heap_split ----------

  // Block b cut to the given size when the rest can hold a block of its own.
  function Cut(b: Blk, words: nat): (y: seq<Blk>)
    ensures 1 <= |y| <= 2 && y[0].at == b.at
  {
    if b.words < words + 5 then [b]
    else [b.(words := words), Blk(b.at + 4 + words, b.words - words - 4, false)]
  }

  // Block i cut to size and handed out.
  function Placed(b: Blk, words: nat): (y: seq<Blk>)
    ensures 1 <= |y| <= 2 && y[0].at == b.at
  {
    Cut(b, words)[0 := Cut(b, words)[0].(used := true)]
  }

  function Split(bs: seq<Blk>, i: nat, words: nat): seq<Blk>
    requires i < |bs|
  {
    bs[..i] + Cut(bs[i], words) + bs[i + 1..]
  }

  function Place(bs: seq<Blk>, i: nat, words: nat): seq<Blk>
    requires i < |bs|
  {
    bs[..i] + Placed(bs[i], words) + bs[i + 1..]
  }

  lemma SplitStacked(bs: seq<Blk>, i: nat, words: nat, lo: nat, hi: nat)
    requires i < |bs| && Stacked(bs, lo, hi)
    ensures Stacked(Split(bs, i, words), lo, hi)
    ensures Stacked(Place(bs, i, words), lo, hi)
  {
    assert bs == bs[..i] + [bs[i]] + bs[i + 1..];
    Replaced(bs[..i], [bs[i]], Cut(bs[i], words), bs[i + 1..], lo, hi);
    Replaced(bs[..i], [bs[i]], Placed(bs[i], words), bs[i + 1..], lo, hi);
  }

  // heap_split followed by used = true.
  lemma PlaceIsSplitAndMark(bs: seq<Blk>, i: nat, words: nat)
    requires i < |bs|
    ensures i < |Split(bs, i, words)|
    ensures Split(bs, i, words)[i := Split(bs, i, words)[i].(used := true)] == Place(bs, i, words)
    ensures Split(bs, i, words)[i] == Cut(bs[i], words)[0]
    ensures Place(bs, i, words)[i] == Placed(bs[i], words)[0] == Cut(bs[i], words)[0].(used := true)
  {
  }

  lemma SplitElems(bs: seq<Blk>, i: nat, words: nat)
    requires i < |bs| && bs[i].words >= words + 5
    ensures var t := Split(bs, i, words);
            && |t| == |bs| + 1
            && (forall k :: 0 <= k < i ==> t[k] == bs[k])
            && t[i] == bs[i].(words := words)
            && t[i + 1] == Blk(bs[i].at + 4 + words, bs[i].words - words - 4, false)
            && (forall k :: i + 1 < k < |t| ==> t[k] == bs[k - 1])
  {
  }

  lemma SplitLive(bs: seq<Blk>, i: nat, words: nat)
    requires i < |bs| && !bs[i].used
    ensures Live(Split(bs, i, words)) == Live(bs)
  {
    var a, c, y := bs[..i], bs[i + 1..], Cut(bs[i], words);
    LiveOne(bs[i]);
    LiveOne(y[0]);
    if |y| == 2 {
      assert y == [y[0]] + [y[1]];
      LiveOfConcat([y[0]], [y[1]]);
      LiveOne(y[1]);
    }
    hide Live;
    assert bs == a + [bs[i]] + c;
    LiveReplaced(a, [bs[i]], y, c);
  }

  lemma PlaceCanonical(bs: seq<Blk>, i: nat, words: nat)
    requires i < |bs| && Canonical(bs) && !bs[i].used
    ensures Canonical(Place(bs, i, words))
  {
    var y := Placed(bs[i], words);
    var t := Place(bs, i, words);
    forall k | 0 < k < |t|
      ensures t[k - 1].used || t[k].used
    {
      if k < i {
        assert bs[k - 1].used || bs[k].used;
      } else if k >= i + |y| {
        var j := k - |y| + 1;
        assert bs[j - 1].used || bs[j].used;
      }
    }
  }

  lemma PlacedLive(b: Blk, words: nat)
    requires !b.used && words <= b.words
    ensures var y := Placed(b, words);
            Live(y) == [y[0]] && y[0].used && y[0].at == b.at && words <= y[0].words <= words + 4
  {
    var y := Placed(b, words);
    assert y == [y[0]] + y[1..];
    LiveOfConcat([y[0]], y[1..]);
    LiveOne(y[0]);
    if |y| == 2 {
      assert y[1..] == [y[1]];
      LiveOne(y[1]);
    }
  }

  // Placing adds one live block, of the size asked for with at most four words to spare.
  lemma PlaceLive(bs: seq<Blk>, i: nat, words: nat)
    requires i < |bs| && !bs[i].used && words <= bs[i].words
    ensures var b := Placed(bs[i], words)[0];
            && b.used && b.at == bs[i].at && words <= b.words <= words + 4
            && Live(Place(bs, i, words)) == Live(bs[..i]) + [b] + Live(bs[i + 1..])
            && Live(bs) == Live(bs[..i]) + Live(bs[i + 1..])
            && Words(Live(Place(bs, i, words))) == Words(Live(bs)) + b.words
  {
    hide Live, Words, Placed, Place;
    PlacedLive(bs[i], words);
    PlaceLists(bs, i, words);
    WordsOfThree(Live(bs[..i]), Placed(bs[i], words)[0], Live(bs[i + 1..]));
  }

  lemma PlaceLists(bs: seq<Blk>, i: nat, words: nat)
    requires i < |bs| && !bs[i].used && words <= bs[i].words
    ensures Live(Place(bs, i, words)) == Live(bs[..i]) + [Placed(bs[i], words)[0]] + Live(bs[i + 1..])
    ensures Live(bs) == Live(bs[..i]) + Live(bs[i + 1..])
  {
    hide Live, Placed;
    var a, c := bs[..i], bs[i + 1..];
    PlacedLive(bs[i], words);
    LiveReplaced(a, Placed(bs[i], words), [], c);
    LiveReplaced(a, [bs[i]], [], c);
    LiveOne(bs[i]);
    assert bs == a + [bs[i]] + c;
  }

  lemma WordsOfThree(a: seq<Blk>, b: Blk, c: seq<Blk>)
    ensures Words(a + [b] + c) == Words(a + c) + b.words
  {
    hide Words;
    WordsOfConcat(a + [b], c);
    WordsOfConcat(a, [b]);
    WordsOfConcat(a, c);
    LiveOne(b);
  }

  // ---------- heap_coalesce ----------

  function Merged(b: Blk, d: Blk): Blk {
    b.(words := b.words + 4 + d.words)
  }

  // Block i swallows block i + 1.
  function Merge(bs: seq<Blk>, i: nat): (t: seq<Blk>)
    requires i + 1 < |bs|
    ensures |t| == |bs| - 1 && t[..i] == bs[..i]
  {
    bs[..i] + [Merged(bs[i], bs[i + 1])] + bs[i + 2..]
  }

  // Block i swallows the free blocks that follow it.
  function MergeNexts(bs: seq<Blk>, i: nat): (t: seq<Blk>)
    requires i < |bs|
    ensures i < |t| <= |bs| && t[..i] == bs[..i]
    decreases |bs|
  {
    if i + 1 < |bs| && !bs[i + 1].used then MergeNexts(Merge(bs, i), i) else bs
  }

  function Coalesce(bs: seq<Blk>, i: nat): seq<Blk>
    requires i < |bs|
  {
    var s := MergeNexts(bs, i);
    if i > 0 && !bs[i - 1].used then Merge(s, i - 1) else s
  }

  lemma MergeStacked(bs: seq<Blk>, i: nat, lo: nat, hi: nat)
    requires i + 1 < |bs| && Stacked(bs, lo, hi)
    ensures Stacked(Merge(bs, i), lo, hi)
  {
    assert bs == bs[..i] + [bs[i], bs[i + 1]] + bs[i + 2..];
    Replaced(bs[..i], [bs[i], bs[i + 1]], [Merged(bs[i], bs[i + 1])], bs[i + 2..], lo, hi);
  }

  lemma MergeElems(bs: seq<Blk>, i: nat)
    requires i + 1 < |bs|
    ensures var t := Merge(bs, i);
            && |t| == |bs| - 1
            && (forall k :: 0 <= k < i ==> t[k] == bs[k])
            && t[i] == Merged(bs[i], bs[i + 1])
            && (forall k :: i < k < |t| ==> t[k] == bs[k + 1])
  {
  }

  lemma MergeLive(bs: seq<Blk>, i: nat)
    requires i + 1 < |bs| && !bs[i].used && !bs[i + 1].used
    ensures Live(Merge(bs, i)) == Live(bs) && !Merge(bs, i)[i].used
  {
    var x, y := [bs[i], bs[i + 1]], [Merged(bs[i], bs[i + 1])];
    assert bs == bs[..i] + x + bs[i + 2..];
    assert x == [x[0]] + [x[1]];
    LiveOfConcat([x[0]], [x[1]]);
    LiveOne(x[0]);
    LiveOne(x[1]);
    LiveOne(y[0]);
    LiveReplaced(bs[..i], x, y, bs[i + 2..]);
  }

  // No two neighbours are both free, except perhaps where block i is one of them.
  ghost predicate CanonicalBut(bs: seq<Blk>, i: nat) {
    forall k :: 0 < k < |bs| && k != i && k - 1 != i ==> bs[k - 1].used || bs[k].used
  }

  lemma {:induction false} MergeNextsKeeps(bs: seq<Blk>, i: nat)
    requires i < |bs| && !bs[i].used && CanonicalBut(bs, i)
    ensures var t := MergeNexts(bs, i);
            && CanonicalBut(t, i) && Live(t) == Live(bs) && !t[i].used && (i + 1 < |t| ==> t[i + 1].used)
    decreases |bs|
  {
    if i + 1 < |bs| && !bs[i + 1].used {
      MergeLive(bs, i);
      var s := Merge(bs, i);
      forall k | 0 < k < |s| && k != i && k - 1 != i
        ensures s[k - 1].used || s[k].used
      {
        if k < i {
          assert s[k - 1] == bs[k - 1] && s[k] == bs[k];
        } else {
          assert s[k - 1] == bs[k] && s[k] == bs[k + 1];
        }
      }
      MergeNextsKeeps(s, i);
    }
  }

  lemma {:induction false} MergeNextsStacked(bs: seq<Blk>, i: nat, lo: nat, hi: nat)
    requires i < |bs| && Stacked(bs, lo, hi)
    ensures Stacked(MergeNexts(bs, i), lo, hi)
    decreases |bs|
  {
    if i + 1 < |bs| && !bs[i + 1].used {
      MergeStacked(bs, i, lo, hi);
      MergeNextsStacked(Merge(bs, i), i, lo, hi);
    }
  }

  lemma MergePrevCanonical(s: seq<Blk>, i: nat)
    requires 0 < i < |s| && CanonicalBut(s, i) && (i + 1 < |s| ==> s[i + 1].used)
    ensures Canonical(Merge(s, i - 1))
  {
    var t := Merge(s, i - 1);
    forall k | 0 < k < |t|
      ensures t[k - 1].used || t[k].used
    {
      if k < i {
        assert t[k - 1] == s[k - 1] && t[k].used == s[k].used;
        assert s[k - 1].used || s[k].used;
      } else if k == i {
        assert t[k] == s[k + 1];
      } else {
        assert t[k - 1] == s[k] && t[k] == s[k + 1];
        assert s[k].used || s[k + 1].used;
      }
    }
  }

  // Coalescing around the one block that may have free neighbours restores a
  // canonical list with the same live blocks, wherever the blocks lie.
  lemma CoalesceCanonical(bs: seq<Blk>, i: nat)
    requires i < |bs| && !bs[i].used && CanonicalBut(bs, i)
    ensures Canonical(Coalesce(bs, i)) && Live(Coalesce(bs, i)) == Live(bs)
  {
    hide Live, MergeNexts;
    var s := MergeNexts(bs, i);
    MergeNextsKeeps(bs, i);
    assert i > 0 ==> s[..i][i - 1] == bs[..i][i - 1];
    if i > 0 && !bs[i - 1].used {
      MergeLive(s, i - 1);
      MergePrevCanonical(s, i);
    } else {
      StillCanonical(s, i);
    }
  }

  // And it covers the same words when the list did so without gaps.
  lemma CoalesceKeeps(bs: seq<Blk>, i: nat, lo: nat, hi: nat)
    requires i < |bs| && !bs[i].used && Stacked(bs, lo, hi) && CanonicalBut(bs, i)
    ensures var t := Coalesce(bs, i);
            Stacked(t, lo, hi) && Canonical(t) && Live(t) == Live(bs)
  {
    hide Live, Stacked, MergeNexts;
    var s := MergeNexts(bs, i);
    CoalesceCanonical(bs, i);
    MergeNextsStacked(bs, i, lo, hi);
    if i > 0 && !bs[i - 1].used {
      MergeStacked(s, i - 1, lo, hi);
    }
  }

  lemma StillCanonical(s: seq<Blk>, i: nat)
    requires i < |s| && CanonicalBut(s, i) && (i + 1 < |s| ==> s[i + 1].used) && (i > 0 ==> s[i - 1].used)
    ensures Canonical(s)
  {
  }

  // ---------- first fit ----------

  predicate Fits(b: Blk, words: nat) {
    !b.used && b.words >= words
  }

  // The first block that fits, or |bs|.
  function FirstFit(bs: seq<Blk>, words: nat): (i: nat)
    ensures i <= |bs| && (i < |bs| ==> Fits(bs[i], words))
    ensures forall j :: 0 <= j < i ==> !Fits(bs[j], words)
  {
    if bs == [] then 0
    else if Fits(bs[0], words) then 0
    else 1 + FirstFit(bs[1..], words)
  }

  // ---------- growing by a page ----------

  // A fresh page linked behind the tail, merged into it when the tail is free.
  function Grow(bs: seq<Blk>, at: nat): seq<Blk> {
    Coalesce(Appended(bs, at), |bs|)
  }

  function Appended(bs: seq<Blk>, at: nat): seq<Blk> {
    bs + [Blk(at, 508, false)]
  }

  lemma GrowIs(bs: seq<Blk>, at: nat)
    requires |bs| > 0
    ensures var last := bs[|bs| - 1];
            Grow(bs, at) == if last.used then bs + [Blk(at, 508, false)]
                            else bs[..|bs| - 1] + [last.(words := last.words + 512)]
  {
    var s := Appended(bs, at);
    assert MergeNexts(s, |bs|) == s;
    assert s[|bs| - 1] == bs[|bs| - 1];
    if !bs[|bs| - 1].used {
      assert s[..|bs| - 1] == bs[..|bs| - 1] && s[|bs| + 1..] == [];
    }
  }

  lemma AppendedBut(bs: seq<Blk>, b: Blk)
    requires Canonical(bs)
    ensures CanonicalBut(bs + [b], |bs|)
  {
  }

  lemma AppendedStacked(bs: seq<Blk>, at: nat, lo: nat, hi: nat)
    requires Stacked(bs, lo, hi) && End(bs) <= at && at + 512 <= hi
    ensures Stacked(Appended(bs, at), lo, hi)
  {
    var s := Appended(bs, at);
    forall i | 0 < i < |s|
      ensures s[i - 1].End() <= s[i].at
    {
      if i < |bs| {
        assert bs[i - 1].End() <= bs[i].at;
      }
    }
  }

  // A page at or beyond the end of the tail keeps the order, the live blocks
  // and the canonical form.
  lemma GrowKeeps(bs: seq<Blk>, at: nat, lo: nat, hi: nat)
    requires Stacked(bs, lo, hi) && Canonical(bs) && End(bs) <= at && at + 512 <= hi
    ensures Stacked(Grow(bs, at), lo, hi) && Canonical(Grow(bs, at)) && Live(Grow(bs, at)) == Live(bs)
    ensures End(Grow(bs, at)) <= at + 512
  {
    GrowIs(bs, at);
    AppendedBut(bs, Blk(at, 508, false));
    AppendedStacked(bs, at, lo, hi);
    AppendedLive(bs, at);
    hide Live, Coalesce, Stacked, Canonical, CanonicalBut;
    CoalesceKeeps(Appended(bs, at), |bs|, lo, hi);
  }

  lemma AppendedLive(bs: seq<Blk>, at: nat)
    ensures Live(Appended(bs, at)) == Live(bs)
  {
    var b := Blk(at, 508, false);
    LiveOne(b);
    LiveOfConcat(bs, [b]);
  }

  // A failed search followed by a page succeeds exactly when the free tail with
  // the page, or the page alone behind a used tail, is large enough.
  lemma GrowthLaw(bs: seq<Blk>, words: nat, at: nat)
    requires |bs| > 0 && FirstFit(bs, words) == |bs|
    ensures var i := FirstFit(Grow(bs, at), words);
            && (i < |Grow(bs, at)| <==> words <= TailRoom(bs) + 512)
            && (i < |Grow(bs, at)| ==> i == |Grow(bs, at)| - 1)
  {
    GrowIs(bs, at);
    hide Grow;
    var t, n := Grow(bs, at), |bs|;
    forall j | 0 <= j < |t| - 1
      ensures !Fits(t[j], words)
    {
      assert t[j] == bs[j];
    }
    assert Fits(t[|t| - 1], words) <==> words <= if bs[n - 1].used then 508 else bs[n - 1].words + 512;
  }

  // The words the tail would hold without its next page: -4 for a used tail,
  // whose new neighbour spends 4 of 512 words on a header, and for no tail.
  function TailRoom(bs: seq<Blk>): int {
    if bs == [] || bs[|bs| - 1].used then -4 else bs[|bs| - 1].words
  }

  // ---------- kmalloc ----------

  // What kmalloc leaves: the list, the payload it returns, and the pages it has
  // not taken.
  datatype Result = Result(bs: seq<Blk>, payload: Option<nat>, left: seq<nat>)

  // The list kmalloc searches first: a heap without pages takes one.
  function Started(bs: seq<Blk>, pages: seq<nat>): seq<Blk> {
    if bs == [] && pages != [] then [Blk(pages[0], 508, false)] else bs
  }

  function Unstarted(bs: seq<Blk>, pages: seq<nat>): seq<nat> {
    if bs == [] && pages != [] then pages[1..] else pages
  }

  // What kmalloc does for a request of that many words, when the pages that can
  // still be had start at these words, in the order they are handed out.
  function Allocate(bs: seq<Blk>, words: nat, pages: seq<nat>): (r: Result)
    ensures |r.left| <= |pages| && r.left == pages[|pages| - |r.left|..]
  {
    var s, left := Started(bs, pages), Unstarted(bs, pages);
    if s == [] then Result(s, None, left)
    else
      var i := FirstFit(s, words);
      if i < |s| then Result(Place(s, i, words), Some(s[i].at + 4), left)
      else if left == [] then Result(s, None, left)
      else
        var t := Grow(s, left[0]);
        var j := FirstFit(t, words);
        if j < |t| then Result(Place(t, j, words), Some(t[j].at + 4), left[1..]) else Result(t, None, left[1..])
  }

  // How many pages the call takes: none, one, or two when the heap had none.
  function Taken(bs: seq<Blk>, words: nat, pages: seq<nat>): (n: nat)
    ensures n <= |pages|
  {
    |pages| - |Allocate(bs, words, pages).left|
  }

  lemma TakenIs(bs: seq<Blk>, words: nat, pages: seq<nat>)
    ensures Taken(bs, words, pages) <= if bs == [] then 2 else 1
    ensures bs != [] ==>
              (Taken(bs, words, pages) == 1 <==> pages != [] && FirstFit(bs, words) == |bs|)
    ensures bs == [] && pages == [] ==> Taken(bs, words, pages) == 0
    ensures bs == [] && pages != [] ==>
              Taken(bs, words, pages) == if words <= 508 || |pages| == 1 then 1 else 2
  {
    hide Grow, Place;
    if bs == [] && pages != [] {
      OneFits(pages[0], words);
    }
  }

  lemma OneFits(at: nat, words: nat)
    ensures FirstFit([Blk(at, 508, false)], words) == if words <= 508 then 0 else 1
  {
    assert [Blk(at, 508, false)][1..] == [];
  }

  // kmalloc succeeds exactly when a block fits as it is, or a page can be had
  // and the tail grown by it is large enough; an empty heap may take two.
  lemma AllocateSucceeds(bs: seq<Blk>, words: nat, pages: seq<nat>)
    ensures Allocate(bs, words, pages).payload.Some? <==>
            || FirstFit(bs, words) < |bs|
            || (pages != [] && words <= TailRoom(bs) + 512)
            || (bs == [] && |pages| >= 2 && words <= 1020)
  {
    hide Grow, Place;
    if bs == [] {
      if pages != [] {
        OneFits(pages[0], words);
        if words > 508 && |pages| >= 2 {
          GrowthLaw([Blk(pages[0], 508, false)], words, pages[1]);
        }
      }
    } else if FirstFit(bs, words) == |bs| && pages != [] {
      GrowthLaw(bs, words, pages[0]);
    }
  }

  lemma FailureGrows(bs: seq<Blk>, words: nat, pages: seq<nat>)
    requires pages != [] && Allocate(bs, words, pages).payload.None?
    ensures TailRoom(bs) + 512 < words
    ensures var r := Allocate(bs, words, pages);
            r.bs != [] && |r.left| < |pages| && TailRoom(r.bs) == TailRoom(bs) + 512 * (|pages| - |r.left|)
  {
    hide Grow, Place;
    if bs == [] {
      OneFits(pages[0], words);
      if |pages| >= 2 {
        GrowthLaw([Blk(pages[0], 508, false)], words, pages[1]);
        GrowIs([Blk(pages[0], 508, false)], pages[1]);
      }
    } else {
      GrowIs(bs, pages[0]);
      GrowthLaw(bs, words, pages[0]);
    }
  }

  // k calls in a row for the same size that each failed with a page in hand.
  ghost predicate Failing(bs: seq<Blk>, words: nat, pages: seq<nat>, k: nat)
    decreases k
  {
    k == 0 ||
    (pages != [] && Allocate(bs, words, pages).payload.None? &&
     Failing(Allocate(bs, words, pages).bs, words, Allocate(bs, words, pages).left, k - 1))
  }

  // Every failure widens the free tail, so their number is bounded by the size.
  lemma {:induction false} RetriesEnd(bs: seq<Blk>, words: nat, pages: seq<nat>, k: nat)
    requires Failing(bs, words, pages, k)
    ensures k <= |pages|
    ensures k > 0 ==> 512 * k + TailRoom(bs) < words
    decreases k
  {
    hide Allocate;
    if k > 0 {
      FailureGrows(bs, words, pages);
      var r := Allocate(bs, words, pages);
      RetriesEnd(r.bs, words, r.left, k - 1);
    }
  }

  // ---------- what the calls mean for the live blocks ----------

  // The list kmalloc places its block in.
  function Searched(bs: seq<Blk>, words: nat, pages: seq<nat>): seq<Blk> {
    var s, left := Started(bs, pages), Unstarted(bs, pages);
    if s == [] || FirstFit(s, words) < |s| || left == [] then s else Grow(s, left[0])
  }

  // Growing keeps the canonical form and the live blocks, wherever the page lies.
  lemma GrowCanonical(bs: seq<Blk>, at: nat)
    requires Canonical(bs)
    ensures Canonical(Grow(bs, at)) && Live(Grow(bs, at)) == Live(bs)
  {
    hide Coalesce, Live;
    AppendedBut(bs, Blk(at, 508, false));
    AppendedLive(bs, at);
    CoalesceCanonical(Appended(bs, at), |bs|);
  }

  lemma StartedIs(bs: seq<Blk>, pages: seq<nat>)
    requires Canonical(bs)
    ensures Canonical(Started(bs, pages)) && Live(Started(bs, pages)) == Live(bs)
  {
    if bs == [] && pages != [] {
      LiveOne(Blk(pages[0], 508, false));
    }
  }

  // A successful call adds exactly one live block, big enough and at most four
  // words too big, at the first fit; a failed one adds none.
  lemma AllocateLive(bs: seq<Blk>, words: nat, pages: seq<nat>)
    requires Canonical(bs)
    ensures var r, s := Allocate(bs, words, pages), Searched(bs, words, pages);
            var i := FirstFit(s, words);
            && Live(s) == Live(bs) && Canonical(s)
            && (r.payload.None? ==> r.bs == s && Live(r.bs) == Live(bs))
            && (r.payload.Some? ==>
                  && i < |s| && r.bs == Place(s, i, words)
                  && var b := Placed(s[i], words)[0];
                     && r.payload.value == b.at + 4 && b.used && words <= b.words <= words + 4
                     && Live(r.bs) == Live(s[..i]) + [b] + Live(s[i + 1..])
                     && Live(bs) == Live(s[..i]) + Live(s[i + 1..]))
  {
    hide Grow, Place, Placed, Live, Canonical;
    StartedIs(bs, pages);
    var s0, left := Started(bs, pages), Unstarted(bs, pages);
    if left != [] {
      GrowCanonical(s0, left[0]);
    }
    var s := Searched(bs, words, pages);
    var i := FirstFit(s, words);
    if i < |s| {
      PlaceLive(s, i, words);
    }
  }

  lemma EmptyLive()
    ensures Live([]) == []
  {
  }

  // Two live blocks share no word, headers included.
  lemma LiveApart(bs: seq<Blk>, lo: nat, hi: nat, b: Blk, d: Blk)
    requires Stacked(bs, lo, hi) && b in bs && d in bs && b != d
    ensures b.End() <= d.at || d.End() <= b.at
    ensures lo <= b.at && b.End() <= hi
  {
    var i :| 0 <= i < |bs| && bs[i] == b;
    var j :| 0 <= j < |bs| && bs[j] == d;
    Inside(bs, lo, hi, i);
    if i < j {
      Ordered(bs, lo, hi, i, j);
    } else {
      Ordered(bs, lo, hi, j, i);
    }
  }

  // ---------- kfree ----------

  function Freed(bs: seq<Blk>, i: nat): seq<Blk>
    requires i < |bs|
  {
    bs[i := bs[i].(used := false)]
  }

  function Release(bs: seq<Blk>, i: nat): seq<Blk>
    requires i < |bs|
  {
    Coalesce(Freed(bs, i), i)
  }

  lemma FreedAround(bs: seq<Blk>, i: nat)
    requires i < |bs|
    ensures bs == bs[..i] + [bs[i]] + bs[i + 1..]
    ensures Freed(bs, i) == bs[..i] + [bs[i].(used := false)] + bs[i + 1..]
    ensures |Freed(bs, i)| == |bs| && Freed(bs, i)[0].at == bs[0].at
  {
  }

  lemma FreedLive(bs: seq<Blk>, i: nat)
    requires i < |bs| && bs[i].used
    ensures Live(bs) == Live(bs[..i]) + [bs[i]] + Live(bs[i + 1..])
    ensures Live(Freed(bs, i)) == Live(bs[..i]) + Live(bs[i + 1..])
    ensures Words(Live(bs)) == Words(Live(Freed(bs, i))) + bs[i].words
  {
    hide Live, Words, Freed;
    FreedLists(bs, i);
    WordsOfThree(Live(bs[..i]), bs[i], Live(bs[i + 1..]));
  }

  lemma FreedLists(bs: seq<Blk>, i: nat)
    requires i < |bs| && bs[i].used
    ensures Live(bs) == Live(bs[..i]) + [bs[i]] + Live(bs[i + 1..])
    ensures Live(Freed(bs, i)) == Live(bs[..i]) + Live(bs[i + 1..])
  {
    hide Live, Freed;
    var a, c, d := bs[..i], bs[i + 1..], bs[i].(used := false);
    LiveOne(bs[i]);
    LiveOne(d);
    FreedAround(bs, i);
    LiveReplaced(a, [bs[i]], [d], c);
    LiveReplaced(a, [d], [], c);
  }

  // Freeing removes exactly that live block and leaves a canonical list.
  lemma ReleaseLive(bs: seq<Blk>, i: nat)
    requires i < |bs| && bs[i].used && Canonical(bs)
    ensures var t := Release(bs, i);
            && Canonical(t)
            && Live(bs) == Live(bs[..i]) + [bs[i]] + Live(bs[i + 1..])
            && Live(t) == Live(bs[..i]) + Live(bs[i + 1..])
            && Words(Live(bs)) == Words(Live(t)) + bs[i].words
  {
    FreedLive(bs, i);
    assert CanonicalBut(Freed(bs, i), i) && !Freed(bs, i)[i].used;
    hide Live, Words, Coalesce, Freed;
    CoalesceCanonical(Freed(bs, i), i);
  }

  // In address order it stays in address order.
  lemma ReleaseKeeps(bs: seq<Blk>, i: nat, lo: nat, hi: nat)
    requires i < |bs| && bs[i].used && Stacked(bs, lo, hi) && Canonical(bs)
    ensures Stacked(Release(bs, i), lo, hi) && Canonical(Release(bs, i))
  {
    FreedStacked(bs, i, lo, hi);
    hide Live, Words, Coalesce, Freed;
    CoalesceKeeps(Freed(bs, i), i, lo, hi);
  }

  lemma FreedStacked(bs: seq<Blk>, i: nat, lo: nat, hi: nat)
    requires i < |bs| && bs[i].used && Stacked(bs, lo, hi) && Canonical(bs)
    ensures i < |Freed(bs, i)| && !Freed(bs, i)[i].used
    ensures Stacked(Freed(bs, i), lo, hi) && CanonicalBut(Freed(bs, i), i)
  {
  }

  // kfree undoes kmalloc: the list is the one that was searched.
  lemma FreeUndoes(s: seq<Blk>, i: nat, words: nat)
    requires i < |s| && Fits(s[i], words) && Canonical(s)
    ensures i < |Place(s, i, words)| && Release(Place(s, i, words), i) == s
  {
    var t := Freed(Place(s, i, words), i);
    assert i > 0 ==> s[i - 1].used && t[i - 1] == s[i - 1];
    assert i + 1 < |s| ==> s[i + 1].used;
    if s[i].words < words + 5 {
      assert t == s;
      assert MergeNexts(s, i) == s;
    } else {
      assert t[i + 1] == Blk(s[i].at + 4 + words, s[i].words - words - 4, false);
      assert Merge(t, i) == s;
      assert MergeNexts(s, i) == s;
    }
  }
}
