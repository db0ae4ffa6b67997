// The physical frame allocator: a bitmap packed eight frames to the byte, with
// a running count of the frames whose bit is clear.

module Pmm {
  import opened Machine

  const FIRST_FRAME: nat := 256 // the frame at 1 MiB

  // ---------- one byte of the bitmap ----------

  // 1 << k, spelled out so that no proof has to shift by an integer.
  function Mask(k: nat): bv8
    requires k < 8
  {
    if k == 0 then 1 else if k == 1 then 2 else if k == 2 then 4 else if k == 3 then 8
    else if k == 4 then 16 else if k == 5 then 32 else if k == 6 then 64 else 128
  }

  predicate GetBit(b: bv8, k: nat)
    requires k < 8
  {
    b & Mask(k) != 0
  }

  // The shifts of bm_set and bm_get.
  lemma ShiftedBit(b: bv8, k: nat)
    requires k < 8
    ensures Mask(k) == (1 as bv8) << k
    ensures GetBit(b, k) <==> (b >> k) & 1 != 0
  {
    if k == 0 {
      assert b >> 0 == b;
    } else if k == 1 {
    } else if k == 2 {
    } else if k == 3 {
    } else if k == 4 {
    } else if k == 5 {
    } else if k == 6 {
    } else {
      assert k == 7;
    }
  }

  // The byte written by bm_set (on) or bm_clear (off).
  function Written(b: bv8, k: nat, on: bool): bv8
    requires k < 8
  {
    if on then b | Mask(k) else b & !Mask(k)
  }

  // Setting or clearing one bit of a byte changes that bit and no other.
  lemma BitLaws(b: bv8, k: nat, j: nat, on: bool)
    requires k < 8 && j < 8
    ensures GetBit(Written(b, k, on), j) <==> if j == k then on else GetBit(b, j)
  {
  }

  // ---------- the bitmap as a set of free frames ----------

  function Bytes(total: nat): nat {
    (total + 7) / 8
  }

  predicate IsSet(bm: seq<bv8>, page: nat)
    requires page / 8 < |bm|
  {
    GetBit(bm[page / 8], page % 8)
  }

  // The frames below n whose bit is clear.
  ghost function FreeOf(bm: seq<bv8>, n: nat): set<nat>
    requires Bytes(n) <= |bm|
  {
    if n == 0 then {} else FreeOf(bm, n - 1) + if IsSet(bm, n - 1) then {} else {n - 1}
  }

  lemma {:induction false} InFreeOf(bm: seq<bv8>, n: nat, f: nat)
    requires Bytes(n) <= |bm|
    ensures f in FreeOf(bm, n) <==> f < n && !IsSet(bm, f)
  {
    if n > 0 {
      InFreeOf(bm, n - 1, f);
    }
  }

  lemma WriteBitAt(bm: seq<bv8>, page: nat, on: bool, f: nat)
    requires page / 8 < |bm| && f / 8 < |bm|
    ensures IsSet(bm[page / 8 := Written(bm[page / 8], page % 8, on)], f) <==> if f == page then on else IsSet(bm, f)
  {
    var q, k := page / 8, page % 8;
    var q', j := f / 8, f % 8;
    BitLaws(bm[q], k, j, on);
    assert f == page <==> j == k && q' == q;
  }

  lemma WriteBit(bm: seq<bv8>, bm': seq<bv8>, total: nat, page: nat, on: bool)
    requires page < total && Bytes(total) <= |bm|
    requires bm' == bm[page / 8 := Written(bm[page / 8], page % 8, on)]
    ensures FreeOf(bm', total) == if on then FreeOf(bm, total) - {page} else FreeOf(bm, total) + {page}
  {
    forall f: nat
      ensures f in FreeOf(bm', total) <==> if f == page then !on else f in FreeOf(bm, total)
    {
      InFreeOf(bm, total, f);
      InFreeOf(bm', total, f);
      if f < total {
        WriteBitAt(bm, page, on, f);
      }
    }
  }

  lemma FreeBelow(bm: seq<bv8>, total: nat)
    requires Bytes(total) <= |bm|
    ensures forall f :: f in FreeOf(bm, total) ==> f < total
  {
    forall f | f in FreeOf(bm, total)
      ensures f < total
    {
      InFreeOf(bm, total, f);
    }
  }

  // ---------- the history of calls ----------

  datatype Event = Alloc(frame: nat) | Free(frame: nat)

  // The frames handed out and not given back since.
  function Live(log: seq<Event>): set<nat> {
    if log == [] then {}
    else
      var before := Live(log[..|log| - 1]);
      match log[|log| - 1]
      case Alloc(f) => before + {f}
      case Free(f) => before - {f}
  }

  // No allocation ever returned a frame that was still out.
  ghost predicate Disciplined(log: seq<Event>) {
    forall k :: 0 <= k < |log| && log[k].Alloc? ==> log[k].frame !in Live(log[..k])
  }

  lemma {:induction false} StillLive(log: seq<Event>, i: nat, j: nat)
    requires i < j <= |log| && log[i].Alloc?
    requires forall k :: i < k < j ==> log[k] != Free(log[i].frame)
    ensures log[i].frame in Live(log[..j])
    decreases j
  {
    assert log[..j][..j - 1] == log[..j - 1];
    if i < j - 1 {
      StillLive(log, i, j - 1);
    }
  }

  // A frame handed out twice was given back in between.
  lemma NoDoubleHandout(log: seq<Event>, i: nat, j: nat)
    requires Disciplined(log)
    requires i < j < |log| && log[i].Alloc? && log[j] == log[i]
    ensures exists k :: i < k < j && log[k] == Free(log[i].frame)
  {
    if forall k :: i < k < j ==> log[k] != Free(log[i].frame) {
      StillLive(log, i, j);
      assert false;
    }
  }

  lemma LogStep(log: seq<Event>, e: Event)
    requires Disciplined(log)
    requires e.Alloc? ==> e.frame !in Live(log)
    ensures Disciplined(log + [e])
    ensures Live(log + [e]) == if e.Alloc? then Live(log) + {e.frame} else Live(log) - {e.frame}
  {
    var log' := log + [e];
    assert log'[..|log|] == log;
    forall k | 0 <= k < |log'| && log'[k].Alloc?
      ensures log'[k].frame !in Live(log'[..k])
    {
      if k < |log| {
        assert log'[..k] == log[..k];
      }
    }
  }

  // ---------- the boot memory map ----------

  datatype Region = Region(base: nat, length: nat, usable: bool) {
    function End(): nat { base + length }

    predicate Holds(f: nat) {
      usable && base / 4096 <= f < base / 4096 + length / 4096
    }

    // Fit for the bitmap.
    predicate Suits(bytes: nat) {
      usable && base >= 0x100000 && length >= bytes
    }
  }

  ghost predicate WellFormed(memmap: seq<Region>) {
    && (forall i :: 0 <= i < |memmap| && memmap[i].usable ==>
          memmap[i].base % 4096 == 0 && memmap[i].length % 4096 == 0 && memmap[i].End() < TWO64)
    && (forall i, j, f: nat :: 0 <= i < j < |memmap| && memmap[i].Holds(f) ==> !memmap[j].Holds(f))
  }

  ghost predicate Usable(memmap: seq<Region>, f: nat) {
    exists i :: 0 <= i < |memmap| && memmap[i].Holds(f)
  }

  // hi is the greatest end of a usable region, or 0 when there is none.
  ghost predicate IsHighest(memmap: seq<Region>, hi: nat) {
    && (forall i :: 0 <= i < |memmap| && memmap[i].usable ==> memmap[i].End() <= hi)
    && (hi == 0 || exists i :: 0 <= i < |memmap| && memmap[i].usable && memmap[i].End() == hi)
  }

  // Region i is the first one fit for a bitmap of that many bytes.
  ghost predicate IsHome(memmap: seq<Region>, i: nat, bytes: nat) {
    && i < |memmap| && memmap[i].Suits(bytes)
    && forall j :: 0 <= j < i ==> !memmap[j].Suits(bytes)
  }

  // Frame f holds part of a bitmap of that many bytes placed at base.
  predicate UnderBitmap(base: nat, bytes: nat, f: nat) {
    base / 4096 <= f < base / 4096 + (bytes + 4096 - 1) / 4096
  }

  // The bitmap fits in the frames of the region that hosts it.
  lemma BitmapInsideRegion(base: nat, length: nat, bytes: nat, f: nat)
    requires base % 4096 == 0 && length % 4096 == 0 && bytes <= length
    requires UnderBitmap(base, bytes, f)
    ensures f < base / 4096 + length / 4096 == (base + length) / 4096
  {
  }

  class Allocator {
    var bitmap: array?<bv8>
    var total: nat
    var freePages: nat
    ghost var log: seq<Event>

    // Before pmm_init has run.
    constructor ()
      ensures bitmap == null && total == 0 && freePages == 0 && log == []
    {
      bitmap, total, freePages, log := null, 0, 0, [];
    }

    ghost predicate Valid()
      reads this, bitmap
    {
      && bitmap != null
      && bitmap.Length == Bytes(total)
      && freePages == |Free()|
      && Disciplined(log)
      && Live(log) !! Free()
    }

    ghost function Free(): set<nat>
      reads this`bitmap, this`total, bitmap
    {
      if bitmap != null && Bytes(total) <= bitmap.Length then FreeOf(bitmap[..], total) else {}
    }

    // The free frames the allocator is willing to hand out.
    ghost function Available(): set<nat>
      reads this`bitmap, this`total, bitmap
    {
      set f | f in Free() && FIRST_FRAME <= f
    }

    method BmWrite(page: nat, on: bool)
      requires bitmap != null && page < total && bitmap.Length == Bytes(total)
      modifies bitmap
      ensures Free() == if on then old(Free()) - {page} else old(Free()) + {page}
    {
      bitmap[page / 8] := Written(bitmap[page / 8], page % 8, on);
      WriteBit(old(bitmap[..]), bitmap[..], total, page, on);
    }

    method BmGet(page: nat) returns (used: bool)
      requires bitmap != null && page < total && bitmap.Length == Bytes(total)
      ensures used <==> page !in Free()
    {
      used := GetBit(bitmap[page / 8], page % 8);
      InFreeOf(bitmap[..], total, page);
    }

    method HighestEnd(memmap: seq<Region>) returns (hi: nat)
      ensures IsHighest(memmap, hi)
    {
      hi := 0;
      for i := 0 to |memmap|
        invariant IsHighest(memmap[..i], hi)
      {
        assert memmap[..i + 1] == memmap[..i] + [memmap[i]];
        var e := memmap[i];
        if e.usable && e.End() > hi {
          assert memmap[..i + 1][i] == e;
          hi := e.End();
        } else if hi != 0 {
          var j :| 0 <= j < i && memmap[..i][j].usable && memmap[..i][j].End() == hi;
          assert memmap[..i + 1][j] == memmap[..i][j];
        }
      }
      assert memmap[..|memmap|] == memmap;
    }

    // The bitmap leaves the usable frames, less its own, free; without a region
    // fit for it, no bitmap exists afterwards.
    method Init(memmap: seq<Region>) returns (home: nat)
      requires WellFormed(memmap)
      requires freePages == 0 && log == []
      modifies this
      ensures exists hi: nat :: IsHighest(memmap, hi) && total == hi / 4096
      ensures bitmap == null <==> forall i :: 0 <= i < |memmap| ==> !memmap[i].Suits(Bytes(total))
      ensures bitmap == null ==> freePages == 0
      ensures bitmap != null ==>
                && fresh(bitmap) && Valid() && log == []
                && IsHome(memmap, home, Bytes(total))
                && forall f: nat :: f in Free() <==>
                     Usable(memmap, f) && !UnderBitmap(memmap[home].base, Bytes(total), f)
    {
      hide FreeOf;
      var highest := HighestEnd(memmap);
      total := highest / 4096;
      var bytes := Bytes(total);
      home := PlaceBitmap(memmap);
      if bitmap == null {
        return;
      }
      SetAll();
      FreeRegions(memmap, highest);
      TakeBitmap(memmap[home], memmap[home].base, bytes);
    }

    // The bitmap goes to the first region fit for it.
    method PlaceBitmap(memmap: seq<Region>) returns (home: nat)
      modifies this`bitmap
      ensures bitmap == null <==> forall i :: 0 <= i < |memmap| ==> !memmap[i].Suits(Bytes(total))
      ensures bitmap != null ==> fresh(bitmap) && bitmap.Length == Bytes(total) && IsHome(memmap, home, Bytes(total))
    {
      bitmap := null;
      home := 0;
      while home < |memmap|
        invariant home <= |memmap|
        invariant forall j :: 0 <= j < home ==> !memmap[j].Suits(Bytes(total))
      {
        if memmap[home].Suits(Bytes(total)) {
          bitmap := new bv8[Bytes(total)];
          return;
        }
        home := home + 1;
      }
    }

    method SetAll()
      requires bitmap != null && bitmap.Length == Bytes(total)
      modifies bitmap
      ensures Free() == {}
    {
      FreeBelow(bitmap[..], total);
      for i := 0 to total
        invariant forall f :: f in Free() ==> i <= f < total
      {
        BmWrite(i, true);
      }
      assert Free() == {};
    }

    method FreeRegions(memmap: seq<Region>, highest: nat)
      requires WellFormed(memmap) && IsHighest(memmap, highest) && total == highest / 4096
      requires bitmap != null && bitmap.Length == Bytes(total) && Free() == {} && freePages == 0
      modifies this`freePages, bitmap
      ensures freePages == |Free()|
      ensures forall f: nat :: f in Free() <==> Usable(memmap, f)
    {
      hide FreeOf;
      for i := 0 to |memmap|
        invariant freePages == |Free()|
        invariant forall f: nat :: f in Free() <==> exists j :: 0 <= j < i && memmap[j].Holds(f)
      {
        if memmap[i].usable {
          FreeRegion(memmap[i]);
        }
      }
    }

    method FreeRegion(e: Region)
      requires e.usable && e.base % 4096 == 0 && e.End() / 4096 <= total
      requires bitmap != null && bitmap.Length == Bytes(total)
      requires freePages == |Free()| && forall f: nat :: f in Free() ==> !e.Holds(f)
      modifies this`freePages, bitmap
      ensures freePages == |Free()|
      ensures forall f: nat :: f in Free() <==> f in old(Free()) || e.Holds(f)
    {
      hide FreeOf;
      var start, count := e.base / 4096, e.length / 4096;
      for p := 0 to count
        invariant freePages == |Free()|
        invariant forall f: nat :: f in Free() <==> f in old(Free()) || start <= f < start + p
      {
        assert e.Holds(start + p);
        BmWrite(start + p, false);
        freePages := freePages + 1;
      }
    }

    method TakeBitmap(ghost e: Region, bmPhys: nat, bytes: nat)
      requires bitmap != null && bitmap.Length == Bytes(total) && freePages == |Free()|
      requires e.base == bmPhys && e.base % 4096 == 0 && e.length % 4096 == 0
      requires bytes <= e.length && e.End() / 4096 <= total
      modifies this`freePages, bitmap
      ensures freePages == |Free()|
      ensures forall f: nat :: f in Free() <==> f in old(Free()) && !UnderBitmap(bmPhys, bytes, f)
    {
      hide FreeOf;
      var first := bmPhys / 4096;
      var bmPages := (bytes + 4096 - 1) / 4096;
      for p := 0 to bmPages
        invariant freePages == |Free()|
        invariant forall f: nat :: f in Free() <==> f in old(Free()) && !(first <= f < first + p)
      {
        BitmapInsideRegion(bmPhys, e.length, bytes, first + p);
        Reserve(first + p);
      }
    }

    method Reserve(page: nat)
      requires bitmap != null && page < total && bitmap.Length == Bytes(total) && freePages == |Free()|
      modifies this`freePages, bitmap
      ensures freePages == |Free()| && Free() == old(Free()) - {page}
    {
      var used := BmGet(page);
      if !used {
        BmWrite(page, true);
        freePages := freePages - 1;
      }
    }

    method Take(page: nat)
      requires Valid() && page in Free()
      modifies this`freePages, this`log, bitmap
      ensures Valid() && Free() == old(Free()) - {page} && log == old(log) + [Alloc(page)]
    {
      InFreeOf(bitmap[..], total, page);
      BmWrite(page, true);
      freePages := freePages - 1;
      LogStep(log, Alloc(page));
      log := log + [Alloc(page)];
    }

    method FirstFree() returns (i: nat)
      requires Valid()
      ensures i == total || i in Available()
      ensures forall g :: g in Available() ==> i <= g < total
      ensures i == total <==> Available() == {}
    {
      FreeBelow(bitmap[..], total);
      i := FIRST_FRAME;
      while i < total
        invariant forall g :: g in Available() ==> i <= g
      {
        var used := BmGet(i);
        if !used {
          return;
        }
        i := i + 1;
      }
      return total;
    }

    // The least free frame at or above 1 MiB, or 0 when there is none.
    method AllocPage() returns (phys: nat)
      requires Valid()
      modifies this`freePages, this`log, bitmap
      ensures Valid()
      ensures phys == 0 <==> old(Available()) == {}
      ensures phys == 0 ==> Free() == old(Free()) && log == old(log) && Available() == old(Available())
      ensures phys != 0 ==>
                var f := phys / 4096;
                && phys % 4096 == 0
                && f in old(Available()) && f in old(Free()) && FIRST_FRAME <= f < total
                && (forall g :: g in old(Available()) ==> f <= g)
                && f !in old(Live(log))
                && Free() == old(Free()) - {f} && Available() == old(Available()) - {f}
                && log == old(log) + [Alloc(f)]
    {
      hide FreeOf;
      var i := FirstFree();
      if i == total {
        return 0;
      }
      Take(i);
      return i * 4096;
    }

    method Release(page: nat)
      requires bitmap != null && page < total && bitmap.Length == Bytes(total) && freePages == |Free()|
      modifies this`freePages, bitmap
      ensures freePages == |Free()| && Free() == old(Free()) + {page}
    {
      var used := BmGet(page);
      if used {
        BmWrite(page, false);
        freePages := freePages + 1;
      }
    }

    method FreePage(phys: nat)
      requires Valid()
      modifies this`freePages, this`log, bitmap
      ensures Valid()
      ensures Free() == old(Free()) + (if phys / 4096 < total then {phys / 4096} else {})
      ensures log == old(log) + [Event.Free(phys / 4096)]
    {
      var page := phys / 4096;
      if page < total {
        Release(page);
      } else {
        FreeBelow(bitmap[..], total);
      }
      LogStep(log, Event.Free(page));
      log := log + [Event.Free(page)];
    }

    method FreePageCount() returns (n: nat)
      requires Valid()
      ensures n == |Free()|
    {
      n := freePages;
    }
  }
}
