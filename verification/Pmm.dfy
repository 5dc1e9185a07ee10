/** The physical frame allocator: one bit a frame in a packed byte bitmap, set when the frame is in use. */
module Pmm {
  import opened PageEntry

  // 1 << bit
  function Mask(bit: nat): bv8
    requires bit < 8
  {
    if bit == 0 then 1 else Mask(bit - 1) << 1
  }

  function MaskTable(bit: nat): bv8
    requires bit < 8
  {
    if bit == 0 then 1 else if bit == 1 then 2 else if bit == 2 then 4 else if bit == 3 then 8
    else if bit == 4 then 16 else if bit == 5 then 32 else if bit == 6 then 64 else 128
  }

  lemma {:induction false} MaskIsTable(bit: nat)
    requires bit < 8
    ensures Mask(bit) == MaskTable(bit) == 1 << bit
  {
    if bit > 0 {
      MaskIsTable(bit - 1);
    }
  }

  predicate IsSet(bits: seq<bv8>, frame: nat) {
    frame / 8 < |bits| && bits[frame / 8] & Mask(frame % 8) != 0
  }

  function SetBit(bits: seq<bv8>, frame: nat): (r: seq<bv8>)
    requires frame / 8 < |bits|
  {
    bits[frame / 8 := bits[frame / 8] | Mask(frame % 8)]
  }

  function ClearBit(bits: seq<bv8>, frame: nat): (r: seq<bv8>)
    requires frame / 8 < |bits|
  {
    bits[frame / 8 := bits[frame / 8] & !Mask(frame % 8)]
  }

  lemma TableBits(b: bv8, i: nat, j: nat)
    requires i < 8 && j < 8
    ensures (b | MaskTable(i)) & MaskTable(j) != 0 <==> i == j || b & MaskTable(j) != 0
    ensures (b & !MaskTable(i)) & MaskTable(j) != 0 <==> i != j && b & MaskTable(j) != 0
  {
  }

  lemma MaskBits(b: bv8, i: nat, j: nat)
    requires i < 8 && j < 8
    ensures (b | Mask(i)) & Mask(j) != 0 <==> i == j || b & Mask(j) != 0
    ensures (b & !Mask(i)) & Mask(j) != 0 <==> i != j && b & Mask(j) != 0
  {
    TableBits(b, i, j);
    MaskIsTable(i);
    MaskIsTable(j);
  }

  // Setting a bit of the packed bitmap sets that bit and changes no other.
  lemma SetBitSets(bits: seq<bv8>, frame: nat, other: nat)
    requires frame / 8 < |bits|
    ensures IsSet(SetBit(bits, frame), other) <==> other == frame || IsSet(bits, other)
  {
    if other / 8 == frame / 8 {
      MaskBits(bits[frame / 8], frame % 8, other % 8);
    }
  }

  lemma ClearBitClears(bits: seq<bv8>, frame: nat, other: nat)
    requires frame / 8 < |bits|
    ensures IsSet(ClearBit(bits, frame), other) <==> other != frame && IsSet(bits, other)
  {
    if other / 8 == frame / 8 {
      MaskBits(bits[frame / 8], frame % 8, other % 8);
    }
  }

  // `used` is the set of frames below `total` whose bit is set.
  ghost predicate Tracks(bits: seq<bv8>, total: nat, used: set<nat>) {
    && total <= 8 * |bits|
    && (forall f :: f in used ==> 0 <= f < total)
    && (forall f: nat {:trigger IsSet(bits, f)} :: f < total ==> (f in used <==> IsSet(bits, f)))
  }

  lemma TracksSet(bits: seq<bv8>, total: nat, used: set<nat>, frame: nat)
    requires Tracks(bits, total, used) && frame < total
    ensures Tracks(SetBit(bits, frame), total, used + {frame})
  {
    forall f: nat | f < total ensures f in used + {frame} <==> IsSet(SetBit(bits, frame), f) {
      SetBitSets(bits, frame, f);
    }
  }

  lemma TracksClear(bits: seq<bv8>, total: nat, used: set<nat>, frame: nat)
    requires Tracks(bits, total, used) && frame < total
    ensures Tracks(ClearBit(bits, frame), total, used - {frame})
  {
    forall f: nat | f < total ensures f in used - {frame} <==> IsSet(ClearBit(bits, frame), f) {
      ClearBitClears(bits, frame, f);
    }
  }

  // The frames lo, lo + 1, ..., hi - 1.
  function Span(lo: nat, hi: nat): (r: set<nat>)
    ensures forall f: nat :: f in r <==> lo <= f < hi
    ensures lo <= hi ==> |r| == hi - lo
    decreases hi
  {
    if lo >= hi then {} else Span(lo, hi - 1) + {hi - 1}
  }

  // `count` frames from `lo` on are all free.
  predicate FreeRun(used: set<nat>, lo: nat, count: nat) {
    forall f: nat :: lo <= f < lo + count ==> f !in used
  }

  // The run was added to the frames in use.
  ghost predicate RunAdded(used: set<nat>, used': set<nat>, lo: nat, count: nat) {
    forall f: nat :: f in used' <==> f in used || lo <= f < lo + count
  }

  lemma AllOnes(bits: seq<bv8>, total: nat)
    requires total <= 8 * |bits| && forall i :: 0 <= i < |bits| ==> bits[i] == 0xFF
    ensures Tracks(bits, total, Span(0, total))
  {
    forall f: nat | f < total ensures IsSet(bits, f) {
      MaskIsTable(f % 8);
    }
  }

  // Where a frame number stands for the physical address frame * PAGE_SIZE.
  datatype FreeOutcome = Freed | AlreadyFree | PanicUnaligned | PanicTooHigh

  datatype Region = Region(base: nat, length: nat, usable: bool)

  // Frame f starts inside a usable region.
  predicate Holds(r: Region, f: nat) {
    r.usable && r.base <= Address(f) < r.base + r.length
  }

  // Some usable region among the first n holds frame f.
  ghost predicate InUsable(regions: seq<Region>, n: nat, f: nat)
    requires n <= |regions|
  {
    exists i :: 0 <= i < n && Holds(regions[i], f)
  }

  lemma InUsableStep(regions: seq<Region>, i: nat, f: nat)
    requires i < |regions|
    ensures InUsable(regions, i + 1, f) <==> InUsable(regions, i, f) || Holds(regions[i], f)
    ensures WellFormedMap(regions) && Holds(regions[i], f) ==> !InUsable(regions, i, f)
  {
  }

  // What the boot protocol promises about usable regions: whole pages, pairwise disjoint.
  ghost predicate WellFormedMap(regions: seq<Region>) {
    && (forall i :: 0 <= i < |regions| && regions[i].usable ==>
          regions[i].base % 4096 == 0 && regions[i].length % 4096 == 0)
    && (forall i, j, f: nat :: 0 <= i < j < |regions| && Holds(regions[i], f) ==> !Holds(regions[j], f))
  }

  // Frame f starts inside the `size` bytes at `base` where the bitmap is kept.
  predicate InBitmap(base: nat, size: nat, f: nat) {
    base <= Address(f) < base + size
  }

  method TopAddress(regions: seq<Region>) returns (top: nat)
    ensures GreatestEnd(regions, top)
  {
    top := 0;
    for i := 0 to |regions|
      invariant forall j :: 0 <= j < i ==> regions[j].base + regions[j].length <= top
      invariant top == 0 || exists j :: 0 <= j < i && regions[j].base + regions[j].length == top
    {
      if regions[i].base + regions[i].length > top {
        top := regions[i].base + regions[i].length;
      }
    }
  }

  // From the last page boundary up to `end` on.
  lemma LastPage(base: nat, end: nat)
    requires base % 4096 == 0 && base <= end
    ensures var start := end - end % 4096;
      start % 4096 == 0 && base <= start <= end < start + 4096
  {
  }

  /** Where the bitmap goes: on a page boundary near the end of the first usable region that can hold it. */
  method PlaceBitmap(regions: seq<Region>, size: nat) returns (base: nat)
    requires WellFormedMap(regions)
    ensures BitmapPlace(regions, size, base)
  {
    for i := 0 to |regions|
      invariant forall j: nat {:trigger CanHold(regions, j, size)} :: j < i ==> !CanHold(regions, j, size)
    {
      if CanHold(regions, i, size) {
        var end := regions[i].base + regions[i].length - size;
        base := end - end % 4096;
        LastPage(regions[i].base, end);
        return;
      }
    }
    base := 0;
  }

  // Region i is usable and can hold `size` bytes.
  predicate CanHold(regions: seq<Region>, i: nat, size: nat)
    requires i < |regions|
  {
    regions[i].usable && regions[i].length >= size
  }

  // `base` is the last page boundary from which `size` bytes fit into the first usable region that can hold them, and 0
  // when none can.
  ghost predicate BitmapPlace(regions: seq<Region>, size: nat, base: nat) {
    if forall i: nat {:trigger CanHold(regions, i, size)} :: i < |regions| ==> !CanHold(regions, i, size) then base == 0
    else
      exists i: nat {:trigger CanHold(regions, i, size)} :: i < |regions| && CanHold(regions, i, size)
        && (forall j: nat {:trigger CanHold(regions, j, size)} :: j < i ==> !CanHold(regions, j, size))
        && base % 4096 == 0 && regions[i].base <= base
        && base + size <= regions[i].base + regions[i].length < base + size + 4096
  }

  // The greatest end of a region.
  ghost predicate GreatestEnd(regions: seq<Region>, top: nat) {
    && (forall i :: 0 <= i < |regions| ==> regions[i].base + regions[i].length <= top)
    && (top == 0 || exists i :: 0 <= i < |regions| && regions[i].base + regions[i].length == top)
  }

  class Allocator {
    const bitmap: array<bv8>
    const bitmapBase: nat
    const totalFrames: nat
    var usedFrames: int
    ghost var used: set<nat>

    /** Marks everything as used, then clears the frames of the usable regions, except those under the bitmap. */
    constructor Init(regions: seq<Region>)
      requires WellFormedMap(regions)
      ensures Valid() && fresh(bitmap)
      ensures exists top: nat :: GreatestEnd(regions, top) && totalFrames == top / 4096
      ensures bitmap.Length == (totalFrames + 7) / 8 && BitmapPlace(regions, bitmap.Length, bitmapBase)
      ensures forall f: nat :: f < totalFrames ==>
        (f !in used <==> InUsable(regions, |regions|, f) && !InBitmap(bitmapBase, bitmap.Length, f))
    {
      var top := TopAddress(regions);
      var total := top / 4096;
      var size := (total + 7) / 8;
      var base := PlaceBitmap(regions, size);
      bitmapBase := base;
      totalFrames := total;
      bitmap := new bv8[size](_ => 0xFF);
      usedFrames := total;
      used := Span(0, total);
      new;
      assert GreatestEnd(regions, top);
      AllOnes(bitmap[..], total);
      ClearUsable(regions);
    }

    method ClearUsable(regions: seq<Region>)
      requires WellFormedMap(regions) && Valid() && used == Span(0, totalFrames)
      requires forall i :: 0 <= i < |regions| ==> (regions[i].base + regions[i].length) / 4096 <= totalFrames
      modifies this`usedFrames, this`used, bitmap
      ensures Valid()
      ensures forall f: nat :: f < totalFrames ==>
        (f !in used <==> InUsable(regions, |regions|, f) && !InBitmap(bitmapBase, bitmap.Length, f))
    {
      for i := 0 to |regions|
        invariant Valid()
        invariant forall f: nat :: f < totalFrames ==>
          (f !in used <==> InUsable(regions, i, f) && !InBitmap(bitmapBase, bitmap.Length, f))
      {
        forall f: nat ensures InUsable(regions, i + 1, f) <==> InUsable(regions, i, f) || Holds(regions[i], f) {
          InUsableStep(regions, i, f);
        }
        if regions[i].usable {
          ClearRegion(regions[i], bitmapBase, bitmap.Length);
        }
      }
    }

    method ClearRegion(r: Region, base: nat, size: nat)
      requires Valid() && r.usable
      requires r.base % 4096 == 0 && r.length % 4096 == 0 && (r.base + r.length) / 4096 <= totalFrames
      requires forall f: nat :: f < totalFrames && Holds(r, f) && !InBitmap(base, size, f) ==> f in used
      modifies this`usedFrames, this`used, bitmap
      ensures Valid()
      ensures forall f: nat :: f in used <==> f in old(used) && !(Holds(r, f) && !InBitmap(base, size, f))
    {
      ghost var before := used;
      var addr := r.base;
      while addr < r.base + r.length
        invariant r.base <= addr <= r.base + r.length && addr % 4096 == 0
        invariant Valid()
        invariant forall f: nat :: f in used <==>
          f in before && !(r.base <= Address(f) < addr && !InBitmap(base, size, f))
      {
        var frame := addr / 4096;
        assert Address(frame) == addr && Holds(r, frame);
        forall f: nat | f != frame ensures Address(f) < addr + 4096 <==> Address(f) < addr {
        }
        if !(addr >= base && addr < base + size) {
          BitmapUnset(frame);
          usedFrames := usedFrames - 1;
        }
        addr := addr + 4096;
      }
    }

    ghost predicate Valid()
      reads this, bitmap
    {
      Tracks(bitmap[..], totalFrames, used) && usedFrames == |used|
    }

    method BitmapSet(frame: nat)
      requires Valid() && frame < totalFrames && frame !in used
      modifies this`used, bitmap
      ensures bitmap[..] == SetBit(old(bitmap[..]), frame)
      ensures used == old(used) + {frame} && Tracks(bitmap[..], totalFrames, used)
    {
      TracksSet(bitmap[..], totalFrames, used, frame);
      ghost var bits := SetBit(bitmap[..], frame);
      bitmap[frame / 8] := bitmap[frame / 8] | Mask(frame % 8);
      used := used + {frame};
      assert bitmap[..] == bits;
    }

    method BitmapUnset(frame: nat)
      requires Valid() && frame < totalFrames && frame in used
      modifies this`used, bitmap
      ensures bitmap[..] == ClearBit(old(bitmap[..]), frame)
      ensures used == old(used) - {frame} && Tracks(bitmap[..], totalFrames, used)
    {
      TracksClear(bitmap[..], totalFrames, used, frame);
      ghost var bits := ClearBit(bitmap[..], frame);
      bitmap[frame / 8] := bitmap[frame / 8] & !Mask(frame % 8);
      used := used - {frame};
      assert bitmap[..] == bits;
    }

    method Test(frame: nat) returns (r: bool)
      requires Valid() && frame < totalFrames
      ensures r <==> frame in used
    {
      assert IsSet(bitmap[..], frame) <==> frame in used;
      r := bitmap[frame / 8] & Mask(frame % 8) != 0;
    }

    method Take(frame: nat)
      requires Valid() && frame < totalFrames && frame !in used
      modifies this`usedFrames, this`used, bitmap
      ensures Valid() && used == old(used) + {frame}
    {
      BitmapSet(frame);
      usedFrames := usedFrames + 1;
    }

    /** Hands out the lowest free frame from 1 on, as an address; 0 when there is none. */
    method AllocFrame() returns (phys: nat)
      requires Valid()
      modifies this`usedFrames, this`used, bitmap
      ensures Valid()
      ensures phys == 0 <==> forall f :: 1 <= f < totalFrames ==> f in old(used)
      ensures phys == 0 ==> used == old(used) && bitmap[..] == old(bitmap[..])
      ensures phys != 0 ==>
        var f := phys / 4096;
        && phys == Address(f) && 1 <= f < totalFrames && f !in old(used)
        && (forall g :: 1 <= g < f ==> g in old(used))
        && used == old(used) + {f}
    {
      var i := 1;
      while i < totalFrames
        invariant 1 <= i
        invariant forall f :: 1 <= f < i && f < totalFrames ==> f in used
        invariant unchanged(this`usedFrames) && unchanged(this`used) && unchanged(bitmap)
      {
        var taken := Test(i);
        if !taken {
          Take(i);
          return Address(i);
        }
        i := i + 1;
      }
      phys := 0;
    }

    /** Hands out the lowest run of `count` free frames; 0 exactly when there is no such run. */
    method AllocContiguous(count: nat) returns (phys: nat)
      requires Valid()
      modifies this`usedFrames, this`used, bitmap
      ensures Valid()
      ensures phys == 0 <==> count == 0 || forall lo :: 1 <= lo && lo + count <= totalFrames ==>
        !FreeRun(old(used), lo, count)
      ensures phys == 0 ==> used == old(used)
      ensures phys != 0 ==>
        var f := phys / 4096;
        && phys == Address(f) && 1 <= f && f + count <= totalFrames
        && FreeRun(old(used), f, count)
        && (forall lo :: 1 <= lo < f ==> !FreeRun(old(used), lo, count))
        && RunAdded(old(used), used, f, count)
    {
      if count == 0 {
        return 0;
      }
      var run := 0;
      var i := 1;
      while i < totalFrames
        invariant 1 <= i && run < count && run < i
        invariant totalFrames == 0 || i <= totalFrames || i == 1
        invariant FreeRun(used, i - run, run)
        invariant i - run == 1 || i - run - 1 in used
        invariant forall lo :: 1 <= lo && lo + count <= i ==> !FreeRun(used, lo, count)
        invariant unchanged(this`usedFrames) && unchanged(this`used) && unchanged(bitmap)
      {
        var taken := Test(i);
        if !taken {
          run := run + 1;
          assert FreeRun(used, i + 1 - run, run);
          if run == count {
            var first := i + 1 - count;
            forall lo | 1 <= lo < first ensures !FreeRun(used, lo, count) {
              assert first - 1 in used;
            }
            TakeRun(first, count);
            return Address(first);
          }
          forall lo | 1 <= lo && lo + count <= i + 1 ensures !FreeRun(used, lo, count) {
            assert i - run in used || lo + count <= i || lo > i - run;
          }
        } else {
          run := 0;
          forall lo | 1 <= lo && lo + count <= i + 1 ensures !FreeRun(used, lo, count) {
            assert lo + count <= i || lo <= i < lo + count;
          }
        }
        i := i + 1;
      }
      phys := 0;
    }

    method TakeRun(first: nat, count: nat)
      requires Valid() && first + count <= totalFrames && FreeRun(used, first, count)
      modifies this`usedFrames, this`used, bitmap
      ensures Valid()
      ensures RunAdded(old(used), used, first, count)
    {
      ghost var before := used;
      var j := first;
      while j < first + count
        invariant first <= j <= first + count && Valid()
        invariant RunAdded(before, used, first, j - first)
      {
        Take(j);
        j := j + 1;
      }
    }

    /** Clears the frame's bit.  The two panics stop the kernel, so nothing changes. */
    method FreeFrame(phys: nat) returns (outcome: FreeOutcome)
      requires Valid()
      modifies this`usedFrames, this`used, bitmap
      ensures Valid()
      ensures outcome.PanicUnaligned? <==> phys % 4096 != 0
      ensures outcome.PanicTooHigh? <==> phys % 4096 == 0 && phys / 4096 >= totalFrames
      ensures outcome.Freed? <==> phys % 4096 == 0 && phys / 4096 in old(used)
      ensures outcome.Freed? ==> used == old(used) - {phys / 4096}
      ensures !outcome.Freed? ==> used == old(used) && bitmap[..] == old(bitmap[..])
    {
      if phys % 4096 != 0 {
        return PanicUnaligned;
      } else if phys >= Address(totalFrames) {
        return PanicTooHigh;
      }
      var frame := phys / 4096;
      var taken := Test(frame);
      if !taken {
        return AlreadyFree;
      }
      BitmapUnset(frame);
      usedFrames := usedFrames - 1;
      return Freed;
    }

  }
}
