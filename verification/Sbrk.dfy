/** Growing and shrinking the heap of a task, all or nothing. */
module Sbrk {
  import opened PageEntry
  import opened PageTree
  import opened World
  import opened Vmm
  import opened Growth
  import opened Layout
  import opened UserCopy

  // Page v of the tree of r is gone and its frame free; nothing else happened.
  ghost predicate Dropped(w: World, w': World, sh: Sharing, r: nat, v: nat)
    requires r in w.trees
  {
    && r in w'.trees && KeepsOthers(w, w', sh, r)
    && (forall u: nat :: Leaf(w'.mem, w'.trees[r], u) == if u == v then None else Leaf(w.mem, w.trees[r], u))
    && (forall f :: f in w'.owner <==> f in w.owner && w.owner[f] != InTree(r, Node(0, v)))
    && (forall f :: f in w'.owner ==> w'.owner[f] == w.owner[f])
  }

  lemma UnmappedThenFreed(w: World, w1: World, w2: World, sh: Sharing, total: nat, r: nat, v: nat, f: nat)
    requires WorldOk(w, sh, total) && r in w.trees && r in w1.trees && Unmapped(w, w1, sh, r, v)
    requires f in w.owner && w.owner[f] == InTree(r, Node(0, v)) && w2 == w1.(owner := w1.owner - {f})
    ensures Dropped(w, w2, sh, r, v)
  {
    forall g | g in w.owner && w.owner[g] == InTree(r, Node(0, v)) ensures g == f {
      assert Placed(w, f) && Placed(w, g);
    }
  }

  /** Unmaps page v if it is mapped and frees its frame. */
  method DropPage(m: Machine, r: nat, v: nat)
    requires m.Valid() && r in m.trees && v < USER_PAGES
    requires Leaf(m.mem, m.trees[r], v).Some? && !IsShared(m.sh, Leaf(m.mem, m.trees[r], v).value.frame)
    modifies m.Repr()
    ensures m.Valid() && r in m.trees && Dropped(old(m.Now()), m.Now(), m.sh, r, v)
  {
    m.ResolveFindsLeaf(r, Address(v));
    LeafFrame(m.Now(), m.sh, m.pmm.totalFrames, r, v);
    var rc, phys, fl := m.Resolve(r, Address(v));
    if rc == 0 {
      UnmapAndFree(m, r, v, phys / 4096);
    }
  }

  method UnmapAndFree(m: Machine, r: nat, v: nat, f: nat)
    requires m.Valid() && r in m.trees && v < USER_PAGES
    requires Leaf(m.mem, m.trees[r], v).Some? && f in m.owner && m.owner[f] == InTree(r, Node(0, v))
    modifies m.Repr()
    ensures m.Valid() && r in m.trees && Dropped(old(m.Now()), m.Now(), m.sh, r, v)
  {
    ghost var w := m.Now();
    var rc := m.UnmapPage(r, v);
    ghost var w1 := m.Now();
    m.FreeFrame(f);
    UnmappedThenFreed(w, w1, m.Now(), m.sh, m.pmm.totalFrames, r, v, f);
  }

  // ---------------------------------------------------------------- growing

  // No private page is mapped at lo .. hi - 1.
  ghost predicate AllVacant(w: World, sh: Sharing, r: nat, lo: nat, hi: nat)
    requires r in w.trees
  {
    forall v: nat {:trigger Leaf(w.mem, w.trees[r], v)} :: lo <= v < hi ==> Vacant(w, sh, r, v)
  }

  lemma VacantPart(w: World, sh: Sharing, r: nat, lo: nat, hi: nat, end: nat)
    requires r in w.trees && AllVacant(w, sh, r, lo, end) && hi <= end
    ensures AllVacant(w, sh, r, lo, hi)
  {
    forall v: nat | lo <= v < hi ensures Vacant(w, sh, r, v) {
      var leaf := Leaf(w.mem, w.trees[r], v);
    }
  }

  // No page is mapped at lo .. hi - 1.
  ghost predicate AllFree(w: World, r: nat, lo: nat, hi: nat)
    requires r in w.trees
  {
    forall v: nat {:trigger Leaf(w.mem, w.trees[r], v)} :: lo <= v < hi ==> Leaf(w.mem, w.trees[r], v) == None
  }

  // After giving up: all pages are as before, but that shared ones among lo .. hi - 1 may be gone.
  ghost predicate TakenBack(w: World, w': World, sh: Sharing, r: nat, lo: nat, hi: nat)
    requires r in w.trees && r in w'.trees
  {
    && Grown(w, w', sh, r)
    && forall u: nat {:trigger Leaf(w'.mem, w'.trees[r], u)} ::
         Leaf(w'.mem, w'.trees[r], u) == Leaf(w.mem, w.trees[r], u)
         || (lo <= u < hi && Leaf(w'.mem, w'.trees[r], u) == None)
  }

  /** Maps the pages lo .. hi - 1; on failure the pages mapped so far are taken back. */
  method GrowPages(m: Machine, r: nat, lo: nat, hi: nat) returns (ok: bool)
    requires m.Valid() && r in m.trees && lo <= hi <= USER_PAGES
    requires AllVacant(m.Now(), m.sh, r, lo, hi)
    modifies m.Repr()
    ensures m.Valid() && r in m.trees && Grown(old(m.Now()), m.Now(), m.sh, r)
    ensures ok ==> PagesAdded(old(m.Now()), m.Now(), m.sh, r, lo, hi)
    ensures !ok ==> TakenBack(old(m.Now()), m.Now(), m.sh, r, lo, hi)
    ensures !ok ==> Scarce(old(m.Now()), m.pmm.totalFrames, 4 * (hi - lo))
  {
    ghost var w := m.Now();
    GrownItself(w, m.sh, r);
    var v := lo;
    while v < hi
      invariant lo <= v <= hi && m.Valid() && r in m.trees && Grown(w, m.Now(), m.sh, r)
      invariant PagesAdded(w, m.Now(), m.sh, r, lo, v)
      invariant |m.owner| <= |w.owner| + 4 * (v - lo)
    {
      assert Vacant(w, m.sh, r, v) by {
        var leaf := Leaf(w.mem, w.trees[r], v);
      }
      var mapped, frame := AddPage(m, w, r, lo, v);
      if !mapped {
        TakeBack(m, w, r, lo, v);
        StillTakenBack(w, m.Now(), m.sh, r, lo, v, hi);
        return false;
      }
      v := v + 1;
    }
    ok := true;
  }

  lemma StillTakenBack(w: World, w': World, sh: Sharing, r: nat, lo: nat, v: nat, hi: nat)
    requires r in w.trees && r in w'.trees && TakenBack(w, w', sh, r, lo, v) && v <= hi
    ensures TakenBack(w, w', sh, r, lo, hi)
  {
  }

  // While taking back: pages below `undo` are gone again, those from there to v are still there.
  ghost predicate PagesLeft(w: World, w': World, sh: Sharing, r: nat, lo: nat, undo: nat, v: nat)
    requires r in w.trees && r in w'.trees
  {
    forall u: nat {:trigger Leaf(w'.mem, w'.trees[r], u)} ::
      if lo <= u < undo then Leaf(w'.mem, w'.trees[r], u) == None
      else if undo <= u < v then FreshPage(w, w', sh, Leaf(w'.mem, w'.trees[r], u))
      else Leaf(w'.mem, w'.trees[r], u) == Leaf(w.mem, w.trees[r], u)
  }

  lemma OnePageLess(w: World, w1: World, w2: World, sh: Sharing, total: nat, r: nat, lo: nat, undo: nat, v: nat)
    requires r in w.trees && r in w1.trees && r in w2.trees && lo <= undo < v
    requires WorldOk(w1, sh, total) && Grown(w, w1, sh, r) && Dropped(w1, w2, sh, r, undo)
    requires PagesLeft(w, w1, sh, r, lo, undo, v)
    ensures PagesLeft(w, w2, sh, r, lo, undo + 1, v)
    ensures Grown(w, w2, sh, r)
  {
    forall u: nat
      ensures if lo <= u < undo + 1 then Leaf(w2.mem, w2.trees[r], u) == None
              else if undo + 1 <= u < v then FreshPage(w, w2, sh, Leaf(w2.mem, w2.trees[r], u))
              else Leaf(w2.mem, w2.trees[r], u) == Leaf(w.mem, w.trees[r], u)
    {
      assert u != undo ==> Leaf(w2.mem, w2.trees[r], u) == Leaf(w1.mem, w1.trees[r], u);
      if undo < u < v {
        LeafFrame(w1, sh, total, r, u);
      }
    }
    var e := Leaf(w1.mem, w1.trees[r], undo).value;
    assert FreshPage(w, w1, sh, Leaf(w1.mem, w1.trees[r], undo));
    LeafFrame(w1, sh, total, r, undo);
    forall f | f in w.owner ensures f in w2.owner {
      assert Placed(w1, f) && Placed(w1, e.frame);
    }
    DropKeeps(w, w1, w2, sh, r, undo);
  }

  lemma DropKeeps(w: World, w1: World, w2: World, sh: Sharing, r: nat, undo: nat)
    requires r in w.trees && r in w1.trees && r in w2.trees
    requires Grown(w, w1, sh, r) && Dropped(w1, w2, sh, r, undo)
    requires forall f :: f in w.owner ==> f in w2.owner
    ensures Grown(w, w2, sh, r)
  {
  }

  method TakeBack(m: Machine, ghost w: World, r: nat, lo: nat, v: nat)
    requires m.Valid() && r in w.trees && r in m.trees && lo <= v <= USER_PAGES
    requires Grown(w, m.Now(), m.sh, r) && PagesAdded(w, m.Now(), m.sh, r, lo, v)
    modifies m.Repr()
    ensures m.Valid() && r in m.trees && TakenBack(w, m.Now(), m.sh, r, lo, v)
  {
    var undo := lo;
    while undo < v
      invariant lo <= undo <= v && m.Valid() && r in m.trees && Grown(w, m.Now(), m.sh, r)
      invariant PagesLeft(w, m.Now(), m.sh, r, lo, undo, v)
    {
      ghost var w1 := m.Now();
      assert FreshPage(w, w1, m.sh, Leaf(m.mem, m.trees[r], undo));
      DropPage(m, r, undo);
      OnePageLess(w, w1, m.Now(), m.sh, m.pmm.totalFrames, r, lo, undo, v);
      undo := undo + 1;
    }
  }

  // ---------------------------------------------------------------- shrinking

  ghost predicate PageIn(o: Owner, r: nat, lo: nat, hi: nat) {
    o.InTree? && o.root == r && o.node.level == 0 && lo <= o.node.prefix < hi
  }

  // The pages lo .. hi - 1 of r are gone, and no other page of r moved.
  ghost predicate LeavesDropped(w: World, w': World, r: nat, lo: nat, hi: nat)
    requires r in w.trees && r in w'.trees
  {
    forall u: nat {:trigger Leaf(w'.mem, w'.trees[r], u)} ::
      Leaf(w'.mem, w'.trees[r], u) == if lo <= u < hi then None else Leaf(w.mem, w.trees[r], u)
  }

  // Just the frames of those pages are free now; nothing else in use changed contents or hands.
  ghost predicate FramesDropped(w: World, w': World, sh: Sharing, r: nat, lo: nat, hi: nat) {
    && w'.trees.Keys == w.trees.Keys
    && (forall q :: q in w.trees && q != r ==> w'.trees[q] == w.trees[q])
    && (forall f :: f in w'.owner <==> f in w.owner && !PageIn(w.owner[f], r, lo, hi))
    && (forall f :: f in w'.owner ==> w'.owner[f] == w.owner[f])
    && (forall f :: f in w.mem ==> f in w'.mem)
    && (forall f :: f in w.mem && f in w'.owner && !IsTableOf(w, r, f) ==> w'.mem[f] == w.mem[f])
    && (forall f :: f in w.mem && IsShared(sh, f) ==> w'.mem[f] == w.mem[f])
  }

  ghost predicate PagesDropped(w: World, w': World, sh: Sharing, r: nat, lo: nat, hi: nat)
    requires r in w.trees && r in w'.trees
  {
    LeavesDropped(w, w', r, lo, hi) && FramesDropped(w, w', sh, r, lo, hi)
  }

  lemma OneMoreLeaf(w: World, w1: World, w2: World, sh: Sharing, r: nat, lo: nat, v: nat)
    requires r in w.trees && r in w1.trees && r in w2.trees && lo <= v
    requires LeavesDropped(w, w1, r, lo, v) && Dropped(w1, w2, sh, r, v)
    ensures LeavesDropped(w, w2, r, lo, v + 1)
  {
    forall u: nat ensures Leaf(w2.mem, w2.trees[r], u) == if lo <= u < v + 1 then None else Leaf(w.mem, w.trees[r], u) {
      assert u != v ==> Leaf(w2.mem, w2.trees[r], u) == Leaf(w1.mem, w1.trees[r], u);
    }
  }

  lemma OneMoreFrame(w: World, w1: World, w2: World, sh: Sharing, r: nat, lo: nat, v: nat)
    requires r in w1.trees && lo <= v
    requires FramesDropped(w, w1, sh, r, lo, v) && Dropped(w1, w2, sh, r, v)
    ensures FramesDropped(w, w2, sh, r, lo, v + 1)
  {
    forall f ensures f in w2.owner <==> f in w.owner && !PageIn(w.owner[f], r, lo, v + 1) {
      if f in w.owner {
        var o := w.owner[f];
        assert PageIn(o, r, lo, v + 1) <==> PageIn(o, r, lo, v) || o == InTree(r, Node(0, v));
      }
    }
  }

  /** Unmaps the pages lo .. hi - 1, all of them private pages, and frees their frames. */
  method ShrinkPages(m: Machine, r: nat, lo: nat, hi: nat)
    requires m.Valid() && r in m.trees && lo <= hi <= USER_PAGES
    requires AllPrivate(m.Now(), m.sh, r, lo, hi)
    modifies m.Repr()
    ensures m.Valid() && r in m.trees && PagesDropped(old(m.Now()), m.Now(), m.sh, r, lo, hi)
  {
    ghost var w := m.Now();
    NothingDropped(w, m.sh, r, lo);
    var v := lo;
    while v < hi
      invariant lo <= v <= hi && m.Valid() && r in m.trees
      invariant PagesDropped(w, m.Now(), m.sh, r, lo, v)
    {
      DropNext(m, w, r, lo, v, hi);
      v := v + 1;
    }
  }

  lemma NothingDropped(w: World, sh: Sharing, r: nat, lo: nat)
    requires r in w.trees
    ensures PagesDropped(w, w, sh, r, lo, lo)
  {
  }

  method DropNext(m: Machine, ghost w: World, r: nat, ghost lo: nat, v: nat, ghost hi: nat)
    requires m.Valid() && r in w.trees && r in m.trees && lo <= v < hi <= USER_PAGES
    requires AllPrivate(w, m.sh, r, lo, hi) && PagesDropped(w, m.Now(), m.sh, r, lo, v)
    modifies m.Repr()
    ensures m.Valid() && r in m.trees && PagesDropped(w, m.Now(), m.sh, r, lo, v + 1)
  {
    ghost var w1 := m.Now();
    StillPrivate(w, w1, m.sh, r, lo, v, hi);
    DropPage(m, r, v);
    OneMoreLeaf(w, w1, m.Now(), m.sh, r, lo, v);
    OneMoreFrame(w, w1, m.Now(), m.sh, r, lo, v);
  }

  ghost predicate AllPrivate(w: World, sh: Sharing, r: nat, lo: nat, hi: nat)
    requires r in w.trees
  {
    forall v: nat {:trigger Leaf(w.mem, w.trees[r], v)} :: lo <= v < hi ==>
      Leaf(w.mem, w.trees[r], v).Some? && !IsShared(sh, Leaf(w.mem, w.trees[r], v).value.frame)
  }

  lemma StillPrivate(w: World, w1: World, sh: Sharing, r: nat, lo: nat, v: nat, hi: nat)
    requires r in w.trees && r in w1.trees && lo <= v < hi
    requires AllPrivate(w, sh, r, lo, hi) && LeavesDropped(w, w1, r, lo, v)
    ensures Leaf(w1.mem, w1.trees[r], v).Some? && !IsShared(sh, Leaf(w1.mem, w1.trees[r], v).value.frame)
  {
    assert Leaf(w1.mem, w1.trees[r], v) == Leaf(w.mem, w.trees[r], v);
  }

  // ---------------------------------------------------------------- the system call

  // The heap of a task is exactly the private pages from brkStart up to brk, and there is room to grow.
  ghost predicate HeapOk(w: World, sh: Sharing, r: nat, mm: Mm)
    requires r in w.trees
  {
    && mm.brkStart % 4096 == 0 && mm.brkStart <= mm.brk <= mm.brkStart + USER_HEAP_MAX <= USER_SPACE_LIMIT
    && AllPrivate(w, sh, r, mm.brkStart / 4096, PageUp(mm.brk))
    && AllVacant(w, sh, r, PageUp(mm.brk), HeapEnd(mm))
  }

  // The page after the last one that the heap may ever have.
  function HeapEnd(mm: Mm): nat {
    (mm.brkStart + USER_HEAP_MAX) / 4096
  }

  // Nothing else is mapped where the heap may grow.
  ghost predicate RoomToGrow(w: World, r: nat, mm: Mm)
    requires r in w.trees
  {
    AllFree(w, r, PageUp(mm.brk), HeapEnd(mm))
  }

  // The requests that are not turned down at once.
  predicate Accepted(mm: Mm, increment: int) {
    if increment >= 0 then mm.brk + increment <= mm.brkStart + USER_HEAP_MAX && increment <= USER_HEAP_MAX
    else mm.brkStart <= mm.brk + increment
  }

  // Turned down at once, with nothing touched; or memory is short, and the pages added were taken back.
  ghost predicate Refused(w: World, w': World, sh: Sharing, total: nat, r: nat, mm: Mm, increment: int)
    requires r in w.trees && r in w'.trees
  {
    if Accepted(mm, increment) then
      && increment > 0 && TakenBack(w, w', sh, r, PageUp(mm.brk), PageUp(mm.brk + increment))
      && Scarce(w, total, 4 * (PageUp(mm.brk + increment) - PageUp(mm.brk)))
    else w' == w
  }

  lemma PageUpBelowEnd(mm: Mm, brk: nat)
    requires mm.brkStart % 4096 == 0 && brk <= mm.brkStart + USER_HEAP_MAX
    ensures PageUp(brk) <= HeapEnd(mm)
    ensures mm.brkStart + USER_HEAP_MAX <= USER_SPACE_LIMIT ==> PageUp(brk) <= USER_PAGES
  {
  }

  lemma TakenBackFully(w: World, w': World, sh: Sharing, r: nat, lo: nat, hi: nat)
    requires r in w.trees && r in w'.trees && TakenBack(w, w', sh, r, lo, hi) && AllFree(w, r, lo, hi)
    ensures SameLeaves(w, w', r)
  {
  }

  // No page of r moved.
  ghost predicate SameLeaves(w: World, w': World, r: nat)
    requires r in w.trees && r in w'.trees
  {
    forall u: nat {:trigger Leaf(w'.mem, w'.trees[r], u)} :: Leaf(w'.mem, w'.trees[r], u) == Leaf(w.mem, w.trees[r], u)
  }

  // With nothing else in the way of the heap, a refused request leaves every page where it was.
  lemma RefusedChangesNothing(w: World, w': World, sh: Sharing, total: nat, r: nat, mm: Mm, increment: int)
    requires r in w.trees && r in w'.trees && Refused(w, w', sh, total, r, mm, increment)
    requires mm.brkStart % 4096 == 0 && RoomToGrow(w, r, mm)
    ensures Grown(w, w', sh, r) && SameLeaves(w, w', r)
  {
    if Accepted(mm, increment) {
      var hi := PageUp(mm.brk + increment);
      PageUpBelowEnd(mm, mm.brk + increment);
      assert AllFree(w, r, PageUp(mm.brk), hi);
      TakenBackFully(w, w', sh, r, PageUp(mm.brk), hi);
    } else {
      GrownItself(w, sh, r);
    }
  }

  // The pages between the old and the new end were added or dropped.
  ghost predicate HeapMoved(w: World, w': World, sh: Sharing, r: nat, oldPage: nat, newPage: nat)
    requires r in w.trees && r in w'.trees
  {
    if newPage >= oldPage then Grown(w, w', sh, r) && PagesAdded(w, w', sh, r, oldPage, newPage)
    else PagesDropped(w, w', sh, r, newPage, oldPage)
  }

  // The heap pages are where brk says, before and after.
  lemma HeapMovedOk(w: World, w': World, sh: Sharing, r: nat, mm: Mm, newBrk: nat)
    requires r in w.trees && r in w'.trees && HeapOk(w, sh, r, mm)
    requires mm.brkStart <= newBrk <= mm.brkStart + USER_HEAP_MAX
    requires HeapMoved(w, w', sh, r, PageUp(mm.brk), PageUp(newBrk))
    ensures HeapOk(w', sh, r, mm.(brk := newBrk))
    ensures RoomToGrow(w, r, mm) ==> RoomToGrow(w', r, mm.(brk := newBrk))
  {
    forall v: nat | mm.brkStart / 4096 <= v < HeapEnd(mm)
      ensures if v < PageUp(newBrk) then !Vacant(w', sh, r, v) else Vacant(w', sh, r, v)
      ensures RoomToGrow(w, r, mm) && v >= PageUp(newBrk) ==> Leaf(w'.mem, w'.trees[r], v) == None
    {
      assert if v < PageUp(mm.brk) then !Vacant(w, sh, r, v) else Vacant(w, sh, r, v);
    }
  }

  lemma TakenBackOk(w: World, w': World, sh: Sharing, r: nat, mm: Mm, hi: nat)
    requires r in w.trees && r in w'.trees && HeapOk(w, sh, r, mm) && TakenBack(w, w', sh, r, PageUp(mm.brk), hi)
    ensures HeapOk(w', sh, r, mm)
    ensures RoomToGrow(w, r, mm) ==> RoomToGrow(w', r, mm)
  {
    forall v: nat | mm.brkStart / 4096 <= v < HeapEnd(mm)
      ensures if v < PageUp(mm.brk) then !Vacant(w', sh, r, v) else Vacant(w', sh, r, v)
      ensures RoomToGrow(w, r, mm) && v >= PageUp(mm.brk) ==> Leaf(w'.mem, w'.trees[r], v) == None
    {
      assert if v < PageUp(mm.brk) then !Vacant(w, sh, r, v) else Vacant(w, sh, r, v);
    }
  }

  // What a call came to: the old end is returned and the end has moved, or -1 and the end is where it was.
  ghost predicate HeapStep(w: World, w': World, sh: Sharing, total: nat, r: nat, mm: Mm, increment: int, ret: int,
                           mm': Mm) {
    && r in w.trees && r in w'.trees
    && if ret == -1 then mm' == mm && Refused(w, w', sh, total, r, mm, increment)
       else
         && ret == mm.brk && Accepted(mm, increment) && mm' == mm.(brk := mm.brk + increment)
         && HeapMoved(w, w', sh, r, PageUp(mm.brk), PageUp(mm'.brk))
  }

  /** A heap that grows and shrinks back leaves every page where it was exactly when nothing else was mapped in the
      range that it grew into. */
  lemma ThereAndBack(w: World, w1: World, w2: World, sh: Sharing, total: nat, r: nat, mm: Mm, increment: int,
                     ret: int, mm1: Mm, ret2: int, mm2: Mm)
    requires HeapStep(w, w1, sh, total, r, mm, increment, ret, mm1) && HeapOk(w, sh, r, mm)
    requires increment > 0 && ret != -1
    requires HeapStep(w1, w2, sh, total, r, mm1, -increment, ret2, mm2)
    ensures ret2 == mm1.brk && mm2 == mm
    ensures SameLeaves(w, w2, r) <==> AllFree(w, r, PageUp(mm.brk), PageUp(mm.brk + increment))
  {
    var lo, hi := PageUp(mm.brk), PageUp(mm.brk + increment);
    forall u: nat ensures Leaf(w2.mem, w2.trees[r], u) == if lo <= u < hi then None else Leaf(w.mem, w.trees[r], u) {
      assert !(lo <= u < hi) ==> Leaf(w1.mem, w1.trees[r], u) == Leaf(w.mem, w.trees[r], u);
    }
  }

  /** The answer in the caller's terms: the end moves exactly as asked if that keeps it between the start of the heap
      and USER_HEAP_MAX bytes behind it, unless the heap grows and there may be too few free frames, of which a page
      takes at most four; else it stays, with all of memory. */
  ghost predicate Answered(w: World, w': World, total: nat, mm: Mm, increment: int, ret: int, mm': Mm) {
    if mm.brkStart <= mm.brk + increment <= mm.brkStart + USER_HEAP_MAX then
      if ret == -1 then
        && increment > 0 && mm' == mm
        && |w.owner| + 4 * ((mm.brk + increment + 4095) / 4096 - (mm.brk + 4095) / 4096) >= total - 1
      else ret == mm.brk && mm' == mm.(brk := mm.brk + increment)
    else ret == -1 && mm' == mm && w' == w
  }

  lemma StepAnswers(w: World, w': World, sh: Sharing, total: nat, r: nat, mm: Mm, increment: int, ret: int, mm': Mm)
    requires HeapStep(w, w', sh, total, r, mm, increment, ret, mm') && HeapOk(w, sh, r, mm)
    ensures Answered(w, w', total, mm, increment, ret, mm')
  {
  }

  /** The heap is where the program expects it: of the pages that it may ever have, those that begin below brk have
      frames of their own, and no other has. */
  lemma HeapEndsAtBrk(w: World, sh: Sharing, r: nat, mm: Mm, v: nat)
    requires r in w.trees && HeapOk(w, sh, r, mm)
    requires mm.brkStart <= 4096 * v < mm.brkStart + USER_HEAP_MAX
    ensures var leaf := Leaf(w.mem, w.trees[r], v);
      4096 * v < mm.brk <==> leaf.Some? && !IsShared(sh, leaf.value.frame)
  {
    assert 4096 * v < mm.brk <==> v < PageUp(mm.brk);
    assert 4096 * v >= mm.brk ==> Vacant(w, sh, r, v);
  }

  /** And it is an array of bytes that begins with zeros: what it held stays, and a page that was added reads as zeros.
      */
  lemma HeapKeepsBytes(w: World, w': World, sh: Sharing, total: nat, r: nat, mm: Mm, increment: int, ret: int, mm': Mm,
                       x: nat)
    requires WorldOk(w, sh, total) && r in w.trees && r in w'.trees && HeapOk(w, sh, r, mm)
    requires HeapStep(w, w', sh, total, r, mm, increment, ret, mm') && ret != -1 && mm.brkStart <= x < mm'.brk
    ensures ReadByte(w'.mem, w'.trees[r], x) ==
      if x / 4096 < (mm.brk + 4095) / 4096 then ReadByte(w.mem, w.trees[r], x) else 0
    ensures x / 4096 >= (mm.brk + 4095) / 4096 ==> Open(w'.mem, w'.trees[r], x, true)
  {
    if x / 4096 < PageUp(mm.brk) {
      assert Leaf(w'.mem, w'.trees[r], x / 4096) == Leaf(w.mem, w.trees[r], x / 4096);
      LeafFrame(w, sh, total, r, x / 4096);
    } else {
      assert FreshPage(w, w', sh, Leaf(w'.mem, w'.trees[r], x / 4096));
    }
  }

  lemma NoStep(w: World, sh: Sharing, total: nat, r: nat, mm: Mm)
    requires r in w.trees && HeapOk(w, sh, r, mm)
    ensures HeapStep(w, w, sh, total, r, mm, 0, mm.brk, mm)
  {
    GrownItself(w, sh, r);
  }

  /** Moves the end of the heap; returns the old end, or -1 with the heap as it was. */
  method TaskSbrk(m: Machine, r: nat, mm: Mm, increment: int) returns (ret: int, mm': Mm)
    requires m.Valid() && r in m.trees && HeapOk(m.Now(), m.sh, r, mm)
    modifies m.Repr()
    ensures m.Valid() && r in m.trees && HeapOk(m.Now(), m.sh, r, mm')
    ensures old(RoomToGrow(m.Now(), r, mm)) ==> RoomToGrow(m.Now(), r, mm')
    ensures HeapStep(old(m.Now()), m.Now(), m.sh, m.pmm.totalFrames, r, mm, increment, ret, mm')
    ensures Answered(old(m.Now()), m.Now(), m.pmm.totalFrames, mm, increment, ret, mm')
    ensures ret == -1 ==> mm' == mm
    ensures mm.brkStart <= mm.brk + increment <= mm.brkStart + USER_HEAP_MAX && (ret != -1 || increment <= 0) ==>
      ret == mm.brk && mm' == mm.(brk := mm.brk + increment)
    ensures !(mm.brkStart <= mm.brk + increment <= mm.brkStart + USER_HEAP_MAX) ==> ret == -1
  {
    ret, mm' := -1, mm;
    if increment == 0 {
      NoStep(m.Now(), m.sh, m.pmm.totalFrames, r, mm);
      ret := mm.brk;
      return;
    }
    var accepted, newBrk := NewEnd(mm, increment);
    if accepted {
      ret, mm' := MoveEnd(m, r, mm, increment, newBrk);
    }
    StepAnswers(old(m.Now()), m.Now(), m.sh, m.pmm.totalFrames, r, mm, increment, ret, mm');
  }

  // What the caller is told, and what it may rely on afterwards.
  ghost predicate StepDone(w: World, w': World, sh: Sharing, total: nat, r: nat, mm: Mm, increment: int, ret: int,
                           mm': Mm)
    requires r in w.trees
  {
    && HeapStep(w, w', sh, total, r, mm, increment, ret, mm') && HeapOk(w', sh, r, mm')
    && (RoomToGrow(w, r, mm) ==> RoomToGrow(w', r, mm'))
  }

  lemma EndMoved(w: World, w': World, sh: Sharing, total: nat, r: nat, mm: Mm, increment: int)
    requires r in w.trees && r in w'.trees && HeapOk(w, sh, r, mm) && Accepted(mm, increment)
    requires HeapMoved(w, w', sh, r, PageUp(mm.brk), PageUp(mm.brk + increment))
    ensures StepDone(w, w', sh, total, r, mm, increment, mm.brk, mm.(brk := mm.brk + increment))
  {
    HeapMovedOk(w, w', sh, r, mm, mm.brk + increment);
  }

  lemma EndKept(w: World, w': World, sh: Sharing, total: nat, r: nat, mm: Mm, increment: int)
    requires r in w.trees && r in w'.trees && HeapOk(w, sh, r, mm) && Accepted(mm, increment) && increment > 0
    requires TakenBack(w, w', sh, r, PageUp(mm.brk), PageUp(mm.brk + increment))
    requires Scarce(w, total, 4 * (PageUp(mm.brk + increment) - PageUp(mm.brk)))
    ensures StepDone(w, w', sh, total, r, mm, increment, -1, mm)
  {
    TakenBackOk(w, w', sh, r, mm, PageUp(mm.brk + increment));
  }

  // Where the heap would end, if the request is accepted.
  method NewEnd(mm: Mm, increment: int) returns (ok: bool, newBrk: nat)
    requires mm.brkStart <= mm.brk && increment != 0
    ensures ok <==> Accepted(mm, increment)
    ensures ok ==> newBrk == mm.brk + increment
  {
    newBrk := mm.brk;
    if increment > 0 {
      if increment > USER_HEAP_MAX || mm.brk + increment > mm.brkStart + USER_HEAP_MAX {
        return false, newBrk;
      }
      newBrk := mm.brk + increment;
    } else {
      var dec := -increment;
      if dec > mm.brk || mm.brk - dec < mm.brkStart {
        return false, newBrk;
      }
      newBrk := mm.brk - dec;
    }
    ok := true;
  }

  method MoveEnd(m: Machine, r: nat, mm: Mm, ghost increment: int, newBrk: nat) returns (ret: int, mm': Mm)
    requires m.Valid() && r in m.trees && HeapOk(m.Now(), m.sh, r, mm)
    requires Accepted(mm, increment) && newBrk == mm.brk + increment
    modifies m.Repr()
    ensures m.Valid() && r in m.trees
    ensures StepDone(old(m.Now()), m.Now(), m.sh, m.pmm.totalFrames, r, mm, increment, ret, mm')
  {
    ghost var w := m.Now();
    var oldPage, newPage := PageUp(mm.brk), PageUp(newBrk);
    ret, mm' := mm.brk, mm.(brk := newBrk);
    if newPage > oldPage {
      PageUpBelowEnd(mm, newBrk);
      VacantPart(w, m.sh, r, oldPage, newPage, HeapEnd(mm));
      var ok := GrowPages(m, r, oldPage, newPage);
      if !ok {
        EndKept(w, m.Now(), m.sh, m.pmm.totalFrames, r, mm, increment);
        return -1, mm;
      }
    } else if newPage < oldPage {
      ShrinkPages(m, r, newPage, oldPage);
    } else {
      GrownItself(w, m.sh, r);
    }
    EndMoved(w, m.Now(), m.sh, m.pmm.totalFrames, r, mm, increment);
  }
}
