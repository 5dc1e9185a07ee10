/** Adding pages to one address space: the relation all such steps satisfy, and mapping a fresh frame. */
module Growth {
  import opened PageEntry
  import opened PageTree
  import opened World
  import opened WorldEdit
  import opened Vmm

  // From w to w' only the tree of `r` grew: nothing in use before changed contents or hands.
  ghost predicate Grown(w: World, w': World, sh: Sharing, r: nat)
    requires r in w.trees
  {
    && r in w'.trees && KeepsOthers(w, w', sh, r)
    && (forall f :: f in w.owner ==> f in w'.owner && w'.owner[f] == w.owner[f])
    && (forall f :: f in w'.owner && f !in w.owner ==> w'.owner[f].InTree? && w'.owner[f].root == r)
  }

  ghost predicate KeepsOthers(w: World, w': World, sh: Sharing, r: nat) {
    && w'.trees.Keys == w.trees.Keys
    && (forall q :: q in w.trees && q != r ==> w'.trees[q] == w.trees[q])
    && (forall f :: f in w.mem ==> f in w'.mem)
    && (forall f :: f in w.mem && f in w.owner && !IsTableOf(w, r, f) ==> w'.mem[f] == w.mem[f])
    && (forall f :: f in w.mem && IsShared(sh, f) ==> w'.mem[f] == w.mem[f])
  }

  lemma GrownTrans(w0: World, w1: World, w2: World, sh: Sharing, r: nat)
    requires r in w0.trees && r in w1.trees && Grown(w0, w1, sh, r) && Grown(w1, w2, sh, r)
    ensures Grown(w0, w2, sh, r)
  {
  }

  // Other trees are what they were, leaf by leaf and byte by byte.
  lemma GrownKeeps(w: World, w': World, sh: Sharing, total: nat, r: nat, q: nat, v: nat)
    requires WorldOk(w, sh, total) && r in w.trees && Grown(w, w', sh, r)
    requires q in w.trees && q != r
    ensures Leaf(w'.mem, w'.trees[q], v) == Leaf(w.mem, w.trees[q], v)
  {
    assert TreeAt(w, sh, q);
    if Over(v, 1) in w.trees[q] {
      assert Owns(w, q, Over(v, 1)) && NodeOk(w.mem, w.trees[q], sh, Over(v, 1));
    }
  }

  // A mapped frame is shared, or a page owned by the tree that maps it.
  lemma LeafFrame(w: World, sh: Sharing, total: nat, q: nat, v: nat)
    requires WorldOk(w, sh, total) && q in w.trees && Leaf(w.mem, w.trees[q], v).Some?
    ensures var e := Leaf(w.mem, w.trees[q], v).value;
      && MapFlags(e.low) && e.frame in w.mem && IsPage(w.mem[e.frame])
      && (!IsShared(sh, e.frame) ==> e.frame in w.owner && w.owner[e.frame] == InTree(q, Node(0, v)))
  {
    var e := Leaf(w.mem, w.trees[q], v).value;
    assert TreeAt(w, sh, q);
    assert NodeOk(w.mem, w.trees[q], sh, Over(v, 1)) && EntryOk(w.mem, w.trees[q], sh, Over(v, 1), v % 512);
    assert Child(Over(v, 1), v % 512) == Node(0, v);
    if !IsShared(sh, e.frame) {
      assert Owns(w, q, Node(0, v)) && NodeOk(w.mem, w.trees[q], sh, Node(0, v));
    }
  }

  lemma GrownItself(w: World, sh: Sharing, r: nat)
    requires r in w.trees
    ensures Grown(w, w, sh, r)
  {
  }

  // No private page is mapped at v.
  ghost predicate Vacant(w: World, sh: Sharing, q: nat, v: nat)
    requires q in w.trees
  {
    Leaf(w.mem, w.trees[q], v).Some? ==> IsShared(sh, Leaf(w.mem, w.trees[q], v).value.frame)
  }

  lemma NodeIsPrivatePage(mem: Mem, nodes: Nodes, sh: Sharing, v: nat)
    requires TreeOk(mem, nodes, sh) && Node(0, v) in nodes
    ensures Leaf(mem, nodes, v).Some? && !IsShared(sh, Leaf(mem, nodes, v).value.frame)
  {
    assert Child(Over(v, 1), v % 512) == Node(0, v);
    assert NodeOk(mem, nodes, sh, Node(0, v));
    assert Parent(Node(0, v)) == Over(v, 1) && NodeOk(mem, nodes, sh, Over(v, 1));
    assert EntryOk(mem, nodes, sh, Over(v, 1), v % 512);
  }

  // No frame is owned as page v of a tree in which v has no private page.
  lemma NoPageOwned(w: World, sh: Sharing, total: nat, q: nat, v: nat, f: nat)
    requires WorldOk(w, sh, total) && q in w.trees && Vacant(w, sh, q, v) && f in w.owner
    ensures w.owner[f] != InTree(q, Node(0, v))
  {
    assert Placed(w, f) && TreeAt(w, sh, q);
    if Node(0, v) in w.trees[q] {
      NodeIsPrivatePage(w.mem, w.trees[q], sh, v);
    }
  }

  lemma MappedIsGrown(w: World, w': World, sh: Sharing, total: nat, r: nat, v: nat, e: Entry)
    requires WorldOk(w, sh, total) && r in w.trees && r in w'.trees
    requires Mapped(w, w', sh, r, v, e) && IsShared(sh, e.frame) && Vacant(w, sh, r, v)
    ensures Grown(w, w', sh, r)
  {
    forall f | f in w.owner ensures w'.owner[f] == w.owner[f] {
      NoPageOwned(w, sh, total, r, v, f);
    }
  }

  lemma GrewIsGrown(w: World, w': World, sh: Sharing, r: nat)
    requires r in w.trees && r in w'.trees && Grew(w, w', sh, r)
    ensures Grown(w, w', sh, r)
  {
  }

  // A fresh frame is filled and then mapped as page v, or given back when mapping failed.
  ghost function Filled(w: World, f: nat, x: Frame): World {
    World(w.mem[f := x], w.owner[f := Loose], w.trees)
  }

  lemma FilledMapped(w: World, w': World, sh: Sharing, total: nat, r: nat, v: nat, f: nat, x: Frame, e: Entry)
    requires WorldOk(w, sh, total) && r in w.trees && r in w'.trees
    requires f !in w.owner && f < total && e.frame == f
    requires WorldOk(Filled(w, f, x), sh, total) && Vacant(Filled(w, f, x), sh, r, v)
    requires Mapped(Filled(w, f, x), w', sh, r, v, e)
    ensures Grown(w, w', sh, r)
    ensures f in w'.mem && w'.mem[f] == x
  {
    forall g | g in w.owner ensures w'.owner[g] == w.owner[g] {
      NoPageOwned(Filled(w, f, x), sh, total, r, v, g);
    }
    assert !IsShared(sh, f);
    assert w'.owner[f] == OwnerOnceMapped(Filled(w, f, x), sh, r, v, e, f);
  }

  lemma FilledReturned(w: World, w': World, w'': World, sh: Sharing, r: nat, f: nat, x: Frame)
    requires r in w.trees && r in w'.trees
    requires f !in w.owner && !IsShared(sh, f)
    requires Grew(Filled(w, f, x), w', sh, r)
    requires w'' == w'.(owner := w'.owner - {f})
    ensures Grown(w, w'', sh, r)
  {
  }

  method MapOrReturn(m: Machine, ghost w: World, r: nat, v: nat, d: Entry, ghost x: Frame) returns (ok: bool)
    requires m.Valid() && r in m.trees && v < USER_PAGES && MapFlags(d.low)
    requires WorldOk(w, m.sh, m.pmm.totalFrames) && d.frame !in w.owner && m.Now() == Filled(w, d.frame, x) && IsPage(x)
    requires Vacant(m.Now(), m.sh, r, v)
    modifies m.Repr()
    ensures m.Valid() && r in m.trees && Grown(w, m.Now(), m.sh, r)
    ensures forall u: nat :: u != v ==> Leaf(m.mem, m.trees[r], u) == old(Leaf(m.mem, m.trees[r], u))
    ensures ok ==> Leaf(m.mem, m.trees[r], v) == Some(d) && d.frame in m.mem && m.mem[d.frame] == x
    ensures ok ==> !IsShared(m.sh, d.frame)
    ensures !ok ==> Leaf(m.mem, m.trees[r], v) == old(Leaf(m.mem, m.trees[r], v))
    ensures Machine.AddsOnPath(w, m.Now(), r, v)
    ensures |m.owner| <= |w.owner| + 4 && (!ok ==> Scarce(w, m.pmm.totalFrames, 4))
  {
    var rc := m.MapPage(r, v, d.frame, d.low, d.nx);
    ghost var w' := m.Now();
    if rc != 0 {
      m.FullIsScarce();
      m.FreeFrame(d.frame);
      FilledReturned(w, w', m.Now(), m.sh, r, d.frame, x);
    } else {
      FilledMapped(w, w', m.sh, m.pmm.totalFrames, r, v, d.frame, x, d);
    }
    ok := rc == 0;
  }

  method MapShared(m: Machine, r: nat, v: nat, e: Entry) returns (ok: bool)
    requires m.Valid() && r in m.trees && v < USER_PAGES && MapFlags(e.low) && IsShared(m.sh, e.frame)
    requires Leaf(m.mem, m.trees[r], v) == None
    modifies m.Repr()
    ensures m.Valid() && r in m.trees && Grown(old(m.Now()), m.Now(), m.sh, r)
    ensures forall u: nat :: u != v ==> Leaf(m.mem, m.trees[r], u) == old(Leaf(m.mem, m.trees[r], u))
    ensures ok ==> Leaf(m.mem, m.trees[r], v) == Some(e)
    ensures !ok ==> Leaf(m.mem, m.trees[r], v) == None
    ensures Machine.AddsOnPath(old(m.Now()), m.Now(), r, v) && (ok ==> Node(0, v) !in m.trees[r])
    ensures |m.owner| <= |old(m.owner)| + 3 && (!ok ==> Scarce(old(m.Now()), m.pmm.totalFrames, 3))
  {
    ghost var w := m.Now();
    var rc := m.MapPage(r, v, e.frame, e.low, e.nx);
    if rc == 0 {
      MappedIsGrown(w, m.Now(), m.sh, m.pmm.totalFrames, r, v, e);
    } else {
      GrewIsGrown(w, m.Now(), m.sh, r);
      m.FullIsScarce();
    }
    ok := rc == 0;
  }

  /** Maps a zeroed frame of its own at page v; false, with nothing kept but tables, when memory runs out. */
  method MapZeroed(m: Machine, r: nat, v: nat, low: Flags, nx: bool) returns (ok: bool, frame: nat)
    requires m.Valid() && r in m.trees && v < USER_PAGES && MapFlags(low)
    requires Vacant(m.Now(), m.sh, r, v)
    modifies m.Repr()
    ensures m.Valid() && r in m.trees && Grown(old(m.Now()), m.Now(), m.sh, r)
    ensures forall u: nat :: u != v ==> Leaf(m.mem, m.trees[r], u) == old(Leaf(m.mem, m.trees[r], u))
    ensures ok ==> Leaf(m.mem, m.trees[r], v) == Some(Entry(frame, low, nx))
    ensures ok ==> frame !in old(m.owner) && frame in m.mem && m.mem[frame] == ZeroPage() && !IsShared(m.sh, frame)
    ensures !ok ==> Leaf(m.mem, m.trees[r], v) == old(Leaf(m.mem, m.trees[r], v))
    ensures |m.owner| <= |old(m.owner)| + 4 && (!ok ==> Scarce(old(m.Now()), m.pmm.totalFrames, 4))
  {
    ghost var w := m.Now();
    frame := m.AllocFrameZeroed();
    if frame == 0 {
      GrownItself(w, m.sh, r);
      m.FullIsScarce();
      return false, 0;
    }
    ok := MapOrReturn(m, w, r, v, Entry(frame, low, nx), ZeroPage());
  }

  // A new page: writable user memory, zeroed, on a frame that was free in w.
  ghost predicate FreshPage(w: World, w': World, sh: Sharing, page: Option<Entry>) {
    && page.Some? && page.value.low == USER_WRITE && !page.value.nx
    && !IsShared(sh, page.value.frame) && page.value.frame !in w.owner
    && page.value.frame in w'.mem && w'.mem[page.value.frame] == ZeroPage()
  }

  // From w to w' the pages lo .. hi - 1 of r were added, and no other page moved.
  ghost predicate PagesAdded(w: World, w': World, sh: Sharing, r: nat, lo: nat, hi: nat)
    requires r in w.trees && r in w'.trees
  {
    forall u: nat {:trigger Leaf(w'.mem, w'.trees[r], u)} ::
      if lo <= u < hi then FreshPage(w, w', sh, Leaf(w'.mem, w'.trees[r], u))
      else Leaf(w'.mem, w'.trees[r], u) == Leaf(w.mem, w.trees[r], u)
  }

  lemma OneMorePage(w: World, w1: World, w2: World, sh: Sharing, total: nat, r: nat, lo: nat, v: nat)
    requires r in w.trees && r in w1.trees && r in w2.trees && lo <= v
    requires WorldOk(w1, sh, total) && Grown(w, w1, sh, r) && Grown(w1, w2, sh, r)
    requires PagesAdded(w, w1, sh, r, lo, v)
    requires forall u: nat :: u != v ==> Leaf(w2.mem, w2.trees[r], u) == Leaf(w1.mem, w1.trees[r], u)
    requires FreshPage(w1, w2, sh, Leaf(w2.mem, w2.trees[r], v))
    ensures PagesAdded(w, w2, sh, r, lo, v + 1)
  {
    forall u: nat
      ensures if lo <= u < v + 1 then FreshPage(w, w2, sh, Leaf(w2.mem, w2.trees[r], u))
              else Leaf(w2.mem, w2.trees[r], u) == Leaf(w.mem, w.trees[r], u)
    {
      if u != v && lo <= u < v + 1 {
        assert FreshPage(w, w1, sh, Leaf(w1.mem, w1.trees[r], u));
        LeafFrame(w1, sh, total, r, u);
      } else if u != v {
        assert Leaf(w1.mem, w1.trees[r], u) == Leaf(w.mem, w.trees[r], u);
      }
    }
  }

  lemma StillAdded(w: World, w1: World, w2: World, sh: Sharing, total: nat, r: nat, lo: nat, v: nat)
    requires r in w.trees && r in w1.trees && r in w2.trees && lo <= v
    requires WorldOk(w1, sh, total) && Grown(w, w1, sh, r) && Grown(w1, w2, sh, r)
    requires PagesAdded(w, w1, sh, r, lo, v)
    requires forall u: nat :: Leaf(w2.mem, w2.trees[r], u) == Leaf(w1.mem, w1.trees[r], u)
    ensures PagesAdded(w, w2, sh, r, lo, v)
  {
    forall u: nat
      ensures if lo <= u < v then FreshPage(w, w2, sh, Leaf(w2.mem, w2.trees[r], u))
              else Leaf(w2.mem, w2.trees[r], u) == Leaf(w.mem, w.trees[r], u)
    {
      assert Leaf(w1.mem, w1.trees[r], u) == Leaf(w2.mem, w2.trees[r], u);
      if lo <= u < v {
        LeafFrame(w1, sh, total, r, u);
      }
    }
  }

  /** One step of a loop that adds the pages from lo on: page v gets a zeroed frame, or all stays as it is. */
  method AddPage(m: Machine, ghost w: World, r: nat, ghost lo: nat, v: nat) returns (ok: bool, frame: nat)
    requires m.Valid() && r in m.trees && r in w.trees && lo <= v < USER_PAGES && Grown(w, m.Now(), m.sh, r)
    requires PagesAdded(w, m.Now(), m.sh, r, lo, v) && Vacant(w, m.sh, r, v)
    modifies m.Repr()
    ensures m.Valid() && r in m.trees && Grown(w, m.Now(), m.sh, r)
    ensures PagesAdded(w, m.Now(), m.sh, r, lo, if ok then v + 1 else v)
    ensures ok ==> Leaf(m.mem, m.trees[r], v) == Some(Entry(frame, USER_WRITE, false))
    ensures |m.owner| <= |old(m.owner)| + 4 && (!ok ==> Scarce(old(m.Now()), m.pmm.totalFrames, 4))
  {
    ghost var w1 := m.Now();
    assert Leaf(m.mem, m.trees[r], v) == Leaf(w.mem, w.trees[r], v);
    ok, frame := MapZeroed(m, r, v, USER_WRITE, false);
    GrownTrans(w, w1, m.Now(), m.sh, r);
    if ok {
      OneMorePage(w, w1, m.Now(), m.sh, m.pmm.totalFrames, r, lo, v);
    } else {
      StillAdded(w, w1, m.Now(), m.sh, m.pmm.totalFrames, r, lo, v);
    }
  }

  // ---------------------------------------------------------------- a new address space

  // What was in use before is in use as before, with the same contents.
  ghost predicate Preserved(w: World, w': World) {
    && (forall f :: f in w.owner ==> f in w'.owner && w'.owner[f] == w.owner[f])
    && (forall f :: f in w.owner && f in w.mem ==> f in w'.mem && w'.mem[f] == w.mem[f])
    && (forall q :: q in w.trees ==> q in w'.trees && w'.trees[q] == w.trees[q])
  }

  // The tree of `root` is new and stands on frames that were free; nothing else changed.
  ghost predicate NewTree(w: World, w': World, root: nat) {
    && Preserved(w, w') && root !in w.owner && root !in w.trees
    && w'.trees.Keys == w.trees.Keys + {root}
    && (forall f :: f in w'.owner && f !in w.owner ==> w'.owner[f].InTree? && w'.owner[f].root == root)
  }

  lemma NewRootGrown(w: World, w1: World, w2: World, sh: Sharing, total: nat, root: nat)
    requires WorldOk(w, sh, total) && root !in w.owner && root !in w.trees && !IsShared(sh, root)
    requires root in w1.mem && w1 == RootWorld(w, root, w1.mem[root])
    requires Grown(w1, w2, sh, root)
    ensures NewTree(w, w2, root)
  {
    forall f | f in w.owner && f in w.mem ensures f in w2.mem && w2.mem[f] == w.mem[f] {
      NewRootElsewhere(w, w1, w2, sh, total, root, f);
    }
    NewRootBooks(w, w1, w2, sh, root);
  }

  lemma NewRootBooks(w: World, w1: World, w2: World, sh: Sharing, root: nat)
    requires root !in w.owner && root !in w.trees && root in w1.mem && w1 == RootWorld(w, root, w1.mem[root])
    requires Grown(w1, w2, sh, root)
    ensures forall f :: f in w.owner ==> f in w2.owner && w2.owner[f] == w.owner[f]
    ensures forall f :: f in w2.owner && f !in w.owner ==> w2.owner[f].InTree? && w2.owner[f].root == root
    ensures w2.trees.Keys == w.trees.Keys + {root}
    ensures forall q :: q in w.trees ==> q in w2.trees && w2.trees[q] == w.trees[q]
  {
  }

  lemma NewRootElsewhere(w: World, w1: World, w2: World, sh: Sharing, total: nat, root: nat, f: nat)
    requires WorldOk(w, sh, total) && root !in w.owner && root !in w.trees && !IsShared(sh, root)
    requires root in w1.mem && w1 == RootWorld(w, root, w1.mem[root])
    requires Grown(w1, w2, sh, root) && f in w.owner && f in w.mem
    ensures f in w2.mem && w2.mem[f] == w.mem[f]
  {
    assert Placed(w, f);
    assert !IsTableOf(w1, root, f);
  }

  // The tree of r is gone and just its frames are free; nothing else changed.
  ghost predicate TreeGone(w: World, w': World, r: nat) {
    && r in w.trees && w'.mem == w.mem
    && (forall q :: q in w'.trees <==> q in w.trees && q != r)
    && (forall q :: q in w'.trees ==> w'.trees[q] == w.trees[q])
    && (forall f :: f in w'.owner <==> f in w.owner && !(w.owner[f].InTree? && w.owner[f].root == r))
    && (forall f :: f in w'.owner ==> w'.owner[f] == w.owner[f])
  }

  // A new tree that is gone again has left no trace in the books.
  lemma NewTreeUndone(w: World, w2: World, w3: World, sh: Sharing, total: nat, root: nat)
    requires WorldOk(w, sh, total) && NewTree(w, w2, root) && TreeGone(w2, w3, root)
    ensures w3.owner == w.owner && w3.trees == w.trees && Preserved(w, w3)
  {
    forall f | f in w.owner ensures !(w.owner[f].InTree? && w.owner[f].root == root) {
      assert Placed(w, f);
    }
  }
}
