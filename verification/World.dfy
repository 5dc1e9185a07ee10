/** All of physical memory: which frame belongs to what, and the invariant that ties every page table to it.

    `owner` is a map, so a frame in use has exactly one owner; its keys are the frames marked in the bitmap.
    A frame is `Loose` between being handed out and being put to use: a system call that ends with no loose
    frame has leaked none. */
module World {
  import opened PageEntry
  import opened PageTree
  import opened TreeEdit

  datatype Owner = Permanent | Loose | KernelStack(task: nat) | InTree(root: nat, node: Node)

  datatype World = World(mem: Mem, owner: map<nat, Owner>, trees: map<nat, Nodes>)

  // Frame f holds a table of the address space rooted at r.
  ghost predicate IsTableOf(w: World, r: nat, f: nat) {
    f in w.owner && w.owner[f].InTree? && w.owner[f].root == r && w.owner[f].node.level > 0
  }

  ghost predicate TreeAt(w: World, sh: Sharing, r: nat)
    requires r in w.trees
  {
    && ROOT in w.trees[r] && w.trees[r][ROOT] == r
    && TreeOk(w.mem, w.trees[r], sh)
    && forall n {:trigger Owns(w, r, n)} :: n in w.trees[r] ==> Owns(w, r, n)
  }

  ghost predicate Owns(w: World, r: nat, n: Node)
    requires r in w.trees && n in w.trees[r]
  {
    w.trees[r][n] in w.owner && w.owner[w.trees[r][n]] == InTree(r, n)
  }

  // A frame owned by a tree really is in that tree.
  ghost predicate Placed(w: World, f: nat)
    requires f in w.owner
  {
    w.owner[f].InTree? ==>
      var o := w.owner[f];
      o.root in w.trees && o.node in w.trees[o.root] && w.trees[o.root][o.node] == f
  }

  ghost predicate WorldOk(w: World, sh: Sharing, total: nat) {
    && (forall r {:trigger TreeAt(w, sh, r)} :: r in w.trees ==> TreeAt(w, sh, r))
    && (forall f {:trigger Placed(w, f)} :: f in w.owner ==> Placed(w, f))
    && (forall f :: f in w.owner ==> f < total)
    && (0 in w.owner ==> w.owner[0] == Permanent)
    && (forall f: nat :: f < total || IsShared(sh, f) ==> f in w.mem)
    && (forall f: nat :: IsShared(sh, f) ==>
          IsPage(w.mem[f]) && (f < total ==> f in w.owner && w.owner[f] == Permanent))
  }

  // Nothing is loose: every frame in use serves a purpose.
  ghost predicate Settled(w: World) {
    forall f :: f in w.owner ==> w.owner[f] != Loose
  }

  // At most k frames are free.
  ghost predicate Scarce(w: World, total: nat, k: nat) {
    |w.owner| + k >= total - 1
  }

  lemma {:induction false} SubsetSize<T>(small: set<T>, large: set<T>)
    requires small <= large
    ensures |small| <= |large|
    decreases |small|
  {
    if small != {} {
      var x :| x in small;
      SubsetSize(small - {x}, large - {x});
    }
  }

  lemma {:induction false} RangeSize(frames: set<nat>, total: nat)
    requires forall f :: 1 <= f < total ==> f in frames
    ensures |frames| >= total - 1
    decreases total
  {
    if total > 1 {
      RangeSize(frames - {total - 1}, total - 1);
    }
  }

  lemma TreeInjective(w: World, sh: Sharing, r: nat)
    requires r in w.trees && TreeAt(w, sh, r)
    ensures Injective(w.trees[r])
  {
    forall m, n ensures Distinct(w.trees[r], m, n) {
      if m in w.trees[r] && n in w.trees[r] {
        assert Owns(w, r, m) && Owns(w, r, n);
      }
    }
  }

  // What a change that concerns only the tree of r leaves alone.
  ghost predicate Elsewhere(w: World, w': World, sh: Sharing, r: nat) {
    && w'.trees.Keys == w.trees.Keys
    && (forall q :: q in w.trees && q != r ==> w'.trees[q] == w.trees[q])
    && (forall f :: f in w.mem ==> f in w'.mem)
    && (forall f :: f in w.mem && f in w.owner && w.owner[f] != Loose && !IsTableOf(w, r, f) ==> w'.mem[f] == w.mem[f])
    && (forall f :: f in w.mem && IsShared(sh, f) ==> w'.mem[f] == w.mem[f])
    && (forall f :: f in w.owner && w.owner[f] != Loose && !(w.owner[f].InTree? && w.owner[f].root == r) ==>
          f in w'.owner && w'.owner[f] == w.owner[f])
    && (forall f :: f in w'.owner && w'.owner[f].InTree? && w'.owner[f].root != r ==>
          f in w.owner && w.owner[f] == w'.owner[f])
  }

  // The tree of r and the frames it owns agree in w'.
  ghost predicate Rooted(w': World, sh: Sharing, r: nat) {
    && r in w'.trees && TreeAt(w', sh, r)
    && forall f {:trigger Placed(w', f)} ::
         f in w'.owner && w'.owner[f].InTree? && w'.owner[f].root == r ==> Placed(w', f)
  }

  lemma OtherTree(w: World, w': World, sh: Sharing, total: nat, r: nat, q: nat)
    requires WorldOk(w, sh, total)
    requires forall f: nat :: f < total || IsShared(sh, f) ==> f in w'.mem
    requires Elsewhere(w, w', sh, r) && q in w.trees && q != r
    ensures TreeAt(w', sh, q)
    ensures forall v: nat :: Leaf(w'.mem, w'.trees[q], v) == Leaf(w.mem, w.trees[q], v)
  {
    assert TreeAt(w, sh, q);
    forall n | n in w.trees[q]
      ensures Owns(w', q, n) && Survives(w.mem, w'.mem, w.trees[q], n)
    {
      assert Owns(w, q, n) && NodeOk(w.mem, w.trees[q], sh, n);
    }
    Untouched(w.mem, w'.mem, w.trees[q], sh);
  }

  // A change to one tree that keeps that tree in order keeps the whole world in order.
  lemma StepOk(w: World, w': World, sh: Sharing, total: nat, r: nat)
    requires WorldOk(w, sh, total)
    requires Elsewhere(w, w', sh, r) && Rooted(w', sh, r)
    requires forall f :: f in w'.owner ==> f < total
    requires 0 in w'.owner ==> w'.owner[0] == Permanent
    ensures WorldOk(w', sh, total)
    ensures forall q, v: nat :: q in w.trees && q != r ==> Leaf(w'.mem, w'.trees[q], v) == Leaf(w.mem, w.trees[q], v)
  {
    forall q | q in w.trees && q != r
      ensures TreeAt(w', sh, q)
      ensures forall v: nat :: Leaf(w'.mem, w'.trees[q], v) == Leaf(w.mem, w.trees[q], v)
    {
      OtherTree(w, w', sh, total, r, q);
    }
    forall f | f in w'.owner ensures Placed(w', f) {
      if w'.owner[f].InTree? && w'.owner[f].root != r {
        assert Placed(w, f);
      }
    }
  }

  // ---------------------------------------------------------------- steps that concern no tree

  // A frame that is neither a table nor a mapped page can be written freely; a mapped page by another page.
  lemma WriteOk(w: World, sh: Sharing, total: nat, f: nat, x: Frame)
    requires WorldOk(w, sh, total) && f in w.mem
    requires f in w.owner && w.owner[f].InTree? ==> w.owner[f].node.level == 0 && IsPage(x)
    requires IsShared(sh, f) ==> IsPage(x)
    ensures WorldOk(w.(mem := w.mem[f := x]), sh, total)
    ensures forall q, v: nat :: q in w.trees ==> Leaf(w.mem[f := x], w.trees[q], v) == Leaf(w.mem, w.trees[q], v)
  {
    var w' := w.(mem := w.mem[f := x]);
    forall q | q in w.trees
      ensures TreeAt(w', sh, q)
      ensures forall v: nat :: Leaf(w'.mem, w.trees[q], v) == Leaf(w.mem, w.trees[q], v)
    {
      WriteTree(w, sh, total, f, x, q);
    }
    forall g | g in w.owner ensures Placed(w', g) {
      assert Placed(w, g);
    }
  }

  lemma WriteTree(w: World, sh: Sharing, total: nat, f: nat, x: Frame, q: nat)
    requires WorldOk(w, sh, total) && f in w.mem && q in w.trees
    requires f in w.owner && w.owner[f].InTree? ==> w.owner[f].node.level == 0 && IsPage(x)
    ensures TreeAt(w.(mem := w.mem[f := x]), sh, q)
    ensures forall v: nat :: Leaf(w.mem[f := x], w.trees[q], v) == Leaf(w.mem, w.trees[q], v)
  {
    assert TreeAt(w, sh, q);
    forall n | n in w.trees[q]
      ensures Owns(w, q, n) && Survives(w.mem, w.mem[f := x], w.trees[q], n)
    {
      assert Owns(w, q, n) && NodeOk(w.mem, w.trees[q], sh, n);
    }
    var mem' := w.mem[f := x];
    Untouched(w.mem, mem', w.trees[q], sh);
  }

  // Handing out a free frame, giving back a loose one, and relabelling one that is in no tree.
  lemma RelabelOk(w: World, sh: Sharing, total: nat, owner': map<nat, Owner>)
    requires WorldOk(w, sh, total)
    requires forall f :: f in owner' ==> f < total
    requires 0 in owner' ==> owner'[0] == Permanent
    requires forall f :: f in w.owner && w.owner[f].InTree? ==> f in owner' && owner'[f] == w.owner[f]
    requires forall f :: f in w.owner && w.owner[f] == Permanent ==> f in owner' && owner'[f] == w.owner[f]
    requires forall f :: f in owner' && owner'[f].InTree? ==> f in w.owner && owner'[f] == w.owner[f]
    ensures WorldOk(w.(owner := owner'), sh, total)
  {
    var w' := w.(owner := owner');
    forall r | r in w.trees ensures TreeAt(w', sh, r) {
      assert TreeAt(w, sh, r);
      forall n | n in w.trees[r] ensures Owns(w', r, n) {
        assert Owns(w, r, n);
      }
    }
    forall f | f in owner' ensures Placed(w', f) {
      if owner'[f].InTree? {
        assert Placed(w, f);
      }
    }
  }

  // The frames first .. first + count - 1 become a kernel stack of t.
  ghost function WithStack(owner: map<nat, Owner>, first: nat, count: nat, t: nat): map<nat, Owner> {
    map f | f in owner.Keys + (set g | first <= g < first + count && InRun(g, first, count)) ::
      if InRun(f, first, count) then KernelStack(t) else owner[f]
  }

  predicate InRun(f: nat, first: nat, count: nat) {
    first <= f < first + count
  }

  ghost function WithoutRun(owner: map<nat, Owner>, lo: nat, hi: nat): map<nat, Owner> {
    map f | f in owner && !(lo <= f < hi) :: owner[f]
  }

  lemma OneLess(owner: map<nat, Owner>, lo: nat, hi: nat)
    requires lo <= hi
    ensures WithoutRun(owner, lo, hi) - {hi} == WithoutRun(owner, lo, hi + 1)
  {
  }

  lemma StackTaken(w: World, sh: Sharing, total: nat, first: nat, count: nat, t: nat)
    requires WorldOk(w, sh, total) && 1 <= first && first + count <= total
    requires forall f :: first <= f < first + count ==> f !in w.owner
    ensures WorldOk(w.(owner := WithStack(w.owner, first, count, t)), sh, total)
  {
    RelabelOk(w, sh, total, WithStack(w.owner, first, count, t));
  }

  // ---------------------------------------------------------------- steps that concern one tree

  // Tables were added to the tree of r, on frames that were free; no frame was given back.
  ghost predicate Extended(w: World, w': World, sh: Sharing, r: nat)
    requires r in w.trees && r in w'.trees
  {
    && w'.trees.Keys == w.trees.Keys
    && (forall q :: q in w.trees && q != r ==> w'.trees[q] == w.trees[q])
    && (forall f :: f in w.mem ==> f in w'.mem)
    && (forall f :: f in w.mem && f in w.owner && !IsTableOf(w, r, f) ==> w'.mem[f] == w.mem[f])
    && (forall f :: f in w.mem && IsShared(sh, f) ==> w'.mem[f] == w.mem[f])
    && (forall n :: n in w.trees[r] && n.level > 0 ==> n in w'.trees[r] && w'.trees[r][n] == w.trees[r][n])
    && (forall n :: n in w'.trees[r] && n.level > 0 && n !in w.trees[r] ==> w'.trees[r][n] !in w.owner)
    && (forall f :: f in w.owner ==> f in w'.owner && (IsTableOf(w', r, f) ==> IsTableOf(w, r, f)))
    && (forall f :: f in w'.owner && f !in w.owner ==> IsTableOf(w', r, f))
  }

  lemma ExtendedTrans(w0: World, w1: World, w2: World, sh: Sharing, r: nat)
    requires r in w0.trees && r in w1.trees && r in w2.trees
    requires Extended(w0, w1, sh, r) && Extended(w1, w2, sh, r)
    requires forall f :: f in w1.owner && f !in w0.owner && f in w2.owner ==> IsTableOf(w2, r, f)
    ensures Extended(w0, w2, sh, r)
  {
  }

  // No page of the tree of r moved.
  ghost predicate SamePages(w: World, w': World, r: nat)
    requires r in w.trees && r in w'.trees
  {
    && (forall v: nat :: Leaf(w'.mem, w'.trees[r], v) == Leaf(w.mem, w.trees[r], v))
    && (forall u: nat :: Node(0, u) in w'.trees[r] <==> Node(0, u) in w.trees[r])
    && (forall u: nat :: Node(0, u) in w.trees[r] ==> w'.trees[r][Node(0, u)] == w.trees[r][Node(0, u)])
    && (forall f :: f in w.owner ==> f in w'.owner && w'.owner[f] == w.owner[f])
  }

  // Only tables were added: no page moved, no other frame changed hands.
  ghost predicate Grew(w: World, w': World, sh: Sharing, r: nat)
    requires r in w.trees && r in w'.trees
  {
    Extended(w, w', sh, r) && SamePages(w, w', r)
  }

  lemma GrewTrans(w0: World, w1: World, w2: World, sh: Sharing, r: nat)
    requires r in w0.trees && r in w1.trees && r in w2.trees
    requires Grew(w0, w1, sh, r) && Grew(w1, w2, sh, r)
    ensures Grew(w0, w2, sh, r)
  {
    ExtendedTrans(w0, w1, w2, sh, r);
  }

  // The owner of a frame once page v of the tree of r has leaf entry e.
  ghost function OwnerOnceMapped(w: World, sh: Sharing, r: nat, v: nat, e: Entry, f: nat): Owner
    requires f in w.owner
  {
    if f == e.frame && !IsShared(sh, f) then InTree(r, Node(0, v))
    else if w.owner[f] == InTree(r, Node(0, v)) then Loose
    else w.owner[f]
  }

  ghost predicate PageSet(w: World, w': World, sh: Sharing, r: nat, v: nat, e: Entry)
    requires r in w.trees && r in w'.trees
  {
    && (forall u: nat :: Leaf(w'.mem, w'.trees[r], u) == if u == v then Some(e) else Leaf(w.mem, w.trees[r], u))
    && (Node(0, v) in w'.trees[r] <==> !IsShared(sh, e.frame))
    && (Node(0, v) in w'.trees[r] ==> w'.trees[r][Node(0, v)] == e.frame)
    && (forall u: nat :: u != v ==> (Node(0, u) in w'.trees[r] <==> Node(0, u) in w.trees[r]))
    && (forall u: nat :: u != v && Node(0, u) in w.trees[r] ==> w'.trees[r][Node(0, u)] == w.trees[r][Node(0, u)])
    && (forall f :: f in w.owner ==> f in w'.owner && w'.owner[f] == OwnerOnceMapped(w, sh, r, v, e, f))
  }

  // Page v of the tree of r now has leaf entry e; the page's former private frame is loose.
  ghost predicate Mapped(w: World, w': World, sh: Sharing, r: nat, v: nat, e: Entry)
    requires r in w.trees && r in w'.trees
  {
    Extended(w, w', sh, r) && PageSet(w, w', sh, r, v, e)
  }

  lemma GrewMapped(w0: World, w1: World, w2: World, sh: Sharing, r: nat, v: nat, e: Entry)
    requires r in w0.trees && r in w1.trees && r in w2.trees
    requires Grew(w0, w1, sh, r) && Mapped(w1, w2, sh, r, v, e)
    requires IsShared(sh, e.frame) || e.frame in w0.owner
    ensures Mapped(w0, w2, sh, r, v, e)
  {
    assert PageSet(w0, w2, sh, r, v, e);
    forall f | f in w1.owner && f !in w0.owner && f in w2.owner ensures IsTableOf(w2, r, f) {
      assert w2.owner[f] == OwnerOnceMapped(w1, sh, r, v, e, f);
    }
    ExtendedTrans(w0, w1, w2, sh, r);
  }

  // Page v is gone from the tree of r, and its private frame, if it had one, is loose.
  ghost predicate Unmapped(w: World, w': World, sh: Sharing, r: nat, v: nat)
    requires r in w.trees && r in w'.trees
  {
    && Extended(w, w', sh, r)
    && w'.trees[r] == w.trees[r] - {Node(0, v)}
    && w'.owner.Keys == w.owner.Keys
    && (forall u: nat :: Leaf(w'.mem, w'.trees[r], u) == if u == v then None else Leaf(w.mem, w.trees[r], u))
    && (forall f :: f in w.owner ==> w'.owner[f] == if w.owner[f] == InTree(r, Node(0, v)) then Loose else w.owner[f])
  }
}
