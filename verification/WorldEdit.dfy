/** The edits of `TreeEdit` as steps of the whole physical memory. */
module WorldEdit {
  import opened PageEntry
  import opened PageTree
  import opened TreeEdit
  import opened World

  // A step on the tree of r: r is a page table of this world, and n one of its tables.
  ghost predicate At(w: World, sh: Sharing, total: nat, r: nat, n: Node) {
    WorldOk(w, sh, total) && r in w.trees && n in w.trees[r]
  }

  lemma Unfold(w: World, sh: Sharing, total: nat, r: nat, n: Node)
    requires At(w, sh, total, r, n)
    ensures TreeAt(w, sh, r) && Injective(w.trees[r]) && NodeOk(w.mem, w.trees[r], sh, n) && Owns(w, r, n)
  {
    assert TreeAt(w, sh, r);
    TreeInjective(w, sh, r);
  }

  // ---------------------------------------------------------------- OR flags into an entry

  // Table n of r is rewritten as x.
  ghost function Rewritten(w: World, r: nat, n: Node, x: Frame): World
    requires r in w.trees && n in w.trees[r]
  {
    w.(mem := w.mem[w.trees[r][n] := x])
  }

  lemma RewriteStep(w: World, sh: Sharing, total: nat, r: nat, n: Node, x: Frame)
    requires At(w, sh, total, r, n) && n.level > 0
    requires TreeOk(Rewritten(w, r, n, x).mem, w.trees[r], sh)
    requires forall v: nat :: Leaf(Rewritten(w, r, n, x).mem, w.trees[r], v) == Leaf(w.mem, w.trees[r], v)
    ensures WorldOk(Rewritten(w, r, n, x), sh, total)
    ensures Grew(w, Rewritten(w, r, n, x), sh, r)
  {
    var w' := Rewritten(w, r, n, x);
    Unfold(w, sh, total, r, n);
    forall m | m in w.trees[r] ensures Owns(w', r, m) {
      assert Owns(w, r, m);
    }
    forall f | f in w.owner && w.owner[f].InTree? && w.owner[f].root == r ensures Placed(w', f) {
      assert Placed(w, f);
    }
    StepOk(w, w', sh, total, r);
  }

  ghost function FlagsWorld(w: World, r: nat, n: Node, i: nat, perm: Flags): World
    requires r in w.trees && n in w.trees[r] && w.trees[r][n] in w.mem && IsTable(w.mem[w.trees[r][n]]) && i < 512
  {
    w.(mem := AddFlagsMem(w.mem, w.trees[r], n, i, perm))
  }

  lemma FlagsStep(w: World, sh: Sharing, total: nat, r: nat, n: Node, i: nat, perm: Flags)
    requires At(w, sh, total, r, n)
    requires CanGrow(w.mem, w.trees[r], n, i, perm) && n.level > 1 && Child(n, i) in w.trees[r]
    requires NodeOk(w.mem, w.trees[r], sh, n)
    ensures WorldOk(FlagsWorld(w, r, n, i, perm), sh, total)
    ensures Grew(w, FlagsWorld(w, r, n, i, perm), sh, r)
    ensures Covers(Link(FlagsWorld(w, r, n, i, perm).mem, w.trees[r], Child(n, i)).low, perm)
  {
    Unfold(w, sh, total, r, n);
    AddFlags(w.mem, w.trees[r], sh, n, i, perm);
    var x := AddFlagsMem(w.mem, w.trees[r], n, i, perm)[w.trees[r][n]];
    assert FlagsWorld(w, r, n, i, perm) == Rewritten(w, r, n, x);
    RewriteStep(w, sh, total, r, n, x);
  }

  // The entry for an existing child points to the child, which is not frame 0.
  lemma EntryToChild(w: World, sh: Sharing, total: nat, r: nat, n: Node, i: nat)
    requires At(w, sh, total, r, n) && n.level > 1 && i < Width(n)
    ensures Present(EntryAt(w.mem, w.trees[r][n], i)) <==> Child(n, i) in w.trees[r]
    ensures Child(n, i) in w.trees[r] ==> w.trees[r][Child(n, i)] == EntryAt(w.mem, w.trees[r][n], i).frame != 0
  {
    assert TreeAt(w, sh, r) && NodeOk(w.mem, w.trees[r], sh, n) && EntryOk(w.mem, w.trees[r], sh, n, i);
    if Child(n, i) in w.trees[r] {
      assert Owns(w, r, Child(n, i));
    }
  }

  // ---------------------------------------------------------------- link a fresh table

  ghost function TableWorld(w: World, r: nat, n: Node, i: nat, f: nat, perm: Flags): World
    requires r in w.trees && n in w.trees[r] && w.trees[r][n] in w.mem && IsTable(w.mem[w.trees[r][n]]) && i < 512
    requires n.level > 0 && f != w.trees[r][n]
  {
    var nodes: Nodes := w.trees[r][Child(n, i) := f];
    World(AddTableMem(w.mem, w.trees[r], n, i, f, perm), w.owner[f := InTree(r, Child(n, i))], w.trees[r := nodes])
  }

  ghost predicate CanLink(w: World, sh: Sharing, total: nat, r: nat, n: Node, i: nat, f: nat, perm: Flags) {
    && At(w, sh, total, r, n)
    && CanGrow(w.mem, w.trees[r], n, i, perm) && n.level > 1 && Child(n, i) !in w.trees[r]
    && NodeOk(w.mem, w.trees[r], sh, n)
    && 0 < f < total && f !in w.owner
  }

  lemma FreshIsUnused(w: World, sh: Sharing, total: nat, r: nat, f: nat)
    requires WorldOk(w, sh, total) && r in w.trees && f < total && f !in w.owner
    ensures Unused(w.trees[r], f) && !IsShared(sh, f)
  {
    assert TreeAt(w, sh, r);
    forall m | m in w.trees[r] ensures w.trees[r][m] != f {
      assert Owns(w, r, m);
    }
  }

  lemma TableRooted(w: World, sh: Sharing, total: nat, r: nat, n: Node, i: nat, f: nat, perm: Flags)
    requires CanLink(w, sh, total, r, n, i, f, perm)
    requires f != w.trees[r][n]
    requires TreeOk(TableWorld(w, r, n, i, f, perm).mem, TableWorld(w, r, n, i, f, perm).trees[r], sh)
    ensures Rooted(TableWorld(w, r, n, i, f, perm), sh, r)
  {
    var w' := TableWorld(w, r, n, i, f, perm);
    assert TreeAt(w, sh, r);
    forall m | m in w'.trees[r] ensures Owns(w', r, m) {
      if m != Child(n, i) {
        assert Owns(w, r, m);
      }
    }
    forall g | g in w'.owner && w'.owner[g].InTree? && w'.owner[g].root == r ensures Placed(w', g) {
      if g != f {
        assert Placed(w, g);
      }
    }
  }

  lemma TableElsewhere(w: World, sh: Sharing, r: nat, n: Node, i: nat, f: nat, perm: Flags)
    requires r in w.trees && n in w.trees[r] && n.level > 1 && Owns(w, r, n) && Child(n, i) !in w.trees[r]
    requires w.trees[r][n] in w.mem && IsTable(w.mem[w.trees[r][n]]) && i < 512 && !IsShared(sh, w.trees[r][n])
    requires f !in w.owner && f != w.trees[r][n] && !IsShared(sh, f)
    ensures Elsewhere(w, TableWorld(w, r, n, i, f, perm), sh, r)
    ensures Extended(w, TableWorld(w, r, n, i, f, perm), sh, r)
  {
  }

  lemma TableStep(w: World, sh: Sharing, total: nat, r: nat, n: Node, i: nat, f: nat, perm: Flags)
    requires CanLink(w, sh, total, r, n, i, f, perm)
    ensures f != w.trees[r][n]
    ensures WorldOk(TableWorld(w, r, n, i, f, perm), sh, total)
    ensures Grew(w, TableWorld(w, r, n, i, f, perm), sh, r)
    ensures Link(TableWorld(w, r, n, i, f, perm).mem, TableWorld(w, r, n, i, f, perm).trees[r], Child(n, i)).low == perm
  {
    Unfold(w, sh, total, r, n);
    FreshIsUnused(w, sh, total, r, f);
    AddTable(w.mem, w.trees[r], sh, n, i, f, perm);
    var w' := TableWorld(w, r, n, i, f, perm);
    TableRooted(w, sh, total, r, n, i, f, perm);
    TableElsewhere(w, sh, r, n, i, f, perm);
    StepOk(w, w', sh, total, r);
    assert SamePages(w, w', r);
  }

  // ---------------------------------------------------------------- write a leaf

  ghost function LeafOwner(w: World, sh: Sharing, r: nat, v: nat, e: Entry): map<nat, Owner> {
    map f | f in w.owner :: OwnerOnceMapped(w, sh, r, v, e, f)
  }

  ghost function LeafWorld(w: World, sh: Sharing, r: nat, v: nat, e: Entry): World
    requires r in w.trees && Over(v, 1) in w.trees[r]
    requires w.trees[r][Over(v, 1)] in w.mem && IsTable(w.mem[w.trees[r][Over(v, 1)]])
  {
    World(SetLeafMem(w.mem, w.trees[r], v, e), LeafOwner(w, sh, r, v, e),
          w.trees[r := LeafNodes(w.trees[r], sh, v, e.frame)])
  }

  // A frame may be mapped at page v when it is shared, loose, or mapped there already.
  ghost predicate Mappable(w: World, sh: Sharing, r: nat, v: nat, frame: nat) {
    || IsShared(sh, frame)
    || (frame in w.owner && frame in w.mem && IsPage(w.mem[frame])
        && (w.owner[frame] == Loose || w.owner[frame] == InTree(r, Node(0, v))))
  }

  ghost predicate CanMap(w: World, sh: Sharing, total: nat, r: nat, v: nat, e: Entry) {
    && At(w, sh, total, r, Over(v, 1))
    && NodeOk(w.mem, w.trees[r], sh, Over(v, 1))
    && MapFlags(e.low) && Covers(Link(w.mem, w.trees[r], Over(v, 1)).low, e.low)
    && Mappable(w, sh, r, v, e.frame)
  }

  lemma MapRooted(w: World, sh: Sharing, total: nat, r: nat, v: nat, e: Entry)
    requires CanMap(w, sh, total, r, v, e)
    requires TreeOk(LeafWorld(w, sh, r, v, e).mem, LeafNodes(w.trees[r], sh, v, e.frame), sh)
    ensures Rooted(LeafWorld(w, sh, r, v, e), sh, r)
  {
    var w' := LeafWorld(w, sh, r, v, e);
    assert TreeAt(w, sh, r);
    forall m | m in w'.trees[r] ensures Owns(w', r, m) {
      if m != Node(0, v) {
        assert Owns(w, r, m);
      }
    }
    forall g | g in w'.owner && w'.owner[g].InTree? && w'.owner[g].root == r ensures Placed(w', g) {
      assert Placed(w, g);
    }
  }

  lemma MapElsewhere(w: World, sh: Sharing, r: nat, v: nat, e: Entry)
    requires r in w.trees && Over(v, 1) in w.trees[r] && Owns(w, r, Over(v, 1))
    requires w.trees[r][Over(v, 1)] in w.mem && IsTable(w.mem[w.trees[r][Over(v, 1)]])
    requires !IsShared(sh, w.trees[r][Over(v, 1)]) && Mappable(w, sh, r, v, e.frame)
    ensures Elsewhere(w, LeafWorld(w, sh, r, v, e), sh, r)
    ensures Extended(w, LeafWorld(w, sh, r, v, e), sh, r)
  {
  }

  lemma MapStep(w: World, sh: Sharing, total: nat, r: nat, v: nat, e: Entry)
    requires CanMap(w, sh, total, r, v, e)
    ensures WorldOk(LeafWorld(w, sh, r, v, e), sh, total)
    ensures Mapped(w, LeafWorld(w, sh, r, v, e), sh, r, v, e)
  {
    Unfold(w, sh, total, r, Over(v, 1));
    forall m | m in w.trees[r] && m != Node(0, v) && !IsShared(sh, e.frame) ensures w.trees[r][m] != e.frame {
      assert Owns(w, r, m);
    }
    SetLeaf(w.mem, w.trees[r], sh, v, e);
    MapRooted(w, sh, total, r, v, e);
    MapElsewhere(w, sh, r, v, e);
    StepOk(w, LeafWorld(w, sh, r, v, e), sh, total, r);
  }

  // ---------------------------------------------------------------- clear a leaf

  // Page v is gone from the tree of r; its private frame, if any, is loose.
  ghost function UnmapWorld(w: World, r: nat, v: nat): World
    requires r in w.trees && Over(v, 1) in w.trees[r]
    requires w.trees[r][Over(v, 1)] in w.mem && IsTable(w.mem[w.trees[r][Over(v, 1)]])
  {
    World(SetLeafMem(w.mem, w.trees[r], v, EMPTY),
          map f | f in w.owner :: if w.owner[f] == InTree(r, Node(0, v)) then Loose else w.owner[f],
          w.trees[r := w.trees[r] - {Node(0, v)}])
  }

  lemma UnmapRooted(w: World, sh: Sharing, total: nat, r: nat, v: nat)
    requires At(w, sh, total, r, Over(v, 1)) && NodeOk(w.mem, w.trees[r], sh, Over(v, 1))
    requires TreeOk(UnmapWorld(w, r, v).mem, w.trees[r] - {Node(0, v)}, sh)
    ensures Rooted(UnmapWorld(w, r, v), sh, r)
  {
    var w' := UnmapWorld(w, r, v);
    assert TreeAt(w, sh, r);
    forall m | m in w'.trees[r] ensures Owns(w', r, m) {
      assert Owns(w, r, m);
    }
    forall g | g in w'.owner && w'.owner[g].InTree? && w'.owner[g].root == r ensures Placed(w', g) {
      assert Placed(w, g);
    }
  }

  lemma UnmapElsewhere(w: World, sh: Sharing, r: nat, v: nat)
    requires r in w.trees && Over(v, 1) in w.trees[r] && Owns(w, r, Over(v, 1))
    requires w.trees[r][Over(v, 1)] in w.mem && IsTable(w.mem[w.trees[r][Over(v, 1)]])
    requires !IsShared(sh, w.trees[r][Over(v, 1)])
    ensures Elsewhere(w, UnmapWorld(w, r, v), sh, r)
    ensures Extended(w, UnmapWorld(w, r, v), sh, r)
  {
  }

  lemma UnmapStep(w: World, sh: Sharing, total: nat, r: nat, v: nat)
    requires At(w, sh, total, r, Over(v, 1)) && NodeOk(w.mem, w.trees[r], sh, Over(v, 1))
    ensures WorldOk(UnmapWorld(w, r, v), sh, total)
    ensures Unmapped(w, UnmapWorld(w, r, v), sh, r, v)
  {
    Unfold(w, sh, total, r, Over(v, 1));
    ClearLeaf(w.mem, w.trees[r], sh, v);
    UnmapRooted(w, sh, total, r, v);
    UnmapElsewhere(w, sh, r, v);
    StepOk(w, UnmapWorld(w, r, v), sh, total, r);
  }

  // ---------------------------------------------------------------- the way down to page v

  lemma PathArithmetic(v: nat)
    requires v < USER_PAGES
    ensures Over(v, 4) == ROOT
    ensures Up(v, 3) % 512 < 256 && Child(ROOT, Up(v, 3) % 512) == Over(v, 3)
    ensures Child(Over(v, 3), Up(v, 2) % 512) == Over(v, 2)
    ensures Child(Over(v, 2), Up(v, 1) % 512) == Over(v, 1)
    ensures Child(Over(v, 1), v % 512) == Node(0, v)
  {
  }

  // A page that may be mapped may still be mapped after tables were added.
  lemma StillMappable(w: World, w': World, sh: Sharing, r: nat, v: nat, frame: nat)
    requires r in w.trees && r in w'.trees && Grew(w, w', sh, r) && Mappable(w, sh, r, v, frame)
    ensures Mappable(w', sh, r, v, frame)
  {
  }

  // ---------------------------------------------------------------- a new tree, and the end of one

  // Frame f, loose so far, becomes the root of a tree that maps no page.
  ghost function RootWorld(w: World, f: nat, x: Frame): World {
    var nodes: Nodes := map[ROOT := f];
    World(w.mem[f := x], w.owner[f := InTree(f, ROOT)], w.trees[f := nodes])
  }

  lemma RootTreeOk(mem: Mem, sh: Sharing, f: nat)
    requires f in mem && IsTable(mem[f]) && !IsShared(sh, f) && KernelHalf(mem[f], sh)
    requires forall i: nat :: i < 256 ==> !Present(mem[f].entries[i])
    ensures TreeOk(mem, map[ROOT := f], sh)
    ensures forall v: nat :: Leaf(mem, map[ROOT := f], v) == None
  {
    var nodes: Nodes := map[ROOT := f];
    forall i: nat | i < 256 ensures EntryOk(mem, nodes, sh, ROOT, i) {
    }
    assert NodeOk(mem, nodes, sh, ROOT);
  }

  lemma RootStep(w: World, sh: Sharing, total: nat, f: nat, x: Frame)
    requires WorldOk(w, sh, total) && f in w.owner && w.owner[f] == Loose
    requires IsTable(x) && KernelHalf(x, sh) && forall i: nat :: i < 256 ==> !Present(x.entries[i])
    ensures f !in w.trees
    ensures WorldOk(RootWorld(w, f, x), sh, total)
    ensures forall v: nat :: Leaf(RootWorld(w, f, x).mem, RootWorld(w, f, x).trees[f], v) == None
    ensures forall q, v: nat :: q in w.trees ==>
      Leaf(RootWorld(w, f, x).mem, w.trees[q], v) == Leaf(w.mem, w.trees[q], v)
  {
    var w' := RootWorld(w, f, x);
    forall r | r in w.trees ensures r != f {
      assert TreeAt(w, sh, r) && Owns(w, r, ROOT);
    }
    WriteOk(w, sh, total, f, x);
    RootTreeOk(w'.mem, sh, f);
    assert Owns(w', f, ROOT);
    forall r | r in w'.trees ensures TreeAt(w', sh, r) {
      if r != f {
        assert TreeAt(w.(mem := w.mem[f := x]), sh, r);
        forall n | n in w.trees[r] ensures Owns(w', r, n) {
          assert Owns(w.(mem := w.mem[f := x]), r, n);
        }
      }
    }
    forall g | g in w'.owner ensures Placed(w', g) {
      if g != f {
        assert Placed(w, g);
      }
    }
  }

  // The tree of r is given up: its frames are loose.
  ghost function DismantledWorld(w: World, r: nat): World {
    World(w.mem,
          map f | f in w.owner :: if w.owner[f].InTree? && w.owner[f].root == r then Loose else w.owner[f],
          w.trees - {r})
  }

  lemma DismantleStep(w: World, sh: Sharing, total: nat, r: nat)
    requires WorldOk(w, sh, total) && r in w.trees
    ensures WorldOk(DismantledWorld(w, r), sh, total)
    ensures TreeOk(w.mem, w.trees[r], sh) && w.trees[r][ROOT] == r && Injective(w.trees[r])
    ensures forall n :: n in w.trees[r] ==>
      w.trees[r][n] in w.owner && DismantledWorld(w, r).owner[w.trees[r][n]] == Loose
  {
    var w' := DismantledWorld(w, r);
    TreeInjective(w, sh, r);
    forall q | q in w'.trees ensures TreeAt(w', sh, q) {
      assert TreeAt(w, sh, q);
      forall n | n in w.trees[q] ensures Owns(w', q, n) {
        assert Owns(w, q, n);
      }
    }
    forall f | f in w'.owner ensures Placed(w', f) {
      assert Placed(w, f);
    }
    forall n | n in w.trees[r] ensures w.trees[r][n] in w.owner && w'.owner[w.trees[r][n]] == Loose {
      assert Owns(w, r, n);
    }
  }
}
