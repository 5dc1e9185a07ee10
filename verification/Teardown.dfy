/** Freeing an address space: every frame of its tree is given back exactly once, nothing else is.

    The loops over the three upper levels are one method here, called at levels 4, 3 and 2; the loop over the
    page entries is its case for level 1. */
module Teardown {
  import opened PageEntry
  import opened PageTree
  import opened World
  import opened WorldEdit
  import opened Vmm
  import opened Growth

  // Node k hangs strictly below table n, through one of the first i entries of n.
  predicate BelowFirst(k: Node, n: Node, i: nat) {
    k.level < n.level <= 4 && n.prefix * 512 <= Up(k.prefix, n.level - 1 - k.level) < n.prefix * 512 + i
  }

  function FramesBelow(nodes: Nodes, n: Node, i: nat): set<nat> {
    set k | k in nodes && BelowFirst(k, n, i) :: nodes[k]
  }

  // The frames reached through entry i of table n.
  function EntryFrames(nodes: Nodes, n: Node, i: nat): set<nat>
    requires n.level > 0
  {
    FramesBelow(nodes, Child(n, i), 512) + (if Child(n, i) in nodes then {nodes[Child(n, i)]} else {})
  }

  // What lies below the first i + 1 entries: what lies below the first i, the child at i, and all below it.
  lemma BelowStep(k: Node, n: Node, i: nat)
    requires 0 < n.level <= 4
    ensures BelowFirst(k, n, i + 1) <==>
      BelowFirst(k, n, i) || k == Child(n, i) || BelowFirst(k, Child(n, i), 512)
    ensures BelowFirst(k, n, i) ==> k != Child(n, i) && !BelowFirst(k, Child(n, i), 512)
  {
    if k.level < n.level - 1 {
      UpStep(k.prefix, n.level - 2 - k.level);
    }
  }

  lemma FramesStep(nodes: Nodes, n: Node, i: nat)
    requires 0 < n.level <= 4
    ensures FramesBelow(nodes, n, i + 1) == FramesBelow(nodes, n, i) + EntryFrames(nodes, n, i)
    ensures Injective(nodes) ==> FramesBelow(nodes, n, i) !! EntryFrames(nodes, n, i)
  {
    forall k | k in nodes
      ensures BelowFirst(k, n, i + 1) <==> BelowFirst(k, n, i) || k == Child(n, i) || BelowFirst(k, Child(n, i), 512)
      ensures BelowFirst(k, n, i) ==> k != Child(n, i) && !BelowFirst(k, Child(n, i), 512)
    {
      BelowStep(k, n, i);
    }
    if Injective(nodes) {
      forall k, l |
        && k in nodes && BelowFirst(k, n, i)
        && l in nodes && (l == Child(n, i) || BelowFirst(l, Child(n, i), 512))
        ensures nodes[k] != nodes[l]
      {
        assert Distinct(nodes, k, l);
      }
    }
  }

  lemma EntryFramesWithin(nodes: Nodes, n: Node, i: nat)
    requires 0 < n.level <= 4 && i < 512
    ensures EntryFrames(nodes, n, i) <= FramesBelow(nodes, n, 512)
    ensures Injective(nodes) && Child(n, i) in nodes ==> nodes[Child(n, i)] !in FramesBelow(nodes, Child(n, i), 512)
  {
    FramesStep(nodes, n, i);
    assert FramesBelow(nodes, n, i + 1) <= FramesBelow(nodes, n, 512);
    if Injective(nodes) && Child(n, i) in nodes {
      forall k | k in nodes && BelowFirst(k, Child(n, i), 512) ensures nodes[k] != nodes[Child(n, i)] {
        assert Distinct(nodes, k, Child(n, i));
      }
    }
  }

  // A missing child has nothing below it.
  lemma {:induction false} NothingBelow(mem: Mem, nodes: Nodes, sh: Sharing, c: Node, k: Node)
    requires TreeOk(mem, nodes, sh) && k in nodes && c.level <= 4 && BelowFirst(k, c, 512)
    ensures c in nodes
    decreases c.level - k.level
  {
    assert NodeOk(mem, nodes, sh, k);
    if k.level + 1 == c.level {
      assert Parent(k) == c;
    } else {
      UpParent(k.prefix, c.level - 1 - k.level);
      NothingBelow(mem, nodes, sh, c, Parent(k));
    }
  }

  lemma UpParent(x: nat, j: nat)
    requires 1 <= j <= 4
    ensures Up(x / 512, j - 1) == Up(x, j)
  {
  }

  // Every node of the tree but the root is below the root.
  lemma {:induction false} AllBelowRoot(mem: Mem, nodes: Nodes, sh: Sharing, k: Node)
    requires TreeOk(mem, nodes, sh) && k in nodes && k != ROOT
    ensures BelowFirst(k, ROOT, 256)
    decreases 4 - k.level
  {
    assert NodeOk(mem, nodes, sh, k);
    if k.level < 3 {
      AllBelowRoot(mem, nodes, sh, Parent(k));
      UpParent(k.prefix, 3 - k.level);
    }
  }

  lemma TreeFrames(mem: Mem, nodes: Nodes, sh: Sharing)
    requires TreeOk(mem, nodes, sh)
    ensures FramesBelow(nodes, ROOT, 256) + {nodes[ROOT]} == nodes.Values
  {
    forall k | k in nodes && k != ROOT ensures BelowFirst(k, ROOT, 256) {
      AllBelowRoot(mem, nodes, sh, k);
    }
    assert NodeOk(mem, nodes, sh, ROOT);
  }

  // What entry i of table n says about the frames reached through it.
  lemma EntryMeans(mem: Mem, nodes: Nodes, sh: Sharing, n: Node, i: nat)
    requires TreeOk(mem, nodes, sh) && n in nodes && n.level > 0 && i < Width(n)
    ensures var e := EntryAt(mem, nodes[n], i);
      && (!Present(e) ==> EntryFrames(nodes, n, i) == {})
      && (Present(e) && n.level > 1 ==> Child(n, i) in nodes && nodes[Child(n, i)] == e.frame)
      && (Present(e) && n.level == 1 ==> EntryFrames(nodes, n, i) == if IsShared(sh, e.frame) then {} else {e.frame})
  {
    var c := Child(n, i);
    assert NodeOk(mem, nodes, sh, n) && EntryOk(mem, nodes, sh, n, i);
    if c !in nodes {
      forall k | k in nodes ensures !BelowFirst(k, c, 512) {
        if BelowFirst(k, c, 512) {
          NothingBelow(mem, nodes, sh, c, k);
        }
      }
    }
  }

  ghost predicate InHand(owner: map<nat, Owner>, frames: set<nat>) {
    forall f :: f in frames ==> f in owner && owner[f] == Loose
  }

  lemma NothingYet(owner: map<nat, Owner>, nodes: Nodes, n: Node)
    ensures FramesBelow(nodes, n, 0) == {}
    ensures owner - FramesBelow(nodes, n, 0) == owner
  {
  }

  // After the frames below the first i entries were freed, those of entry i are still in hand, and freeing them
  // too leaves what freeing everything below the first i + 1 entries leaves.
  lemma NextInHand(owner: map<nat, Owner>, nodes: Nodes, n: Node, i: nat)
    requires Injective(nodes) && 0 < n.level <= 4 && i < 512
    requires InHand(owner, FramesBelow(nodes, n, 512))
    ensures InHand(owner - FramesBelow(nodes, n, i), EntryFrames(nodes, n, i))
    ensures owner - FramesBelow(nodes, n, i) - EntryFrames(nodes, n, i) == owner - FramesBelow(nodes, n, i + 1)
  {
    FramesStep(nodes, n, i);
    EntryFramesWithin(nodes, n, i);
  }

  // The child's own frame comes last.
  lemma ChildLast(owner: map<nat, Owner>, nodes: Nodes, n: Node, i: nat)
    requires Injective(nodes) && 0 < n.level <= 4 && i < 512 && Child(n, i) in nodes
    requires InHand(owner, EntryFrames(nodes, n, i))
    ensures InHand(owner, FramesBelow(nodes, Child(n, i), 512))
    ensures InHand(owner - FramesBelow(nodes, Child(n, i), 512), {nodes[Child(n, i)]})
    ensures owner - FramesBelow(nodes, Child(n, i), 512) - {nodes[Child(n, i)]} == owner - EntryFrames(nodes, n, i)
  {
    EntryFramesWithin(nodes, n, i);
  }

  method FreeBelow(m: Machine, ghost nodes: Nodes, ghost n: Node, level: nat, table: nat)
    requires m.Valid() && TreeOk(m.mem, nodes, m.sh) && Injective(nodes)
    requires n in nodes && nodes[n] == table && n.level == level && 0 < level <= 4
    requires InHand(m.owner, FramesBelow(nodes, n, 512))
    modifies m.Repr()
    ensures m.Valid() && m.mem == old(m.mem) && m.trees == old(m.trees)
    ensures m.owner == old(m.owner) - FramesBelow(nodes, n, Width(n))
    decreases level
  {
    var limit := if level == 4 then 256 else 512;
    NothingYet(m.owner, nodes, n);
    for i := 0 to limit
      invariant m.Valid() && m.mem == old(m.mem) && m.trees == old(m.trees)
      invariant m.owner == old(m.owner) - FramesBelow(nodes, n, i)
    {
      NextInHand(old(m.owner), nodes, n, i);
      assert EntryAt(m.mem, nodes[n], i) == EntryAt(m.mem, table, i);
      FreeEntry(m, nodes, n, i, level, EntryAt(m.mem, table, i));
    }
  }

  method FreeEntry(m: Machine, ghost nodes: Nodes, ghost n: Node, ghost i: nat, level: nat, e: Entry)
    requires m.Valid() && TreeOk(m.mem, nodes, m.sh) && Injective(nodes)
    requires n in nodes && n.level == level && 0 < level <= 4 && i < Width(n) && EntryAt(m.mem, nodes[n], i) == e
    requires InHand(m.owner, EntryFrames(nodes, n, i))
    modifies m.Repr()
    ensures m.Valid() && m.mem == old(m.mem) && m.trees == old(m.trees)
    ensures m.owner == old(m.owner) - EntryFrames(nodes, n, i)
    decreases level, 0
  {
    EntryMeans(m.mem, nodes, m.sh, n, i);
    if !Present(e) {
      return;
    }
    if level > 1 {
      ChildLast(m.owner, nodes, n, i);
      FreeBelow(m, nodes, Child(n, i), level - 1, e.frame);
      m.FreeFrame(e.frame);
    } else if !IsShared(m.sh, e.frame) {
      m.FreeFrame(e.frame);
    }
  }

  // Giving back all frames of the tree of r takes just them out of the books.
  lemma AllFreed(w: World, sh: Sharing, total: nat, r: nat)
    requires WorldOk(w, sh, total) && r in w.trees
    ensures var nodes := w.trees[r];
      && TreeOk(w.mem, nodes, sh) && nodes[ROOT] == r && Injective(nodes)
      && InHand(DismantledWorld(w, r).owner, FramesBelow(nodes, ROOT, 512))
      && InHand(DismantledWorld(w, r).owner - FramesBelow(nodes, ROOT, 256), {r})
      && DismantledWorld(w, r).owner - FramesBelow(nodes, ROOT, 256) - {r} == w.owner - nodes.Values
  {
    var nodes := w.trees[r];
    DismantleStep(w, sh, total, r);
    TreeFrames(w.mem, nodes, sh);
    forall k | k in nodes && BelowFirst(k, ROOT, 256) ensures nodes[k] != r {
      assert Distinct(nodes, k, ROOT);
    }
    forall f | f in w.owner && f !in nodes.Values ensures !(w.owner[f].InTree? && w.owner[f].root == r) {
      assert Placed(w, f);
    }
    var left := DismantledWorld(w, r).owner - FramesBelow(nodes, ROOT, 256) - {r};
    assert left.Keys == (w.owner - nodes.Values).Keys;
  }

  // The frames of the tree are those that the books say it owns.
  lemma GoneByOwner(w: World, w': World, sh: Sharing, total: nat, r: nat)
    requires WorldOk(w, sh, total) && r in w.trees
    requires w' == World(w.mem, w.owner - w.trees[r].Values, w.trees - {r})
    ensures TreeGone(w, w', r)
  {
    assert TreeAt(w, sh, r);
    forall f | f in w.owner ensures f in w.trees[r].Values <==> w.owner[f].InTree? && w.owner[f].root == r {
      assert Placed(w, f);
      if f in w.trees[r].Values {
        var n :| n in w.trees[r] && w.trees[r][n] == f;
        assert Owns(w, r, n);
      }
    }
  }

  /** Gives up an address space.  NULL and the kernel's own table are left alone. */
  method Free(m: Machine, root: nat)
    requires m.Valid() && (root == 0 || root == m.kernelRoot || root in m.trees)
    modifies m.Repr()
    ensures m.Valid() && m.mem == old(m.mem)
    ensures root !in old(m.trees) ==> m.Now() == old(m.Now())
    ensures root in old(m.trees) ==> TreeGone(old(m.Now()), m.Now(), root)
  {
    ghost var w := m.Now();
    if root in m.trees {
      m.RootsAreUserRoots(root);
      AllFreed(m.Now(), m.sh, m.pmm.totalFrames, root);
    }
    if root == 0 || root == m.kernelRoot {
      return;
    }
    ghost var nodes := m.trees[root];
    m.GiveUp(root);
    FreeBelow(m, nodes, ROOT, 4, root);
    m.FreeFrame(root);
    GoneByOwner(w, m.Now(), m.sh, m.pmm.totalFrames, root);
  }
}
