/** Copying an address space for fork: every page gets a frame of its own with equal contents, shared frames
    stay shared, and a copy that fails half-way leaves no trace.

    As in `Teardown`, the loops over the upper three levels are one method. */
module Clone {
  import opened PageEntry
  import opened PageTree
  import opened World
  import opened WorldEdit
  import opened Vmm
  import opened Growth
  import Teardown

  // Page e of the parent and page d of the child: same rights, same contents, and the same frame if shared.
  ghost predicate Copied(mem: Mem, sh: Sharing, parent: Option<Entry>, child: Option<Entry>) {
    match parent
    case None => child == None
    case Some(e) =>
      child.Some? &&
      var d := child.value;
      && d.low == e.low && d.nx == e.nx
      && (IsShared(sh, e.frame) ==> d.frame == e.frame)
      && (!IsShared(sh, e.frame) ==>
            !IsShared(sh, d.frame) && d.frame in mem && e.frame in mem && mem[d.frame] == mem[e.frame])
  }

  ghost predicate CopiedAt(w: World, sh: Sharing, parent: nat, child: nat, v: nat)
    requires parent in w.trees && child in w.trees
  {
    Copied(w.mem, sh, Leaf(w.mem, w.trees[parent], v), Leaf(w.mem, w.trees[child], v))
  }

  // A page copied before stays copied while the child grows elsewhere.
  lemma StaysCopied(w: World, w': World, sh: Sharing, total: nat, parent: nat, child: nat, v: nat)
    requires WorldOk(w, sh, total) && parent in w.trees && child in w.trees && parent != child
    requires Grown(w, w', sh, child)
    requires Leaf(w'.mem, w'.trees[child], v) == Leaf(w.mem, w.trees[child], v)
    requires CopiedAt(w, sh, parent, child, v)
    ensures CopiedAt(w', sh, parent, child, v)
  {
    GrownKeeps(w, w', sh, total, child, parent, v);
    if Leaf(w.mem, w.trees[parent], v).Some? {
      LeafFrame(w, sh, total, parent, v);
      LeafFrame(w, sh, total, child, v);
    }
  }

  // Page v lies in the region covered by node n.
  predicate In(v: nat, n: Node) {
    n.level <= 4 && Up(v, n.level) == n.prefix
  }

  // Every node of the child has its counterpart in the parent.
  ghost predicate Within(w: World, parent: nat, child: nat)
    requires parent in w.trees && child in w.trees
  {
    forall k :: k in w.trees[child] ==> k in w.trees[parent]
  }

  ghost predicate Pair(m: Machine, parent: nat, child: nat)
    reads m
  {
    parent in m.trees && child in m.trees && parent != child && Within(m.Now(), parent, child)
  }

  // The way to a mapped page, and its node unless its frame is shared, are in the tree that maps it.
  lemma PathInTree(w: World, sh: Sharing, total: nat, q: nat, v: nat)
    requires WorldOk(w, sh, total) && q in w.trees && v < USER_PAGES && Leaf(w.mem, w.trees[q], v).Some?
    ensures Over(v, 3) in w.trees[q] && Over(v, 2) in w.trees[q] && Over(v, 1) in w.trees[q]
    ensures !IsShared(sh, Leaf(w.mem, w.trees[q], v).value.frame) ==> Node(0, v) in w.trees[q]
  {
    assert TreeAt(w, sh, q);
    PathArithmetic(v);
    assert NodeOk(w.mem, w.trees[q], sh, Over(v, 1));
    assert Parent(Over(v, 1)) == Over(v, 2);
    assert NodeOk(w.mem, w.trees[q], sh, Over(v, 2));
    assert Parent(Over(v, 2)) == Over(v, 3);
    LeafFrame(w, sh, total, q, v);
    if !IsShared(sh, Leaf(w.mem, w.trees[q], v).value.frame) {
      assert Placed(w, Leaf(w.mem, w.trees[q], v).value.frame);
    }
  }

  lemma StaysWithin(w: World, w': World, sh: Sharing, total: nat, parent: nat, child: nat, v: nat)
    requires WorldOk(w, sh, total) && parent in w.trees && child in w.trees && child in w'.trees && parent != child
    requires v < USER_PAGES && Within(w, parent, child) && Grown(w, w', sh, child)
    requires Machine.AddsOnPath(w, w', child, v)
    requires Leaf(w.mem, w.trees[parent], v).Some?
    requires IsShared(sh, Leaf(w.mem, w.trees[parent], v).value.frame) ==> Node(0, v) !in w'.trees[child]
    ensures Within(w', parent, child)
  {
    PathInTree(w, sh, total, parent, v);
    forall k | k in w'.trees[child] ensures k in w'.trees[parent] {
      if k !in w.trees[child] {
        assert k == Over(v, k.level) && k.level <= 3;
        assert k.level == 0 || k.level == 1 || k.level == 2 || k.level == 3;
      }
    }
  }

  /** Copies one page entry of the parent into the child. */
  method ClonePage(m: Machine, ghost parent: nat, child: nat, v: nat, e: Entry) returns (ok: bool)
    requires m.Valid() && Pair(m, parent, child) && v < USER_PAGES
    requires Leaf(m.mem, m.trees[parent], v) == Some(e) && Leaf(m.mem, m.trees[child], v) == None
    modifies m.Repr()
    ensures m.Valid() && Pair(m, parent, child) && Grown(old(m.Now()), m.Now(), m.sh, child)
    ensures forall u: nat :: u != v ==> Leaf(m.mem, m.trees[child], u) == old(Leaf(m.mem, m.trees[child], u))
    ensures ok ==> CopiedAt(m.Now(), m.sh, parent, child, v)
    ensures !ok ==> Scarce(old(m.Now()), m.pmm.totalFrames, 4)
  {
    ghost var w := m.Now();
    ghost var total := m.pmm.totalFrames;
    LeafFrame(w, m.sh, total, parent, v);
    if !IsShared(m.sh, e.frame) {
      ok := CopyPrivate(m, parent, child, v, e);
    } else {
      ok := MapShared(m, child, v, e);
      if !ok {
        NotMappedNotNode(m.Now(), m.sh, total, child, v);
      }
    }
    GrownKeeps(w, m.Now(), m.sh, total, child, parent, v);
    StaysWithin(w, m.Now(), m.sh, total, parent, child, v);
  }

  lemma NotMappedNotNode(w: World, sh: Sharing, total: nat, q: nat, v: nat)
    requires WorldOk(w, sh, total) && q in w.trees && Leaf(w.mem, w.trees[q], v) == None
    ensures Node(0, v) !in w.trees[q]
  {
    if Node(0, v) in w.trees[q] {
      assert TreeAt(w, sh, q);
      assert Owns(w, q, Node(0, v));
      NoPageOwned(w, sh, total, q, v, w.trees[q][Node(0, v)]);
    }
  }

  method CopyPrivate(m: Machine, ghost parent: nat, child: nat, v: nat, e: Entry) returns (ok: bool)
    requires m.Valid() && parent in m.trees && child in m.trees && parent != child && v < USER_PAGES
    requires Leaf(m.mem, m.trees[parent], v) == Some(e) && Leaf(m.mem, m.trees[child], v) == None
    requires MapFlags(e.low) && !IsShared(m.sh, e.frame) && e.frame in m.owner
    requires m.owner[e.frame] == InTree(parent, Node(0, v))
    requires e.frame in m.mem && IsPage(m.mem[e.frame])
    modifies m.Repr()
    ensures m.Valid() && child in m.trees && Grown(old(m.Now()), m.Now(), m.sh, child)
    ensures forall u: nat :: u != v ==> Leaf(m.mem, m.trees[child], u) == old(Leaf(m.mem, m.trees[child], u))
    ensures Machine.AddsOnPath(old(m.Now()), m.Now(), child, v)
    ensures ok ==> CopiedAt(m.Now(), m.sh, parent, child, v)
    ensures !ok ==> Scarce(old(m.Now()), m.pmm.totalFrames, 4)
  {
    ghost var w := m.Now();
    var copy := m.AllocFrame();
    if copy == 0 {
      m.FullIsScarce();
      GrownItself(w, m.sh, child);
      return false;
    }
    var x := m.mem[e.frame];
    m.Store(copy, x);
    assert m.Now() == Filled(w, copy, x);
    ok := MapCopy(m, w, parent, child, v, e, copy, x);
  }

  method MapCopy(m: Machine, ghost w: World, ghost parent: nat, child: nat, v: nat, e: Entry, copy: nat, ghost x: Frame)
    returns (ok: bool)
    requires m.Valid() && WorldOk(w, m.sh, m.pmm.totalFrames) && v < USER_PAGES && MapFlags(e.low)
    requires parent in w.trees && child in w.trees && parent != child
    requires Leaf(w.mem, w.trees[parent], v) == Some(e) && Leaf(w.mem, w.trees[child], v) == None
    requires !IsShared(m.sh, e.frame) && e.frame in w.owner && w.owner[e.frame] == InTree(parent, Node(0, v))
    requires e.frame in w.mem && w.mem[e.frame] == x && IsPage(x)
    requires copy != 0 && copy !in w.owner && copy < m.pmm.totalFrames && m.Now() == Filled(w, copy, x)
    requires forall q, u: nat :: q in w.trees ==> Leaf(m.mem, w.trees[q], u) == Leaf(w.mem, w.trees[q], u)
    modifies m.Repr()
    ensures m.Valid() && child in m.trees && parent in m.trees && Grown(w, m.Now(), m.sh, child)
    ensures forall u: nat :: u != v ==> Leaf(m.mem, m.trees[child], u) == Leaf(w.mem, w.trees[child], u)
    ensures Machine.AddsOnPath(w, m.Now(), child, v)
    ensures ok ==> CopiedAt(m.Now(), m.sh, parent, child, v)
    ensures !ok ==> Scarce(w, m.pmm.totalFrames, 4)
  {
    ok := MapOrReturn(m, w, child, v, Entry(copy, e.low, e.nx), x);
    GrownKeeps(w, m.Now(), m.sh, m.pmm.totalFrames, child, parent, v);
  }

  // The pages in the first i parts of node n's region have been copied, those in the others are not mapped yet.
  ghost predicate CopiedFirst(w: World, sh: Sharing, parent: nat, child: nat, n: Node, i: nat)
    requires n.level > 0 && parent in w.trees && child in w.trees
  {
    forall v: nat {:trigger In(v, n)} :: In(v, n) ==>
      if Up(v, n.level - 1) < n.prefix * 512 + i then CopiedAt(w, sh, parent, child, v)
      else Leaf(w.mem, w.trees[child], v) == None
  }

  ghost predicate SameOutside(w: World, w': World, child: nat, n: Node)
    requires child in w.trees && child in w'.trees
  {
    forall v: nat {:trigger In(v, n)} :: !In(v, n) ==>
      Leaf(w'.mem, w'.trees[child], v) == Leaf(w.mem, w.trees[child], v)
  }

  // The child has no page in the region of n yet.
  ghost predicate Bare(w: World, child: nat, n: Node)
    requires child in w.trees
  {
    forall v: nat {:trigger In(v, n)} :: In(v, n) ==> Leaf(w.mem, w.trees[child], v) == None
  }

  ghost predicate AllCopied(w: World, sh: Sharing, parent: nat, child: nat, n: Node)
    requires parent in w.trees && child in w.trees
  {
    forall v: nat {:trigger In(v, n)} :: In(v, n) ==> CopiedAt(w, sh, parent, child, v)
  }

  lemma InChild(v: nat, n: Node, i: nat)
    requires 0 < n.level <= 4 && i < 512
    ensures In(v, Child(n, i)) <==> Up(v, n.level - 1) == n.prefix * 512 + i
    ensures In(v, Child(n, i)) ==> In(v, n)
  {
    UpStep(v, n.level - 1);
  }

  lemma CopyProgress(w: World, w': World, sh: Sharing, total: nat, parent: nat, child: nat, n: Node, i: nat)
    requires WorldOk(w, sh, total) && parent in w.trees && child in w.trees && parent != child
    requires 0 < n.level <= 4 && i < 512
    requires CopiedFirst(w, sh, parent, child, n, i)
    requires Grown(w, w', sh, child) && SameOutside(w, w', child, Child(n, i))
    requires AllCopied(w', sh, parent, child, Child(n, i))
    ensures CopiedFirst(w', sh, parent, child, n, i + 1)
  {
    forall v: nat | In(v, n)
      ensures if Up(v, n.level - 1) < n.prefix * 512 + i + 1 then CopiedAt(w', sh, parent, child, v)
              else Leaf(w'.mem, w'.trees[child], v) == None
    {
      InChild(v, n, i);
      if Up(v, n.level - 1) < n.prefix * 512 + i {
        assert !In(v, Child(n, i));
        StaysCopied(w, w', sh, total, parent, child, v);
      }
    }
  }

  // An absent entry of the parent: nothing to copy in that part.
  lemma NothingToCopy(w: World, sh: Sharing, total: nat, parent: nat, child: nat, n: Node, i: nat)
    requires WorldOk(w, sh, total) && parent in w.trees && child in w.trees
    requires n in w.trees[parent] && 0 < n.level <= 4 && i < Width(n)
    requires !Present(EntryAt(w.mem, w.trees[parent][n], i))
    requires Bare(w, child, Child(n, i))
    ensures AllCopied(w, sh, parent, child, Child(n, i))
  {
    var nodes := w.trees[parent];
    assert TreeAt(w, sh, parent);
    assert NodeOk(w.mem, nodes, sh, n) && EntryOk(w.mem, nodes, sh, n, i);
    forall v: nat | In(v, Child(n, i)) ensures CopiedAt(w, sh, parent, child, v) {
      InChild(v, n, i);
      if n.level == 1 {
        assert Over(v, 1) == n && v % 512 == i;
      } else if Over(v, 1) in nodes {
        OverBelow(v, Child(n, i));
        if Over(v, 1) != Child(n, i) {
          Teardown.NothingBelow(w.mem, nodes, sh, Child(n, i), Over(v, 1));
        }
      }
    }
  }

  // The page table of a page in the region of c is c itself or below it.
  lemma OverBelow(v: nat, c: Node)
    requires In(v, c) && 1 <= c.level <= 4
    ensures Over(v, 1) == c || Teardown.BelowFirst(Over(v, 1), c, 512)
  {
  }

  // The page numbers of the user half.
  lemma {:induction false} PrefixInUserHalf(mem: Mem, nodes: Nodes, sh: Sharing, n: Node)
    requires TreeOk(mem, nodes, sh) && n in nodes && n.level <= 3
    ensures Up(n.prefix, 3 - n.level) < 256
    decreases 3 - n.level
  {
    assert NodeOk(mem, nodes, sh, n);
    if n.level < 3 {
      PrefixInUserHalf(mem, nodes, sh, Parent(n));
      Teardown.UpParent(n.prefix, 3 - n.level);
    }
  }

  // The parent's table n, seen again after the child grew.
  lemma TableStays(w: World, w': World, sh: Sharing, total: nat, parent: nat, child: nat, n: Node)
    requires WorldOk(w, sh, total) && parent in w.trees && child in w.trees && parent != child
    requires Grown(w, w', sh, child) && n in w.trees[parent] && n.level > 0
    ensures parent in w'.trees && n in w'.trees[parent] && w'.trees[parent][n] == w.trees[parent][n]
    ensures w.trees[parent][n] in w.mem && w'.mem[w.trees[parent][n]] == w.mem[w.trees[parent][n]]
    ensures n.level == 1 ==> n.prefix * 512 + 511 < USER_PAGES
  {
    assert TreeAt(w, sh, parent);
    assert Owns(w, parent, n) && NodeOk(w.mem, w.trees[parent], sh, n);
    if n.level == 1 {
      PrefixInUserHalf(w.mem, w.trees[parent], sh, n);
    }
  }

  method CloneBelow(m: Machine, ghost parent: nat, child: nat, level: nat, prefix: nat, table: nat) returns (ok: bool)
    requires m.Valid() && Pair(m, parent, child) && 0 < level <= 4
    requires Node(level, prefix) in m.trees[parent] && m.trees[parent][Node(level, prefix)] == table
    requires Bare(m.Now(), child, Node(level, prefix))
    modifies m.Repr()
    ensures m.Valid() && Pair(m, parent, child) && Grown(old(m.Now()), m.Now(), m.sh, child)
    ensures SameOutside(old(m.Now()), m.Now(), child, Node(level, prefix))
    ensures ok ==> CopiedFirst(m.Now(), m.sh, parent, child, Node(level, prefix), Width(Node(level, prefix)))
    ensures !ok ==> Scarce(m.Now(), m.pmm.totalFrames, 4)
    decreases level
  {
    ghost var n := Node(level, prefix);
    ghost var w := m.Now();
    GrownItself(w, m.sh, child);
    var limit := if level == 4 then 256 else 512;
    for i := 0 to limit
      invariant m.Valid() && Pair(m, parent, child) && Grown(w, m.Now(), m.sh, child)
      invariant SameOutside(w, m.Now(), child, n)
      invariant CopiedFirst(m.Now(), m.sh, parent, child, n, i)
    {
      ok := CloneEntry(m, w, parent, child, level, prefix, i, table);
      if !ok {
        return;
      }
    }
    ok := true;
  }

  method CloneEntry(m: Machine, ghost w: World, ghost parent: nat, child: nat, level: nat, prefix: nat, i: nat,
                    table: nat)
    returns (ok: bool)
    requires m.Valid() && Pair(m, parent, child) && 0 < level <= 4 && i < Width(Node(level, prefix))
    requires WorldOk(w, m.sh, m.pmm.totalFrames) && parent in w.trees && child in w.trees
    requires Grown(w, m.Now(), m.sh, child)
    requires Node(level, prefix) in w.trees[parent] && w.trees[parent][Node(level, prefix)] == table
    requires SameOutside(w, m.Now(), child, Node(level, prefix))
    requires CopiedFirst(m.Now(), m.sh, parent, child, Node(level, prefix), i)
    modifies m.Repr()
    ensures m.Valid() && Pair(m, parent, child) && Grown(w, m.Now(), m.sh, child)
    ensures SameOutside(w, m.Now(), child, Node(level, prefix))
    ensures ok ==> CopiedFirst(m.Now(), m.sh, parent, child, Node(level, prefix), i + 1)
    ensures !ok ==> Scarce(m.Now(), m.pmm.totalFrames, 4)
    decreases level, 0
  {
    ghost var n := Node(level, prefix);
    ghost var w1 := m.Now();
    TableStays(w, w1, m.sh, m.pmm.totalFrames, parent, child, n);
    ok := ClonePart(m, parent, child, level, prefix, i, EntryAt(m.mem, table, i));
    GrownTrans(w, w1, m.Now(), m.sh, child);
    OutsideTrans(w, w1, m.Now(), child, n, i);
    if ok {
      CopyProgress(w1, m.Now(), m.sh, m.pmm.totalFrames, parent, child, n, i);
    }
  }

  method ClonePart(m: Machine, ghost parent: nat, child: nat, level: nat, prefix: nat, i: nat,
                   e: Entry) returns (ok: bool)
    requires m.Valid() && Pair(m, parent, child) && 0 < level <= 4 && i < Width(Node(level, prefix))
    requires Node(level, prefix) in m.trees[parent]
    requires level == 1 ==> prefix * 512 + 511 < USER_PAGES
    requires e == EntryAt(m.mem, m.trees[parent][Node(level, prefix)], i)
    requires CopiedFirst(m.Now(), m.sh, parent, child, Node(level, prefix), i)
    modifies m.Repr()
    ensures m.Valid() && Pair(m, parent, child) && Grown(old(m.Now()), m.Now(), m.sh, child)
    ensures SameOutside(old(m.Now()), m.Now(), child, Child(Node(level, prefix), i))
    ensures ok ==> AllCopied(m.Now(), m.sh, parent, child, Child(Node(level, prefix), i))
    ensures !ok ==> Scarce(m.Now(), m.pmm.totalFrames, 4)
    decreases level, 0, 0
  {
    ghost var n := Node(level, prefix);
    BareNext(m.Now(), m.sh, parent, child, n, i);
    if !Present(e) {
      GrownItself(m.Now(), m.sh, child);
      NothingToCopy(m.Now(), m.sh, m.pmm.totalFrames, parent, child, n, i);
      return true;
    }
    if level > 1 {
      EntryToChild(m.Now(), m.sh, m.pmm.totalFrames, parent, n, i);
      ok := CloneBelow(m, parent, child, level - 1, prefix * 512 + i, e.frame);
      if ok {
        WholeRegion(m.Now(), m.sh, parent, child, Child(n, i));
      }
    } else {
      var v := prefix * 512 + i;
      PageOfEntry(m.Now(), m.sh, parent, n, i);
      assert In(v, Child(n, i));
      ghost var w := m.Now();
      ok := ClonePage(m, parent, child, v, e);
      ScarceLater(w, m.Now(), m.sh, child, m.pmm.totalFrames, 4);
    }
  }

  lemma ScarceLater(w: World, w': World, sh: Sharing, child: nat, total: nat, k: nat)
    requires child in w.trees && Grown(w, w', sh, child)
    ensures Scarce(w, total, k) ==> Scarce(w', total, k)
  {
    SubsetSize(w.owner.Keys, w'.owner.Keys);
  }

  lemma OutsideTrans(w: World, w1: World, w2: World, child: nat, n: Node, i: nat)
    requires child in w.trees && child in w1.trees && child in w2.trees && 0 < n.level <= 4 && i < 512
    requires SameOutside(w, w1, child, n) && SameOutside(w1, w2, child, Child(n, i))
    ensures SameOutside(w, w2, child, n)
  {
    forall v: nat | !In(v, n) ensures Leaf(w2.mem, w2.trees[child], v) == Leaf(w.mem, w.trees[child], v) {
      InChild(v, n, i);
      assert !In(v, Child(n, i));
    }
  }

  lemma BareNext(w: World, sh: Sharing, parent: nat, child: nat, n: Node, i: nat)
    requires parent in w.trees && child in w.trees && 0 < n.level <= 4 && i < 512
    requires CopiedFirst(w, sh, parent, child, n, i)
    ensures Bare(w, child, Child(n, i))
  {
    forall v: nat | In(v, Child(n, i)) ensures Leaf(w.mem, w.trees[child], v) == None {
      InChild(v, n, i);
      assert In(v, n);
    }
  }

  lemma WholeRegion(w: World, sh: Sharing, parent: nat, child: nat, n: Node)
    requires parent in w.trees && child in w.trees && 0 < n.level < 4
    requires CopiedFirst(w, sh, parent, child, n, 512)
    ensures AllCopied(w, sh, parent, child, n)
  {
    forall v: nat | In(v, n) ensures CopiedAt(w, sh, parent, child, v) {
      UpStep(v, n.level - 1);
    }
  }

  lemma PageOfEntry(w: World, sh: Sharing, parent: nat, n: Node, i: nat)
    requires parent in w.trees && n.level == 1 && n in w.trees[parent] && i < 512
    requires Present(EntryAt(w.mem, w.trees[parent][n], i))
    ensures Leaf(w.mem, w.trees[parent], n.prefix * 512 + i) == Some(EntryAt(w.mem, w.trees[parent][n], i))
  {
    assert Over(n.prefix * 512 + i, 1) == n;
  }

  // ---------------------------------------------------------------- the whole address space

  // The tree of `child` is new, stands on frames that were free, and is a copy of the tree of `parent`.
  ghost predicate Forked(w: World, w': World, sh: Sharing, parent: nat, child: nat) {
    && NewTree(w, w', child) && parent in w.trees && parent in w'.trees && child in w'.trees
    && (forall v: nat :: v < USER_PAGES ==> Leaf(w'.mem, w'.trees[parent], v) == Leaf(w.mem, w.trees[parent], v))
    && (forall v: nat :: v < USER_PAGES ==> CopiedAt(w', sh, parent, child, v))
  }

  lemma ForkDone(w: World, w1: World, w2: World, sh: Sharing, total: nat, parent: nat, child: nat)
    requires WorldOk(w, sh, total) && child !in w.owner && child !in w.trees && !IsShared(sh, child)
    requires parent in w.trees && child in w1.mem && w1 == RootWorld(w, child, w1.mem[child])
    requires WorldOk(w1, sh, total) && Grown(w1, w2, sh, child)
    requires forall v: nat :: Leaf(w1.mem, w1.trees[parent], v) == Leaf(w.mem, w.trees[parent], v)
    requires CopiedFirst(w2, sh, parent, child, ROOT, 256)
    ensures Forked(w, w2, sh, parent, child)
  {
    NewRootGrown(w, w1, w2, sh, total, child);
    forall v: nat | v < USER_PAGES
      ensures Leaf(w2.mem, w2.trees[parent], v) == Leaf(w.mem, w.trees[parent], v)
      ensures CopiedAt(w2, sh, parent, child, v)
    {
      assert In(v, ROOT) && Up(v, 3) < 256;
      GrownKeeps(w1, w2, sh, total, child, parent, v);
    }
  }

  // As many frames are new as the child's tree has nodes.
  lemma NewFrames(w: World, w2: World, sh: Sharing, total: nat, child: nat)
    requires WorldOk(w, sh, total) && WorldOk(w2, sh, total) && NewTree(w, w2, child)
    ensures |w2.owner| == |w.owner| + |w2.trees[child]|
  {
    var nodes := w2.trees[child];
    assert TreeAt(w2, sh, child);
    TreeInjective(w2, sh, child);
    ValuesSize(nodes, nodes.Keys);
    assert (set k | k in nodes.Keys :: nodes[k]) == nodes.Values;
    NewFramesAre(w, w2, sh, total, child);
  }

  lemma NewFramesAre(w: World, w2: World, sh: Sharing, total: nat, child: nat)
    requires WorldOk(w, sh, total) && WorldOk(w2, sh, total) && NewTree(w, w2, child)
    ensures w2.owner.Keys == w.owner.Keys + w2.trees[child].Values && w.owner.Keys !! w2.trees[child].Values
  {
    var nodes := w2.trees[child];
    forall f | f in w2.owner ensures f in nodes.Values <==> f !in w.owner {
      NewFrame(w, w2, sh, total, child, f);
    }
    assert TreeAt(w2, sh, child);
    forall f | f in nodes.Values ensures f in w2.owner {
      var n :| n in nodes && nodes[n] == f;
      assert Owns(w2, child, n);
    }
  }

  lemma NewFrame(w: World, w2: World, sh: Sharing, total: nat, child: nat, f: nat)
    requires WorldOk(w, sh, total) && WorldOk(w2, sh, total) && NewTree(w, w2, child) && f in w2.owner
    ensures f in w2.trees[child].Values <==> f !in w.owner
  {
    var nodes := w2.trees[child];
    assert TreeAt(w2, sh, child) && Placed(w2, f);
    assert f in w.owner ==> Placed(w, f);
    if f in nodes.Values {
      var n :| n in nodes && nodes[n] == f;
      assert Owns(w2, child, n);
    }
  }

  lemma {:induction false} ValuesSize(nodes: Nodes, keys: set<Node>)
    requires Injective(nodes) && keys <= nodes.Keys
    ensures |set k | k in keys :: nodes[k]| == |keys|
    decreases |keys|
  {
    if keys != {} {
      var n :| n in keys;
      ValuesSize(nodes, keys - {n});
      forall k | k in keys - {n} ensures nodes[k] != nodes[n] {
        assert Distinct(nodes, k, n);
      }
      assert (set k | k in keys :: nodes[k]) == (set k | k in keys - {n} :: nodes[k]) + {nodes[n]};
    } else {
      assert (set k | k in keys :: nodes[k]) == {};
    }
  }

  // A copy fails only for lack of memory: at most four more frames were free than the parent's tree has.
  lemma FailureMeansScarce(w: World, w2: World, sh: Sharing, total: nat, parent: nat, child: nat)
    requires WorldOk(w, sh, total) && WorldOk(w2, sh, total) && NewTree(w, w2, child)
    requires parent in w.trees && parent in w2.trees && Within(w2, parent, child) && Scarce(w2, total, 4)
    ensures Scarce(w, total, |w.trees[parent]| + 4)
  {
    NewFrames(w, w2, sh, total, child);
    SubsetSize(w2.trees[child].Keys, w2.trees[parent].Keys);
  }

  /** A copy of an address space for fork, or 0 with everything as before. */
  method CloneUserSpace(m: Machine, parent: nat) returns (child: nat)
    requires m.Valid() && (parent == 0 || parent in m.trees)
    modifies m.Repr()
    ensures m.Valid()
    ensures child == 0 ==> m.owner == old(m.owner) && m.trees == old(m.trees) && Preserved(old(m.Now()), m.Now())
    ensures child != 0 ==> Forked(old(m.Now()), m.Now(), m.sh, parent, child)
    ensures child == 0 && parent != 0 ==> Scarce(old(m.Now()), m.pmm.totalFrames, |old(m.trees)[parent]| + 4)
  {
    ghost var w := m.Now();
    if parent == 0 {
      return 0;
    }
    child := m.Init();
    if child == 0 {
      m.FullIsScarce();
      return;
    }
    child := CloneInto(m, w, parent, child);
  }

  method CloneInto(m: Machine, ghost w: World, parent: nat, root: nat) returns (child: nat)
    requires m.Valid() && parent in w.trees && WorldOk(w, m.sh, m.pmm.totalFrames) && m.NewRoot(w, root)
    requires forall v: nat :: Leaf(m.mem, m.trees[parent], v) == Leaf(w.mem, w.trees[parent], v)
    modifies m.Repr()
    ensures m.Valid()
    ensures child == 0 ==> m.owner == w.owner && m.trees == w.trees && Preserved(w, m.Now())
    ensures child != 0 ==> Forked(w, m.Now(), m.sh, parent, child)
    ensures child == 0 ==> Scarce(w, m.pmm.totalFrames, |w.trees[parent]| + 4)
  {
    ghost var w1 := m.Now();
    ghost var total := m.pmm.totalFrames;
    RootsReady(w1, m.sh, total, parent, root);
    var ok := CloneBelow(m, parent, root, 4, 0, parent);
    ghost var w2 := m.Now();
    if ok {
      ForkDone(w, w1, w2, m.sh, total, parent, root);
      return root;
    }
    NewRootGrown(w, w1, w2, m.sh, total, root);
    FailureMeansScarce(w, w2, m.sh, total, parent, root);
    Teardown.Free(m, root);
    NewTreeUndone(w, w2, m.Now(), m.sh, total, root);
    child := 0;
  }

  lemma RootsReady(w: World, sh: Sharing, total: nat, parent: nat, root: nat)
    requires WorldOk(w, sh, total) && parent in w.trees && root in w.trees
    requires forall v: nat :: Leaf(w.mem, w.trees[root], v) == None
    ensures ROOT in w.trees[parent] && w.trees[parent][ROOT] == parent
    ensures Bare(w, root, ROOT)
    ensures !IsShared(sh, root)
    ensures w.trees[root].Keys == {ROOT} ==> Within(w, parent, root)
  {
    assert TreeAt(w, sh, parent) && TreeAt(w, sh, root);
    assert NodeOk(w.mem, w.trees[root], sh, ROOT);
  }
}
