/** The virtual memory manager: page tables edited in place in physical memory.

    `MapPage`, `UnmapPage` and `Resolve` are proved against the flat view `Leaf`, which says for each page of
    the user half which frame and flags it has. */
module Vmm {
  import opened PageEntry
  import opened PageTree
  import opened TreeEdit
  import opened World
  import opened WorldEdit
  import Pmm

  class Machine {
    const pmm: Pmm.Allocator
    const sh: Sharing
    const kernelRoot: nat
    var mem: Mem
    ghost var owner: map<nat, Owner>
    ghost var trees: map<nat, Nodes>

    /** The machine as booting leaves it: frames in use belong to the kernel for good, no user tree exists. */
    constructor Boot(pmm: Pmm.Allocator, sh: Sharing, kernelRoot: nat, mem: Mem)
      requires pmm.Valid()
      requires kernelRoot in pmm.used && kernelRoot in mem && !IsShared(sh, kernelRoot)
      requires mem[kernelRoot] == Table(sh.kernel) && |sh.kernel| == 512
      requires forall f: nat :: f < pmm.totalFrames || IsShared(sh, f) ==> f in mem
      requires forall f: nat :: IsShared(sh, f) ==> IsPage(mem[f]) && (f < pmm.totalFrames ==> f in pmm.used)
      ensures Valid() && trees == map[] && Settled(Now())
      ensures forall f :: f in owner ==> owner[f] == Permanent
      ensures this.pmm == pmm && this.sh == sh && this.kernelRoot == kernelRoot && this.mem == mem
    {
      this.pmm := pmm;
      this.sh := sh;
      this.kernelRoot := kernelRoot;
      this.mem := mem;
      trees := map[];
      owner := map f | f in pmm.used :: Permanent;
    }

    ghost function Now(): World
      reads this
    {
      World(mem, owner, trees)
    }

    ghost function Repr(): set<object> {
      {this, pmm, pmm.bitmap}
    }

    ghost predicate Valid()
      reads this, pmm, pmm.bitmap
    {
      && pmm.Valid()
      && owner.Keys == pmm.used
      && WorldOk(Now(), sh, pmm.totalFrames)
      && kernelRoot in owner && owner[kernelRoot] == Permanent
      && kernelRoot in mem && mem[kernelRoot] == Table(sh.kernel) && |sh.kernel| == 512
    }

    ghost predicate Full()
      reads this
    {
      forall f :: 1 <= f < pmm.totalFrames ==> f in owner
    }

    lemma FullIsScarce()
      requires Valid() && Full()
      ensures Scarce(Now(), pmm.totalFrames, 0)
    {
      RangeSize(owner.Keys, pmm.totalFrames);
    }

    // ---------------------------------------------------------------- frames

    method AllocFrame() returns (f: nat)
      requires Valid()
      modifies Repr()
      ensures Valid()
      ensures f == 0 ==> Now() == old(Now()) && Full()
      ensures f != 0 ==> f !in old(owner) && f < pmm.totalFrames && f in mem
      ensures f != 0 ==> Now() == old(Now()).(owner := old(owner)[f := Loose])
    {
      var phys := pmm.AllocFrame();
      f := phys / 4096;
      if phys != 0 {
        owner := owner[f := Loose];
        RelabelOk(old(Now()), sh, pmm.totalFrames, owner);
      }
    }

    /** Gives a frame back.  Callers only pass frames they hold, so neither panic nor the already-free branch
        is reached. */
    method FreeFrame(f: nat)
      requires Valid() && f in owner && owner[f] == Loose
      modifies Repr()
      ensures Valid()
      ensures Now() == old(Now()).(owner := old(owner) - {f})
    {
      var outcome := pmm.FreeFrame(Address(f));
      assert outcome.Freed?;
      owner := owner - {f};
      RelabelOk(old(Now()), sh, pmm.totalFrames, owner);
    }

    /** Adjacent frames for a kernel stack; 0 when there is no such run. */
    method AllocStack(count: nat, ghost t: nat) returns (first: nat)
      requires Valid()
      modifies Repr()
      ensures Valid()
      ensures first == 0 ==> Now() == old(Now())
      ensures first == 0 && count > 0 ==> forall lo :: 1 <= lo && lo + count <= pmm.totalFrames ==>
        !Pmm.FreeRun(owner.Keys, lo, count)
      ensures first != 0 ==> first + count <= pmm.totalFrames && forall f :: first <= f < first + count ==>
        f !in old(owner)
      ensures first != 0 ==> Now() == old(Now()).(owner := WithStack(old(owner), first, count, t))
    {
      var phys := pmm.AllocContiguous(count);
      first := phys / 4096;
      if phys != 0 {
        RunIsFree(old(pmm.used), first, count);
        StackTaken(Now(), sh, pmm.totalFrames, first, count, t);
        StackKeys(owner, first, count, t);
        owner := WithStack(owner, first, count, t);
        assert owner.Keys == pmm.used;
      }
    }

    static lemma RunIsFree(used: set<nat>, first: nat, count: nat)
      requires Pmm.FreeRun(used, first, count)
      ensures forall f :: first <= f < first + count ==> f !in used
    {
    }

    static lemma StackKeys(owner: map<nat, Owner>, first: nat, count: nat, t: nat)
      ensures forall f :: f in WithStack(owner, first, count, t) <==> f in owner || first <= f < first + count
    {
      forall f | first <= f < first + count ensures InRun(f, first, count) {
      }
    }

    method FreeStackFrame(f: nat)
      requires Valid() && f in owner && owner[f].KernelStack?
      modifies Repr()
      ensures Valid()
      ensures Now() == old(Now()).(owner := old(owner) - {f})
    {
      ghost var before := owner;
      owner := owner[f := Loose];
      RelabelOk(old(Now()), sh, pmm.totalFrames, owner);
      FreeFrame(f);
      assert owner == before - {f};
    }

    /** Gives back the frames of a kernel stack, one by one. */
    method FreeStack(first: nat, count: nat)
      requires Valid() && forall f :: first <= f < first + count ==> f in owner && owner[f].KernelStack?
      modifies Repr()
      ensures Valid()
      ensures Now() == old(Now()).(owner := WithoutRun(old(owner), first, first + count))
    {
      ghost var w := Now();
      var i := 0;
      while i < count
        invariant i <= count && Valid()
        invariant Now() == w.(owner := WithoutRun(w.owner, first, first + i))
      {
        FreeStackFrame(first + i);
        OneLess(w.owner, first, first + i);
        i := i + 1;
      }
    }

    // Overwrites a frame in hand, or a mapped page with another page.
    method Store(f: nat, x: Frame)
      requires Valid() && f in mem && f != kernelRoot
      requires f in owner && owner[f].InTree? ==> owner[f].node.level == 0 && IsPage(x)
      requires IsShared(sh, f) ==> IsPage(x)
      modifies this`mem
      ensures Valid()
      ensures Now() == old(Now()).(mem := old(mem)[f := x])
      ensures forall q, v: nat :: q in trees ==> Leaf(mem, trees[q], v) == old(Leaf(mem, trees[q], v))
    {
      mem := mem[f := x];
      WriteOk(old(Now()), sh, pmm.totalFrames, f, x);
    }

    method AllocFrameZeroed() returns (f: nat)
      requires Valid()
      modifies Repr()
      ensures Valid()
      ensures f == 0 ==> Now() == old(Now()) && Full()
      ensures f != 0 ==> f !in old(owner) && f < pmm.totalFrames
      ensures f != 0 ==> Now() == World(old(mem)[f := ZeroPage()], old(owner)[f := Loose], old(trees))
      ensures forall q, v: nat :: q in trees ==> Leaf(mem, trees[q], v) == old(Leaf(mem, trees[q], v))
    {
      f := AllocFrame();
      if f != 0 {
        Store(f, ZeroPage());
      }
    }

    // ---------------------------------------------------------------- page tables

    // The effect of stepping down from table n through entry i.
    static ghost predicate Stepped(w: World, w': World, sh: Sharing, root: nat, n: Node, i: nat, perm: Flags, next: nat)
      requires n.level > 0
    {
      && root in w.trees && root in w'.trees && Grew(w, w', sh, root)
      && (forall k :: k in w'.trees[root] ==> k in w.trees[root] || k == Child(n, i))
      && |w'.owner| <= |w.owner| + 1
      && (next != 0 ==>
            && Child(n, i) in w'.trees[root] && w'.trees[root][Child(n, i)] == next
            && Covers(Link(w'.mem, w'.trees[root], Child(n, i)).low, perm))
    }

    static lemma NewTableStep(w: World, sh: Sharing, total: nat, root: nat, n: Node, i: nat, f: nat, perm: Flags)
      requires CanLink(w, sh, total, root, n, i, f, perm)
      ensures f != w.trees[root][n] && WorldOk(TableWorld(w, root, n, i, f, perm), sh, total)
      ensures Stepped(w, TableWorld(w, root, n, i, f, perm), sh, root, n, i, perm, f)
    {
      TableStep(w, sh, total, root, n, i, f, perm);
      CoversItself(perm);
    }

    method LinkNewTable(ghost root: nat, ghost n: Node, table: nat, i: nat, perm: Flags) returns (next: nat)
      requires Valid() && At(Now(), sh, pmm.totalFrames, root, n)
      requires n.level > 1 && trees[root][n] == table && CanGrow(mem, trees[root], n, i, perm)
      requires NodeOk(mem, trees[root], sh, n) && Child(n, i) !in trees[root]
      modifies Repr()
      ensures Valid() && Stepped(old(Now()), Now(), sh, root, n, i, perm, next)
      ensures next == 0 ==> Full()
    {
      ghost var w := Now();
      var phys := pmm.AllocFrame();
      next := phys / 4096;
      if next != 0 {
        NewTableStep(w, sh, pmm.totalFrames, root, n, i, next, perm);
        InstallTable(root, n, table, i, next, perm);
      }
    }

    method InstallTable(ghost root: nat, ghost n: Node, table: nat, i: nat, f: nat, perm: Flags)
      requires root in trees && n in trees[root] && n.level > 0 && trees[root][n] == table && f != table
      requires table in mem && IsTable(mem[table]) && i < 512
      modifies this`mem, this`owner, this`trees
      ensures Now() == TableWorld(old(Now()), root, n, i, f, perm)
    {
      mem := mem[f := EmptyTable()];
      mem := SetEntry(mem, table, i, Entry(f, perm, false));
      owner := owner[f := InTree(root, Child(n, i))];
      ghost var nodes: Nodes := trees[root][Child(n, i) := f];
      trees := trees[root := nodes];
    }

    method GrowEntry(ghost root: nat, ghost n: Node, table: nat, i: nat, perm: Flags) returns (next: nat)
      requires Valid() && At(Now(), sh, pmm.totalFrames, root, n)
      requires n.level > 1 && trees[root][n] == table && CanGrow(mem, trees[root], n, i, perm)
      requires NodeOk(mem, trees[root], sh, n) && Child(n, i) in trees[root]
      modifies Repr()
      ensures Valid() && Stepped(old(Now()), Now(), sh, root, n, i, perm, next)
      ensures next != 0
    {
      ghost var w := Now();
      EntryToChild(w, sh, pmm.totalFrames, root, n, i);
      FlagsStep(w, sh, pmm.totalFrames, root, n, i, perm);
      var e := mem[table].entries[i];
      mem := SetEntry(mem, table, i, WithFlags(e, perm));
      assert Now() == FlagsWorld(w, root, n, i, perm);
      next := e.frame;
    }

    /** The table below entry i of `table`, made and linked if there is none; 0 when no frame is left. */
    method Descend(ghost root: nat, ghost n: Node, table: nat, i: nat, perm: Flags) returns (next: nat)
      requires Valid() && At(Now(), sh, pmm.totalFrames, root, n)
      requires n.level > 1 && trees[root][n] == table && CanGrow(mem, trees[root], n, i, perm)
      modifies Repr()
      ensures Valid() && Stepped(old(Now()), Now(), sh, root, n, i, perm, next)
      ensures next == 0 ==> Full()
    {
      Unfold(Now(), sh, pmm.totalFrames, root, n);
      EntryToChild(Now(), sh, pmm.totalFrames, root, n, i);
      if !Present(mem[table].entries[i]) {
        next := LinkNewTable(root, n, table, i, perm);
      } else {
        next := GrowEntry(root, n, table, i, perm);
      }
    }

    // All new nodes lie on the way to page v.
    static ghost predicate AddsOnPath(w: World, w': World, root: nat, v: nat)
      requires root in w.trees && root in w'.trees
    {
      forall k :: k in w'.trees[root] ==> k in w.trees[root] || (k.level <= 3 && k == Over(v, k.level))
    }

    // The first k tables on the way to page v are there.
    static ghost predicate OnTheWay(w: World, w': World, sh: Sharing, root: nat, v: nat, k: nat) {
      && root in w.trees && root in w'.trees && Grew(w, w', sh, root) && AddsOnPath(w, w', root, v)
      && |w'.owner| <= |w.owner| + k
    }

    static lemma OneTableOn(w0: World, w1: World, w2: World, sh: Sharing, root: nat, v: nat, k: nat, perm: Flags,
                            next: nat)
      requires k < 3 && OnTheWay(w0, w1, sh, root, v, k)
      requires Stepped(w1, w2, sh, root, Over(v, 4 - k), Up(v, 3 - k) % 512, perm, next)
      requires Child(Over(v, 4 - k), Up(v, 3 - k) % 512) == Over(v, 3 - k)
      ensures OnTheWay(w0, w2, sh, root, v, k + 1)
    {
      GrewTrans(w0, w1, w2, sh, root);
    }

    method WriteLeaf(root: nat, v: nat, pt: nat, e: Entry)
      requires Valid() && CanMap(Now(), sh, pmm.totalFrames, root, v, e)
      requires trees[root][Over(v, 1)] == pt
      modifies Repr()
      ensures Valid() && root in trees && Mapped(old(Now()), Now(), sh, root, v, e)
      ensures AddsOnPath(old(Now()), Now(), root, v) && |owner| == |old(owner)|
    {
      MapStep(Now(), sh, pmm.totalFrames, root, v, e);
      Unfold(Now(), sh, pmm.totalFrames, root, Over(v, 1));
      InstallLeaf(root, v, pt, e);
    }

    method InstallLeaf(root: nat, v: nat, pt: nat, e: Entry)
      requires root in trees && Over(v, 1) in trees[root] && trees[root][Over(v, 1)] == pt && pt in mem
      requires IsTable(mem[pt])
      modifies this`mem, this`owner, this`trees
      ensures Now() == LeafWorld(old(Now()), sh, root, v, e) && owner.Keys == old(owner.Keys)
    {
      ghost var w := Now();
      mem := SetEntry(mem, pt, v % 512, e);
      owner := LeafOwner(w, sh, root, v, e);
      trees := trees[root := LeafNodes(trees[root], sh, v, e.frame)];
    }

    // `table` is number k on the way to page v, and lets through what the flags allow.
    ghost predicate Reached(root: nat, v: nat, k: nat, table: nat, flags: Flags)
      requires k <= 3
      reads this
    {
      && root in trees && Over(v, 4 - k) in trees[root] && trees[root][Over(v, 4 - k)] == table
      && (k > 0 ==> Covers(Link(mem, trees[root], Over(v, 4 - k)).low, flags))
    }

    method NextTable(ghost w0: World, ghost root: nat, v: nat, k: nat, table: nat, flags: Flags) returns (next: nat)
      requires Valid() && k < 3 && v < USER_PAGES && MapFlags(flags)
      requires OnTheWay(w0, Now(), sh, root, v, k) && Reached(root, v, k, table, flags)
      modifies Repr()
      ensures Valid() && OnTheWay(w0, Now(), sh, root, v, k + 1)
      ensures next == 0 ==> Full()
      ensures next != 0 ==> Reached(root, v, k + 1, next, flags)
    {
      ghost var w1 := Now();
      PathStep(v, k);
      next := Descend(root, Over(v, 4 - k), table, Up(v, 3 - k) % 512, flags);
      OneTableOn(w0, w1, Now(), sh, root, v, k, flags, next);
    }

    static lemma PathStep(v: nat, k: nat)
      requires k < 3 && v < USER_PAGES
      ensures Child(Over(v, 4 - k), Up(v, 3 - k) % 512) == Over(v, 3 - k)
      ensures k == 0 ==> Up(v, 3 - k) % 512 < 256
    {
      PathArithmetic(v);
      assert k == 0 || k == 1 || k == 2;
    }

    lemma StartOfWay(root: nat, v: nat, flags: Flags)
      requires Valid() && root in trees && v < USER_PAGES
      ensures OnTheWay(Now(), Now(), sh, root, v, 0) && Reached(root, v, 0, root, flags)
    {
      PathArithmetic(v);
      assert TreeAt(Now(), sh, root);
    }

    /** The three tables on the way to page v, each with the flags of the page to be mapped. */
    method MakePath(root: nat, v: nat, flags: Flags) returns (rc: int, pt: nat)
      requires Valid() && root in trees && v < USER_PAGES && MapFlags(flags)
      modifies Repr()
      ensures Valid() && OnTheWay(old(Now()), Now(), sh, root, v, 3)
      ensures 0 <= rc <= 3 && (rc != 0 ==> Full())
      ensures rc == 0 ==> Reached(root, v, 3, pt, flags)
    {
      ghost var w0 := Now();
      StartOfWay(root, v, flags);
      var pdpt := NextTable(w0, root, v, 0, root, flags);
      if pdpt == 0 {
        return 1, 0;
      }
      var pd := NextTable(w0, root, v, 1, pdpt, flags);
      if pd == 0 {
        return 2, 0;
      }
      pt := NextTable(w0, root, v, 2, pd, flags);
      rc := if pt == 0 then 3 else 0;
    }

    /** Maps page v to a frame, making the tables on the way; 1, 2 or 3 when a table cannot be allocated. */
    method MapPage(root: nat, v: nat, frame: nat, flags: Flags, nx: bool) returns (rc: int)
      requires Valid() && root in trees && v < USER_PAGES
      requires MapFlags(flags) && Mappable(Now(), sh, root, v, frame)
      modifies Repr()
      ensures Valid() && root in trees
      ensures rc == 0 ==> Mapped(old(Now()), Now(), sh, root, v, Entry(frame, flags, nx))
      ensures rc != 0 ==> 1 <= rc <= 3 && Grew(old(Now()), Now(), sh, root) && Full()
      ensures AddsOnPath(old(Now()), Now(), root, v)
      ensures |owner| <= |old(owner)| + 3
    {
      ghost var w0 := Now();
      var pt;
      rc, pt := MakePath(root, v, flags);
      if rc != 0 {
        return;
      }
      ghost var w3 := Now();
      StillMappable(w0, w3, sh, root, v, frame);
      Unfold(w3, sh, pmm.totalFrames, root, Over(v, 1));
      WriteLeaf(root, v, pt, Entry(frame, flags, nx));
      GrewMapped(w0, w3, Now(), sh, root, v, Entry(frame, flags, nx));
    }

    method ClearLeafEntry(root: nat, v: nat, pt: nat)
      requires Valid() && At(Now(), sh, pmm.totalFrames, root, Over(v, 1))
      requires trees[root][Over(v, 1)] == pt
      modifies Repr()
      ensures Valid() && root in trees && Unmapped(old(Now()), Now(), sh, root, v)
    {
      ghost var w := Now();
      Unfold(w, sh, pmm.totalFrames, root, Over(v, 1));
      UnmapStep(w, sh, pmm.totalFrames, root, v);
      mem := SetEntry(mem, pt, v % 512, EMPTY);
      owner := map f | f in owner :: if owner[f] == InTree(root, Node(0, v)) then Loose else owner[f];
      trees := trees[root := trees[root] - {Node(0, v)}];
      assert Now() == UnmapWorld(w, root, v);
    }

    /** Clears page v; -1 when a table on the way is missing, so that the page was not mapped anyway. */
    method UnmapPage(root: nat, v: nat) returns (rc: int)
      requires Valid() && root in trees && v < USER_PAGES
      modifies Repr()
      ensures Valid() && root in trees
      ensures rc == 0 || rc == -1
      ensures rc == 0 ==> Unmapped(old(Now()), Now(), sh, root, v)
      ensures rc == -1 ==> Now() == old(Now()) && Leaf(mem, trees[root], v) == None
    {
      assert TreeAt(Now(), sh, root);
      WalkFollowsNodes(mem, trees[root], sh, v, 3);
      WalkFollowsNodes(mem, trees[root], sh, v, 2);
      WalkFollowsNodes(mem, trees[root], sh, v, 1);
      var e4 := EntryAt(mem, root, Up(v, 3) % 512);
      if !Present(e4) {
        return -1;
      }
      var e3 := EntryAt(mem, e4.frame, Up(v, 2) % 512);
      if !Present(e3) {
        return -1;
      }
      var e2 := EntryAt(mem, e3.frame, Up(v, 1) % 512);
      if !Present(e2) {
        return -1;
      }
      ClearLeafEntry(root, v, e2.frame);
      rc := 0;
    }

    /** Translates an address and combines the access rights of the entries on the way. */
    method Resolve(root: nat, virt: nat) returns (rc: int, phys: nat, flags: Flags)
      ensures rc == if Translate(mem, root, virt).Some? then 0 else -1
      ensures rc == 0 ==> Translation(phys, flags) == Translate(mem, root, virt).value
    {
      var v := virt / 4096;
      phys, flags := 0, NO_FLAGS;
      var entry := EntryAt(mem, root, Up(v, 3) % 512);
      if !Present(entry) {
        return -1, phys, flags;
      }
      var eff := entry.low;
      entry := EntryAt(mem, entry.frame, Up(v, 2) % 512);
      if !Present(entry) {
        return -1, phys, flags;
      }
      eff := Restrict(eff, entry.low);
      if entry.low.huge {
        return 0, Address(entry.frame - entry.frame % 0x40000) + virt % 0x4000_0000, eff;
      }
      entry := EntryAt(mem, entry.frame, Up(v, 1) % 512);
      if !Present(entry) {
        return -1, phys, flags;
      }
      eff := Restrict(eff, entry.low);
      if entry.low.huge {
        return 0, Address(entry.frame - entry.frame % 512) + virt % 0x20_0000, eff;
      }
      entry := EntryAt(mem, entry.frame, v % 512);
      if !Present(entry) {
        return -1, phys, flags;
      }
      eff := Restrict(eff, entry.low);
      return 0, Address(entry.frame) + virt % 4096, eff;
    }

    // What a fresh root table holds: nothing in the user half, the kernel's entries in the other.
    static method RootTable(kernel: Frame) returns (x: Frame)
      requires IsTable(kernel)
      ensures IsRootTable(x, kernel)
    {
      var entries: seq<Entry> := [];
      for i := 0 to 256
        invariant |entries| == i && forall j :: 0 <= j < i ==> entries[j] == EMPTY
      {
        entries := entries + [EMPTY];
      }
      for i := 256 to 512
        invariant |entries| == i && forall j :: 0 <= j < 256 ==> entries[j] == EMPTY
        invariant forall j :: 256 <= j < i ==> entries[j] == kernel.entries[j]
      {
        entries := entries + [kernel.entries[i]];
      }
      x := Table(entries);
    }

    static predicate IsRootTable(x: Frame, kernel: Frame) {
      && IsTable(x) && IsTable(kernel)
      && (forall i: nat :: i < 256 ==> x.entries[i] == EMPTY)
      && (forall i: nat :: 256 <= i < 512 ==> x.entries[i] == kernel.entries[i])
    }

    // A tree rooted at a frame that was free has appeared, and maps nothing.
    ghost predicate NewRoot(w: World, root: nat)
      reads this
    {
      && root != 0 && root !in w.owner && root !in w.trees && root in trees
      && kernelRoot in w.mem && root in mem && IsRootTable(mem[root], w.mem[kernelRoot])
      && Now() == RootWorld(w, root, mem[root])
      && forall v: nat :: Leaf(mem, trees[root], v) == None
    }

    /** A fresh address space: the user half empty, the kernel half as in the kernel's own table. */
    method Init() returns (root: nat)
      requires Valid()
      modifies Repr()
      ensures Valid()
      ensures root == 0 ==> Now() == old(Now()) && Full()
      ensures root != 0 ==> NewRoot(old(Now()), root)
      ensures forall q, v: nat :: q in old(trees) ==> Leaf(mem, trees[q], v) == old(Leaf(mem, trees[q], v))
    {
      root := AllocFrame();
      if root != 0 {
        var x := RootTable(mem[kernelRoot]);
        RootWorldAgain(old(Now()), root, x);
        InstallRoot(root, x);
      }
    }

    static lemma RootWorldAgain(w: World, root: nat, x: Frame)
      ensures RootWorld(w.(owner := w.owner[root := Loose]), root, x) == RootWorld(w, root, x)
    {
    }

    method InstallRoot(root: nat, x: Frame)
      requires Valid() && root in owner && owner[root] == Loose
      requires IsRootTable(x, mem[kernelRoot])
      modifies this
      ensures Valid() && root !in old(trees) && root in trees
      ensures Now() == RootWorld(old(Now()), root, x)
      ensures forall v: nat :: Leaf(mem, trees[root], v) == None
      ensures forall q, v: nat :: q in old(trees) ==> Leaf(mem, trees[q], v) == old(Leaf(mem, trees[q], v))
    {
      RootStep(Now(), sh, pmm.totalFrames, root, x);
      mem := mem[root := x];
      owner := owner[root := InTree(root, ROOT)];
      ghost var nodes: Nodes := map[ROOT := root];
      trees := trees[root := nodes];
    }

    // From here on the frames of the tree only wait to be given back.
    ghost method GiveUp(root: nat)
      requires Valid() && root in trees
      modifies this`owner, this`trees
      ensures Valid() && Now() == DismantledWorld(old(Now()), root)
    {
      DismantleStep(Now(), sh, pmm.totalFrames, root);
      owner := map f | f in owner :: if owner[f].InTree? && owner[f].root == root then Loose else owner[f];
      trees := trees - {root};
    }

    lemma RootsAreUserRoots(root: nat)
      requires Valid() && root in trees
      ensures root != 0 && root != kernelRoot
    {
      assert TreeAt(Now(), sh, root);
      assert Owns(Now(), root, ROOT);
    }

    lemma ResolveFindsLeaf(root: nat, virt: nat)
      requires Valid() && root in trees && virt / 4096 < USER_PAGES
      ensures Translate(mem, root, virt) ==
        match Leaf(mem, trees[root], virt / 4096)
        case None => None
        case Some(e) => Some(Translation(Address(e.frame) + virt % 4096, e.low))
    {
      assert TreeAt(Now(), sh, root);
      TranslateIsLookup(mem, trees[root], sh, virt);
    }
  }
}
