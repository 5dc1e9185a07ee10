/** The page-fault handler's one repair: a page of the stack that was not touched before. */
module PageFault {
  import opened PageEntry
  import opened PageTree
  import opened World
  import opened Vmm
  import opened Growth
  import opened Layout
  import UserCopy

  // Just page v of r was added, zeroed and writable, on a frame that was free.
  ghost predicate StackPageAdded(w: World, w': World, sh: Sharing, r: nat, v: nat)
    requires r in w.trees && r in w'.trees
  {
    && Grown(w, w', sh, r)
    && (forall u: nat :: u != v ==> Leaf(w'.mem, w'.trees[r], u) == Leaf(w.mem, w.trees[r], u))
    && Leaf(w'.mem, w'.trees[r], v).Some?
    && var e := Leaf(w'.mem, w'.trees[r], v).value;
       e.low == USER_WRITE && !e.nx && !IsShared(sh, e.frame) && e.frame !in w.owner
       && e.frame in w'.mem && w'.mem[e.frame] == ZeroPage()
  }

  /** What the program sees: its stack goes on with a page of zeros that it may write, and no other byte has changed. */
  lemma StackReads(w: World, w': World, sh: Sharing, total: nat, r: nat, v: nat, x: nat)
    requires WorldOk(w, sh, total) && r in w.trees && r in w'.trees && StackPageAdded(w, w', sh, r, v)
    ensures x / 4096 == v ==> UserCopy.Open(w'.mem, w'.trees[r], x, true)
    ensures UserCopy.ReadByte(w'.mem, w'.trees[r], x) ==
      if x / 4096 == v then 0 else UserCopy.ReadByte(w.mem, w.trees[r], x)
  {
    if x / 4096 != v && Leaf(w.mem, w.trees[r], x / 4096).Some? {
      LeafFrame(w, sh, total, r, x / 4096);
    }
  }

  // When which answer is given.
  ghost predicate Answers(w: World, total: nat, mm: Mm, addr: nat, present: bool, code: nat) {
    && code <= 5
    && (code == 1 <==> present)
    && (code == 2 <==> !present && addr >= USER_SPACE_LIMIT)
    && (code == 5 <==> !present && addr < USER_SPACE_LIMIT && !(mm.stackLimit <= addr < mm.stackStart))
    && (code == 3 || code == 4 ==> Scarce(w, total, 4))
  }

  /** Handles a user fault at addr; `present` is bit 0 of the error code, which the processor sets exactly when
      the page is mapped.  0 when a stack page was added, else the reason why the task must die. */
  method UserFault(m: Machine, r: nat, mm: Mm, addr: nat, present: bool) returns (code: nat)
    requires m.Valid() && r in m.trees
    requires present <==> Translate(m.mem, r, addr).Some?
    modifies m.Repr()
    ensures m.Valid() && r in m.trees
    ensures code == 0 ==> !present && mm.stackLimit <= addr < mm.stackStart && addr < USER_SPACE_LIMIT
    ensures code == 0 ==> StackPageAdded(old(m.Now()), m.Now(), m.sh, r, addr / 4096)
    ensures Grown(old(m.Now()), m.Now(), m.sh, r)
    ensures code != 0 ==> forall u: nat :: Leaf(m.mem, m.trees[r], u) == old(Leaf(m.mem, m.trees[r], u))
    ensures Answers(old(m.Now()), m.pmm.totalFrames, mm, addr, present, code)
    ensures code == 1 <==> present
    ensures code == 2 <==> !present && addr >= 0x8000_0000_0000
    ensures code == 5 <==> !present && addr < 0x8000_0000_0000 && !(mm.stackLimit <= addr < mm.stackStart)
    ensures code == 3 || code == 4 ==> |old(m.owner)| + 4 >= m.pmm.totalFrames - 1
    ensures code == 0 || 1 <= code <= 5
  {
    ghost var w := m.Now();
    GrownItself(w, m.sh, r);
    if present {
      return 1;
    }
    if addr >= USER_SPACE_LIMIT {
      return 2;
    }
    if !(addr < mm.stackStart && addr >= mm.stackLimit) {
      return 5;
    }
    m.ResolveFindsLeaf(r, addr);
    var phys := m.AllocFrameZeroed();
    if phys == 0 {
      m.FullIsScarce();
      return 3;
    }
    var ok := MapOrReturn(m, w, r, addr / 4096, Entry(phys, USER_WRITE, false), ZeroPage());
    code := if ok then 0 else 4;
  }
}
