/** Building the address space of a new program: the file's segments, the stack with its arguments, and the
    regions that all programs share. */
module Image {
  import opened PageEntry
  import opened PageTree
  import opened World
  import opened WorldEdit
  import opened Vmm
  import opened Growth
  import opened Layout
  import opened UserStack
  import Elf
  import opened ElfLoad
  import Teardown

  const FB_PAGE: nat := USER_FB_VIRT / 4096
  const TRAMP_PAGE: nat := USER_SIGTRAMP_VIRT / 4096

  // The trampoline exists, outside the framebuffer, and the framebuffer's window ends below the stack.
  predicate SharingOk(sh: Sharing) {
    && sh.sigtramp != 0
    && FB_PAGE + PageUp(sh.fbSize) <= TOP_PAGE - USER_STACK_MAX_PAGES
    && (sh.fbSize != 0 ==> !(sh.fbPhys / 4096 <= sh.sigtramp < sh.fbPhys / 4096 + PageUp(sh.fbSize)))
  }

  predicate InWindow(sh: Sharing, u: nat) {
    FB_PAGE <= u < FB_PAGE + PageUp(sh.fbSize)
  }

  function WindowEntry(sh: Sharing, u: nat): Entry
    requires FB_PAGE <= u
  {
    Entry(sh.fbPhys / 4096 + (u - FB_PAGE), USER_WRITE, false)
  }

  lemma WindowShared(sh: Sharing, u: nat)
    requires InWindow(sh, u)
    ensures IsShared(sh, WindowEntry(sh, u).frame)
  {
  }

  // The framebuffer window up to page v, and with `tramp` the trampoline, were added to r.
  ghost predicate SharedMapped(w: World, w': World, sh: Sharing, r: nat, v: nat, tramp: bool)
    requires r in w.trees && r in w'.trees
  {
    forall u: nat {:trigger Leaf(w'.mem, w'.trees[r], u)} ::
      Leaf(w'.mem, w'.trees[r], u) ==
        if FB_PAGE <= u < v then Some(WindowEntry(sh, u))
        else if tramp && u == TRAMP_PAGE then Some(Entry(sh.sigtramp, USER_READ, false))
        else Leaf(w.mem, w.trees[r], u)
  }

  ghost predicate NoSharedYet(w: World, sh: Sharing, r: nat)
    requires r in w.trees
  {
    forall u: nat {:trigger Leaf(w.mem, w.trees[r], u)} :: InWindow(sh, u) || u == TRAMP_PAGE ==>
      Leaf(w.mem, w.trees[r], u) == None
  }

  method MapSharedRegions(m: Machine, r: nat) returns (ok: bool)
    requires m.Valid() && r in m.trees && SharingOk(m.sh) && NoSharedYet(m.Now(), m.sh, r)
    modifies m.Repr()
    ensures m.Valid() && r in m.trees && Grown(old(m.Now()), m.Now(), m.sh, r)
    ensures ok ==> SharedMapped(old(m.Now()), m.Now(), m.sh, r, FB_PAGE + PageUp(m.sh.fbSize), true)
    ensures !ok ==> Scarce(old(m.Now()), m.pmm.totalFrames, 3 * (PageUp(m.sh.fbSize) + 1))
  {
    ghost var w := m.Now();
    GrownItself(w, m.sh, r);
    var v := FB_PAGE;
    while v < FB_PAGE + PageUp(m.sh.fbSize)
      invariant FB_PAGE <= v <= FB_PAGE + PageUp(m.sh.fbSize) && m.Valid() && r in m.trees
      invariant Grown(w, m.Now(), m.sh, r) && SharedMapped(w, m.Now(), m.sh, r, v, false)
      invariant |m.owner| <= |w.owner| + 3 * (v - FB_PAGE)
    {
      ok := MapOneShared(m, w, r, v, false);
      if !ok {
        return;
      }
      v := v + 1;
    }
    ok := MapOneShared(m, w, r, v, true);
  }

  // One step of the loop, or with `tramp` the step after it.
  method MapOneShared(m: Machine, ghost w: World, r: nat, v: nat, tramp: bool) returns (ok: bool)
    requires m.Valid() && r in m.trees && SharingOk(m.sh) && r in w.trees && NoSharedYet(w, m.sh, r)
    requires FB_PAGE <= v && (if tramp then v == FB_PAGE + PageUp(m.sh.fbSize) else InWindow(m.sh, v))
    requires Grown(w, m.Now(), m.sh, r) && SharedMapped(w, m.Now(), m.sh, r, v, false)
    modifies m.Repr()
    ensures m.Valid() && r in m.trees && Grown(w, m.Now(), m.sh, r)
    ensures ok ==> SharedMapped(w, m.Now(), m.sh, r, if tramp then v else v + 1, tramp)
    ensures |m.owner| <= |old(m.owner)| + 3 && (!ok ==> Scarce(old(m.Now()), m.pmm.totalFrames, 3))
  {
    ghost var w1 := m.Now();
    var u := if tramp then TRAMP_PAGE else v;
    var e := if tramp then Entry(m.sh.sigtramp, USER_READ, false) else WindowEntry(m.sh, v);
    if !tramp {
      WindowShared(m.sh, v);
    }
    assert Leaf(m.mem, m.trees[r], u) == Leaf(w.mem, w.trees[r], u);
    ok := MapShared(m, r, u, e);
    GrownTrans(w, w1, m.Now(), m.sh, r);
    if ok {
      OneMoreShared(w, w1, m.Now(), m.sh, r, v, tramp, u, e);
    }
  }

  lemma OneMoreShared(w: World, w1: World, w2: World, sh: Sharing, r: nat, v: nat, tramp: bool, page: nat, e: Entry)
    requires r in w.trees && r in w1.trees && r in w2.trees && FB_PAGE <= v
    requires SharedMapped(w, w1, sh, r, v, false)
    requires if tramp then page == TRAMP_PAGE && e == Entry(sh.sigtramp, USER_READ, false)
             else page == v && e == WindowEntry(sh, v)
    requires forall u: nat :: u != page ==> Leaf(w2.mem, w2.trees[r], u) == Leaf(w1.mem, w1.trees[r], u)
    requires Leaf(w2.mem, w2.trees[r], page) == Some(e)
    ensures SharedMapped(w, w2, sh, r, if tramp then v else v + 1, tramp)
  {
    forall u: nat
      ensures Leaf(w2.mem, w2.trees[r], u) ==
        if FB_PAGE <= u < (if tramp then v else v + 1) then Some(WindowEntry(sh, u))
        else if tramp && u == TRAMP_PAGE then Some(Entry(sh.sigtramp, USER_READ, false))
        else Leaf(w.mem, w.trees[r], u)
    {
      if u != page {
        assert Leaf(w2.mem, w2.trees[r], u) == Leaf(w1.mem, w1.trees[r], u);
      }
    }
  }

  // ---------------------------------------------------------------- the whole image

  // What page u of a new program is: stack, framebuffer window, trampoline, or what the file says.
  ghost predicate ImagePage(w: World, w': World, sh: Sharing, im: ElfLoad.Image, n: nat, top: seq<byte>, u: nat,
                            leaf: Option<Entry>)
    requires n <= USER_STACK_MAX_PAGES
  {
    if TOP_PAGE - n <= u < TOP_PAGE then
      StackPage(w, w', sh, leaf, if u == TOP_PAGE - 1 then Bytes(top) else ZeroPage())
    else if InWindow(sh, u) then leaf == Some(WindowEntry(sh, u))
    else if u == TRAMP_PAGE then leaf == Some(Entry(sh.sigtramp, USER_READ, false))
    else PageIs(w, w', sh, im, |im.segs|, u, leaf)
  }

  ghost predicate ImageAt(w: World, w': World, sh: Sharing, r: nat, im: ElfLoad.Image, n: nat, top: seq<byte>)
    requires n <= USER_STACK_MAX_PAGES && r in w'.trees
  {
    forall u: nat {:trigger Leaf(w'.mem, w'.trees[r], u)} ::
      ImagePage(w, w', sh, im, n, top, u, Leaf(w'.mem, w'.trees[r], u))
  }

  // Above the limit for images, a loaded file has no page.
  lemma NoImageAbove(w: World, w': World, sh: Sharing, r: nat, im: ElfLoad.Image, u: nat)
    requires r in w'.trees && ImageOk(im) && AllLoaded(w, w', sh, r, im) && u >= TRAMP_PAGE
    ensures Leaf(w'.mem, w'.trees[r], u) == None
  {
    assert PageIs(w, w', sh, im, |im.segs|, u, Leaf(w'.mem, w'.trees[r], u));
    assert im.segs[..|im.segs|] == im.segs;
    if Elf.PageRights(im.segs, u, im.nxOn).Some? {
      Elf.ImageBelowHeap(im.segs, |im.data|, u, im.nxOn);
    }
  }

  lemma StackAreaEmpty(w: World, w': World, sh: Sharing, r: nat, im: ElfLoad.Image)
    requires r in w'.trees && ImageOk(im) && AllLoaded(w, w', sh, r, im)
    ensures NoStack(w', r)
  {
    forall v: nat | TOP_PAGE - USER_STACK_MAX_PAGES <= v < TOP_PAGE ensures Leaf(w'.mem, w'.trees[r], v) == None {
      NoImageAbove(w, w', sh, r, im, v);
    }
  }

  lemma SharedAreaEmpty(w: World, w1: World, w2: World, sh: Sharing, r: nat, im: ElfLoad.Image, n: nat, top: seq<byte>)
    requires r in w1.trees && r in w2.trees && ImageOk(im) && AllLoaded(w, w1, sh, r, im) && SharingOk(sh)
    requires n <= USER_STACK_MAX_PAGES && StackAt(w1, w2, sh, r, n, top)
    ensures NoSharedYet(w2, sh, r)
  {
    forall u: nat | InWindow(sh, u) || u == TRAMP_PAGE ensures Leaf(w2.mem, w2.trees[r], u) == None {
      NoImageAbove(w, w1, sh, r, im, u);
      assert Leaf(w2.mem, w2.trees[r], u) == Leaf(w1.mem, w1.trees[r], u);
    }
  }

  // A page keeps its frame's contents while the tree grows elsewhere.
  lemma ContentStays(w: World, w': World, sh: Sharing, total: nat, r: nat, u: nat)
    requires WorldOk(w, sh, total) && r in w.trees && r in w'.trees && Grown(w, w', sh, r)
    requires Leaf(w.mem, w.trees[r], u).Some?
    ensures var f := Leaf(w.mem, w.trees[r], u).value.frame;
      f in w.mem && f in w'.mem && w'.mem[f] == w.mem[f]
  {
    LeafFrame(w, sh, total, r, u);
  }

  lemma FilePageStays(w: World, w1: World, w3: World, sh: Sharing, total: nat, r: nat, im: ElfLoad.Image, u: nat)
    requires WorldOk(w1, sh, total) && r in w1.trees && r in w3.trees && Grown(w1, w3, sh, r)
    requires Leaf(w3.mem, w3.trees[r], u) == Leaf(w1.mem, w1.trees[r], u)
    requires PageIs(w, w1, sh, im, |im.segs|, u, Leaf(w1.mem, w1.trees[r], u))
    ensures PageIs(w, w3, sh, im, |im.segs|, u, Leaf(w3.mem, w3.trees[r], u))
  {
    if Leaf(w1.mem, w1.trees[r], u).Some? {
      ContentStays(w1, w3, sh, total, r, u);
    }
  }

  lemma StackPageStays(w: World, w1: World, w2: World, w3: World, sh: Sharing, total: nat, r: nat, u: nat, x: Frame)
    requires r in w1.trees && r in w2.trees && r in w3.trees && WorldOk(w2, sh, total)
    requires (forall f :: f in w.owner ==> f in w1.owner) && Grown(w2, w3, sh, r)
    requires StackPage(w1, w2, sh, Leaf(w2.mem, w2.trees[r], u), x)
    requires Leaf(w3.mem, w3.trees[r], u) == Leaf(w2.mem, w2.trees[r], u)
    ensures StackPage(w, w3, sh, Leaf(w3.mem, w3.trees[r], u), x)
  {
    ContentStays(w2, w3, sh, total, r, u);
  }

  lemma ImagePageDone(w: World, w1: World, w2: World, w3: World, sh: Sharing, total: nat, r: nat, im: ElfLoad.Image,
                      n: nat, top: seq<byte>, u: nat)
    requires r in w1.trees && r in w2.trees && r in w3.trees && WorldOk(w1, sh, total) && WorldOk(w2, sh, total)
    requires (forall f :: f in w.owner ==> f in w1.owner) && n <= USER_STACK_MAX_PAGES && SharingOk(sh)
    requires Grown(w2, w3, sh, r) && Grown(w1, w3, sh, r)
    requires AllLoaded(w, w1, sh, r, im) && StackAt(w1, w2, sh, r, n, top)
    requires SharedMapped(w2, w3, sh, r, FB_PAGE + PageUp(sh.fbSize), true)
    ensures ImagePage(w, w3, sh, im, n, top, u, Leaf(w3.mem, w3.trees[r], u))
  {
    assert Leaf(w3.mem, w3.trees[r], u) ==
      if InWindow(sh, u) then Some(WindowEntry(sh, u))
      else if u == TRAMP_PAGE then Some(Entry(sh.sigtramp, USER_READ, false))
      else Leaf(w2.mem, w2.trees[r], u);
    if TOP_PAGE - n <= u < TOP_PAGE {
      StackPageStays(w, w1, w2, w3, sh, total, r, u, if u == TOP_PAGE - 1 then Bytes(top) else ZeroPage());
    } else if !InWindow(sh, u) && u != TRAMP_PAGE {
      assert Leaf(w2.mem, w2.trees[r], u) == Leaf(w1.mem, w1.trees[r], u);
      assert PageIs(w, w1, sh, im, |im.segs|, u, Leaf(w1.mem, w1.trees[r], u));
      FilePageStays(w, w1, w3, sh, total, r, im, u);
    }
  }

  lemma ImageDone(w: World, w1: World, w2: World, w3: World, sh: Sharing, total: nat, r: nat, im: ElfLoad.Image,
                  n: nat, top: seq<byte>)
    requires r in w1.trees && r in w2.trees && r in w3.trees && WorldOk(w1, sh, total) && WorldOk(w2, sh, total)
    requires (forall f :: f in w.owner ==> f in w1.owner) && n <= USER_STACK_MAX_PAGES && SharingOk(sh)
    requires Grown(w1, w2, sh, r) && Grown(w2, w3, sh, r)
    requires AllLoaded(w, w1, sh, r, im) && StackAt(w1, w2, sh, r, n, top)
    requires SharedMapped(w2, w3, sh, r, FB_PAGE + PageUp(sh.fbSize), true)
    ensures ImageAt(w, w3, sh, r, im, n, top)
  {
    GrownTrans(w1, w2, w3, sh, r);
    forall u: nat ensures ImagePage(w, w3, sh, im, n, top, u, Leaf(w3.mem, w3.trees[r], u)) {
      ImagePageDone(w, w1, w2, w3, sh, total, r, im, n, top, u);
    }
  }

  // ---------------------------------------------------------------- image_build

  datatype Program = Program(root: nat, mm: Mm, entry: nat, rsp: nat, argc: nat)

  function LoadedImage(data: seq<byte>, nxOn: bool): ElfLoad.Image {
    ElfLoad.Image(data, Elf.Segments(data), nxOn)
  }

  // The tree of r holds the program of the file, with its arguments on the stack.
  ghost predicate Ready(w: World, w': World, sh: Sharing, r: nat, im: ElfLoad.Image, argv: seq<Arg>, n: nat,
                        mm: Mm, rsp: nat, top: seq<byte>)
    requires n <= USER_STACK_MAX_PAGES
  {
    && r in w'.trees && ImageAt(w, w', sh, r, im, n, top)
    && rsp >= USER_STACK_TOP - 4096 && ArgsAt(top, rsp - (USER_STACK_TOP - 4096), argv)
    && MmLoaded(StackMm(EMPTY_MM), mm, im.segs)
  }

  // A new address space, on frames that were free, holding the program and its arguments.
  ghost predicate Built(w: World, w': World, sh: Sharing, im: ElfLoad.Image, argv: seq<Arg>, n: nat, p: Program,
                        top: seq<byte>)
    requires n <= USER_STACK_MAX_PAGES
  {
    && NewTree(w, w', p.root)
    && Ready(w, w', sh, p.root, im, argv, n, p.mm, p.rsp, top)
    && p.argc == |argv|
  }

  // The most frames that filling the image can take.
  function FramesToFill(sh: Sharing, segs: seq<Elf.Segment>, pages: int): nat {
    4 * Elf.PageCount(segs) + 4 * StackPages(pages) + 3 * (PageUp(sh.fbSize) + 1)
  }

  // File and stack are in place, in this order.
  ghost predicate Stacked(w0: World, w1: World, w2: World, sh: Sharing, total: nat, r: nat, im: ElfLoad.Image,
                          argv: seq<Arg>, n: nat, mm: Mm, rsp: nat, top: seq<byte>)
    requires n <= USER_STACK_MAX_PAGES
  {
    && r in w0.trees && r in w1.trees && r in w2.trees && WorldOk(w1, sh, total)
    && Grown(w0, w1, sh, r) && Grown(w1, w2, sh, r)
    && AllLoaded(w0, w1, sh, r, im) && StackAt(w1, w2, sh, r, n, top)
    && rsp >= USER_STACK_TOP - 4096 && ArgsAt(top, rsp - (USER_STACK_TOP - 4096), argv)
    && MmLoaded(StackMm(EMPTY_MM), mm, im.segs)
  }

  // Why building an image may fail half-way.
  ghost predicate FillFails(w: World, total: nat, rc: int, argv: seq<Arg>, scratch: bool, frames: nat) {
    || (rc == -E2BIG && !ArgsFit(argv))
    || (rc == -UserStack.ENOMEM && (!scratch || Scarce(w, total, frames)))
  }

  method LoadAndStack(m: Machine, r: nat, im: ElfLoad.Image, argv: seq<Arg>, pages: int, scratch: bool)
    returns (rc: int, mm: Mm, rsp: nat, ghost top: seq<byte>, ghost w1: World)
    requires m.Valid() && r in m.trees && ImageOk(im) && MapsNothing(m.Now(), r)
    modifies m.Repr()
    ensures m.Valid() && r in m.trees && Grown(old(m.Now()), m.Now(), m.sh, r)
    ensures |m.owner| <= |old(m.owner)| + 4 * Elf.PageCount(im.segs) + 4 * StackPages(pages)
            || FillFails(old(m.Now()), m.pmm.totalFrames, rc, argv, scratch, 4 * Elf.PageCount(im.segs))
    ensures rc != 0 ==>
      FillFails(old(m.Now()), m.pmm.totalFrames, rc, argv, scratch, 4 * Elf.PageCount(im.segs) + 4 * StackPages(pages))
    ensures rc == 0 ==>
      Stacked(old(m.Now()), w1, m.Now(), m.sh, m.pmm.totalFrames, r, im, argv, StackPages(pages), mm, rsp, top)
  {
    ghost var w0 := m.Now();
    rsp, top := 0, [];
    var ok;
    ok, mm := Load(m, r, EMPTY_MM, im);
    w1 := m.Now();
    if !ok {
      return -UserStack.ENOMEM, mm, rsp, top, w1;
    }
    StackAreaEmpty(w0, w1, m.sh, r, im);
    rc, rsp, mm, top := SetupUserStack(m, r, mm, argv, pages, scratch);
    GrownTrans(w0, w1, m.Now(), m.sh, r);
  }

  // All parts of the image, each on top of the one before.
  method FillImage(m: Machine, r: nat, im: ElfLoad.Image, argv: seq<Arg>, pages: int, scratch: bool)
    returns (rc: int, mm: Mm, rsp: nat, ghost top: seq<byte>)
    requires m.Valid() && r in m.trees && ImageOk(im) && MapsNothing(m.Now(), r) && SharingOk(m.sh)
    modifies m.Repr()
    ensures m.Valid() && r in m.trees && Grown(old(m.Now()), m.Now(), m.sh, r)
    ensures rc != 0 ==>
      FillFails(old(m.Now()), m.pmm.totalFrames, rc, argv, scratch, FramesToFill(m.sh, im.segs, pages))
    ensures rc == 0 ==> Ready(old(m.Now()), m.Now(), m.sh, r, im, argv, StackPages(pages), mm, rsp, top)
  {
    ghost var w0 := m.Now();
    ghost var w1;
    rc, mm, rsp, top, w1 := LoadAndStack(m, r, im, argv, pages, scratch);
    if rc != 0 {
      return;
    }
    ghost var w2 := m.Now();
    SharedAreaEmpty(w0, w1, w2, m.sh, r, im, StackPages(pages), top);
    var ok := MapSharedRegions(m, r);
    GrownTrans(w0, w2, m.Now(), m.sh, r);
    if !ok {
      return -UserStack.ENOMEM, mm, rsp, top;
    }
    ImageDone(w0, w1, w2, m.Now(), m.sh, m.pmm.totalFrames, r, im, StackPages(pages), top);
  }

  // An image that is ready stays so with fewer frames counted as new.
  lemma ReadySince(w: World, w0: World, w': World, sh: Sharing, r: nat, im: ElfLoad.Image, argv: seq<Arg>, n: nat,
                   mm: Mm, rsp: nat, top: seq<byte>)
    requires n <= USER_STACK_MAX_PAGES && (forall f :: f in w.owner ==> f in w0.owner)
    requires Ready(w0, w', sh, r, im, argv, n, mm, rsp, top)
    ensures Ready(w, w', sh, r, im, argv, n, mm, rsp, top)
  {
    forall u: nat ensures ImagePage(w, w', sh, im, n, top, u, Leaf(w'.mem, w'.trees[r], u)) {
      assert ImagePage(w0, w', sh, im, n, top, u, Leaf(w'.mem, w'.trees[r], u));
    }
  }

  /** Builds the address space for a file and its arguments.  On failure all books are as they were; it fails
      only for a file that is not acceptable, arguments that do not fit, or lack of memory. */
  method ImageBuild(m: Machine, data: seq<byte>, argv: seq<Arg>, pages: int, nxOn: bool, scratch: bool)
    returns (rc: int, p: Program, ghost top: seq<byte>)
    requires m.Valid() && SharingOk(m.sh)
    modifies m.Repr()
    ensures m.Valid()
    ensures rc == -Elf.ENOEXEC <==> !Elf.ElfOk(data)
    ensures rc == 0 || rc == -Elf.ENOEXEC ||
      FillFails(old(m.Now()), m.pmm.totalFrames, rc, argv, scratch, 1 + FramesToFill(m.sh, Elf.Segments(data), pages))
    ensures rc != 0 ==> m.owner == old(m.owner) && m.trees == old(m.trees) && Preserved(old(m.Now()), m.Now())
    ensures rc == 0 ==> Built(old(m.Now()), m.Now(), m.sh, LoadedImage(data, nxOn), argv, StackPages(pages), p, top)
    ensures rc == 0 ==> p.entry == Elf.Entry(data)
  {
    ghost var w := m.Now();
    p, top := Program(0, EMPTY_MM, 0, 0, 0), [];
    rc := Elf.Validate(data);
    if rc != 0 {
      return;
    }
    var root := m.Init();
    if root == 0 {
      m.FullIsScarce();
      return -UserStack.ENOMEM, p, top;
    }
    rc, p, top := BuildIn(m, w, root, LoadedImage(data, nxOn), Elf.Entry(data), argv, pages, scratch);
  }

  method BuildIn(m: Machine, ghost w: World, root: nat, im: ElfLoad.Image, entry: nat, argv: seq<Arg>, pages: int,
                 scratch: bool)
    returns (rc: int, p: Program, ghost top: seq<byte>)
    requires m.Valid() && SharingOk(m.sh) && ImageOk(im) && WorldOk(w, m.sh, m.pmm.totalFrames) && m.NewRoot(w, root)
    modifies m.Repr()
    ensures m.Valid()
    ensures rc != 0 ==> FillFails(w, m.pmm.totalFrames, rc, argv, scratch, 1 + FramesToFill(m.sh, im.segs, pages))
    ensures rc != 0 ==> m.owner == w.owner && m.trees == w.trees && Preserved(w, m.Now())
    ensures rc == 0 ==> Built(w, m.Now(), m.sh, im, argv, StackPages(pages), p, top) && p.entry == entry
  {
    ghost var w0 := m.Now();
    RootNotShared(w0, m.sh, m.pmm.totalFrames, root);
    var mm, rsp;
    rc, mm, rsp, top := FillImage(m, root, im, argv, pages, scratch);
    p := Program(root, mm, entry, rsp, |argv|);
    BuiltSince(w, w0, m.Now(), m.sh, m.pmm.totalFrames, rc, p, im, argv, pages, scratch, top);
    if rc != 0 {
      Discard(m, w, root);
    }
  }

  // What filling a fresh tree comes to, seen from before there was one.
  lemma BuiltSince(w: World, w0: World, w1: World, sh: Sharing, total: nat, rc: int, p: Program, im: ElfLoad.Image,
                   argv: seq<Arg>, pages: int, scratch: bool, top: seq<byte>)
    requires WorldOk(w, sh, total) && p.root !in w.owner && p.root !in w.trees && !IsShared(sh, p.root)
    requires p.root in w0.mem && w0 == RootWorld(w, p.root, w0.mem[p.root]) && p.argc == |argv|
    requires forall v: nat :: Leaf(w0.mem, w0.trees[p.root], v) == None
    requires Grown(w0, w1, sh, p.root)
    requires rc != 0 ==> FillFails(w0, total, rc, argv, scratch, FramesToFill(sh, im.segs, pages))
    requires rc == 0 ==> Ready(w0, w1, sh, p.root, im, argv, StackPages(pages), p.mm, p.rsp, top)
    ensures NewTree(w, w1, p.root)
    ensures rc != 0 ==> FillFails(w, total, rc, argv, scratch, 1 + FramesToFill(sh, im.segs, pages))
    ensures rc == 0 ==> Built(w, w1, sh, im, argv, StackPages(pages), p, top)
  {
    NewRootGrown(w, w0, w1, sh, total, p.root);
    if rc != 0 {
      FailsBefore(w, w0, p.root, w0.mem[p.root], total, rc, argv, scratch, FramesToFill(sh, im.segs, pages));
    } else {
      ReadySince(w, w0, w1, sh, p.root, im, argv, StackPages(pages), p.mm, p.rsp, top);
    }
  }

  // One frame more was free before the root was allocated.
  lemma FailsBefore(w: World, w0: World, root: nat, x: Frame, total: nat, rc: int, argv: seq<Arg>, scratch: bool,
                    frames: nat)
    requires root !in w.owner && w0 == RootWorld(w, root, x) && FillFails(w0, total, rc, argv, scratch, frames)
    ensures FillFails(w, total, rc, argv, scratch, 1 + frames)
  {
  }

  // Gives up a tree that was built since w.
  method Discard(m: Machine, ghost w: World, root: nat)
    requires m.Valid() && WorldOk(w, m.sh, m.pmm.totalFrames) && NewTree(w, m.Now(), root)
    modifies m.Repr()
    ensures m.Valid() && m.owner == w.owner && m.trees == w.trees && Preserved(w, m.Now())
  {
    ghost var w2 := m.Now();
    Teardown.Free(m, root);
    NewTreeUndone(w, w2, m.Now(), m.sh, m.pmm.totalFrames, root);
  }

  lemma RootNotShared(w: World, sh: Sharing, total: nat, root: nat)
    requires WorldOk(w, sh, total) && root in w.trees
    ensures !IsShared(sh, root)
  {
    assert TreeAt(w, sh, root);
    assert NodeOk(w.mem, w.trees[root], sh, ROOT);
  }
}
