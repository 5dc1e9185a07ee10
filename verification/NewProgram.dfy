/** What a program finds when it starts: its file in memory, its arguments at the stack pointer, an empty heap. */
module NewProgram {
  import opened PageEntry
  import opened PageTree
  import opened World
  import opened Growth
  import opened Layout
  import opened Words
  import opened UserStack
  import opened UserCopy
  import opened Image
  import ElfLoad
  import Elf
  import Sbrk

  // Page u of a built image, unpacked.
  lemma PageOfImage(w: World, w': World, sh: Sharing, r: nat, im: ElfLoad.Image, n: nat, top: seq<byte>, u: nat)
    requires n <= USER_STACK_MAX_PAGES && r in w'.trees && ImageAt(w, w', sh, r, im, n, top)
    ensures ImagePage(w, w', sh, im, n, top, u, Leaf(w'.mem, w'.trees[r], u))
    ensures u < TRAMP_PAGE ==> ElfLoad.PageIs(w, w', sh, im, |im.segs|, u, Leaf(w'.mem, w'.trees[r], u))
  {
  }

  // ---------------------------------------------------------------- the file

  /** Every byte of the program's pages is the file byte that the headers put there, or zero. */
  lemma ImageInMemory(w: World, w': World, sh: Sharing, r: nat, im: ElfLoad.Image, n: nat, top: seq<byte>, x: nat)
    requires n <= USER_STACK_MAX_PAGES && r in w'.trees && ImageAt(w, w', sh, r, im, n, top)
    requires x < USER_IMAGE_LIMIT && Elf.PageRights(im.segs, x / 4096, im.nxOn).Some?
    ensures Open(w'.mem, w'.trees[r], x, false)
    ensures Open(w'.mem, w'.trees[r], x, true) <==> Elf.PageRights(im.segs, x / 4096, im.nxOn).value.write
    ensures ReadByte(w'.mem, w'.trees[r], x) == Elf.ImageByte(im.data, im.segs, x)
  {
    var u := x / 4096;
    PageOfImage(w, w', sh, r, im, n, top, u);
    assert im.segs[..|im.segs|] == im.segs;
    var f := w'.mem[Leaf(w'.mem, w'.trees[r], u).value.frame];
    assert f.data[x % 4096] == Elf.ImageByte(im.data, im.segs[..|im.segs|], 4096 * u + x % 4096);
  }

  /** If a file part covers address x, the program finds there the byte of the file that lies as far behind p_offset as
      x behind p_vaddr; where file parts overlap, that of the last one. */
  lemma FileByteInMemory(w: World, w': World, sh: Sharing, r: nat, im: ElfLoad.Image, n: nat, top: seq<byte>, i: nat,
                         x: nat)
    requires n <= USER_STACK_MAX_PAGES && r in w'.trees && ImageAt(w, w', sh, r, im, n, top) && ElfLoad.ImageOk(im)
    requires i < |im.segs| && im.segs[i].kind == 1 && im.segs[i].memsz > 0
    requires im.segs[i].vaddr <= x < im.segs[i].vaddr + im.segs[i].filesz
    requires forall j :: i < j < |im.segs| && im.segs[j].kind == 1 && im.segs[j].memsz > 0 ==>
               !(im.segs[j].vaddr <= x < im.segs[j].vaddr + im.segs[j].filesz)
    ensures Open(w'.mem, w'.trees[r], x, false) && im.segs[i].offset + (x - im.segs[i].vaddr) < |im.data|
    ensures ReadByte(w'.mem, w'.trees[r], x) == im.data[im.segs[i].offset + (x - im.segs[i].vaddr)]
  {
    assert Elf.SegmentOk(im.segs[i], |im.data|) && Elf.Touches(im.segs[i], x / 4096);
    Elf.RightsOfPage(im.segs, x / 4096, im.nxOn);
    ImageInMemory(w, w', sh, r, im, n, top, x);
    Elf.CoveredByte(im.data, im.segs, i, x);
  }

  /** Everything else on the program's pages is zero. */
  lemma OtherBytesAreZero(w: World, w': World, sh: Sharing, r: nat, im: ElfLoad.Image, n: nat, top: seq<byte>, x: nat)
    requires n <= USER_STACK_MAX_PAGES && r in w'.trees && ImageAt(w, w', sh, r, im, n, top)
    requires x < USER_IMAGE_LIMIT && Leaf(w'.mem, w'.trees[r], x / 4096).Some?
    requires forall j :: 0 <= j < |im.segs| && im.segs[j].kind == 1 && im.segs[j].memsz > 0 ==>
               !(im.segs[j].vaddr <= x < im.segs[j].vaddr + im.segs[j].filesz)
    ensures ReadByte(w'.mem, w'.trees[r], x) == 0
  {
    PageOfImage(w, w', sh, r, im, n, top, x / 4096);
    assert im.segs[..|im.segs|] == im.segs;
    ImageInMemory(w, w', sh, r, im, n, top, x);
    Elf.UncoveredByte(im.data, im.segs, x);
  }

  /** Below the trampoline exactly those pages are mapped on which a segment lies, all for user code: writable if a
      segment with PF_W lies there, and not executable if the processor can forbid it and nothing but one segment
      without PF_X does. */
  lemma RightsInMemory(w: World, w': World, sh: Sharing, r: nat, im: ElfLoad.Image, n: nat, top: seq<byte>, u: nat)
    requires n <= USER_STACK_MAX_PAGES && r in w'.trees && ImageAt(w, w', sh, r, im, n, top) && u < TRAMP_PAGE
    ensures var leaf := Leaf(w'.mem, w'.trees[r], u);
      && (leaf.Some? <==> Elf.SomeTouches(im.segs, u))
      && (leaf.Some? ==>
            && leaf.value.low.user && (leaf.value.low.write <==> Elf.SomeWrites(im.segs, u))
            && (leaf.value.nx <==> im.nxOn && Elf.OnlyData(im.segs, u)))
  {
    PageOfImage(w, w', sh, r, im, n, top, u);
    assert im.segs[..|im.segs|] == im.segs;
    Elf.RightsOfPage(im.segs, u, im.nxOn);
  }

  /** The bounds that a new program begins with: its heap is empty and starts on the first page boundary behind the
      segments, and its stack may grow down to one megabyte below its top. */
  lemma FirstBounds(w: World, w': World, sh: Sharing, r: nat, im: ElfLoad.Image, argv: seq<Arg>, n: nat, mm: Mm,
                    rsp: nat,
                    top: seq<byte>)
    requires n <= USER_STACK_MAX_PAGES && Ready(w, w', sh, r, im, argv, n, mm, rsp, top)
    ensures mm.brk == mm.brkStart && mm.brkStart % 4096 == 0
    ensures forall i :: 0 <= i < |im.segs| && im.segs[i].kind == 1 && im.segs[i].memsz > 0 ==>
              im.segs[i].vaddr + im.segs[i].memsz <= mm.brkStart
    ensures mm.brkStart > 0 ==>
              exists i :: 0 <= i < |im.segs| && im.segs[i].kind == 1 && im.segs[i].memsz > 0
                && mm.brkStart < im.segs[i].vaddr + im.segs[i].memsz + 4096
    ensures mm.stackStart == 0x7FFF_FFFF_F000 && mm.stackLimit == mm.stackStart - 0x10_0000
  {
    Elf.HeapBehindSegments(im.segs);
  }

  // From `start` to `end` lie all loaded segments that have PF_X, or all that have not, and no range is smaller; it is
  // empty at 0 if there are none.
  ghost predicate Spans(segs: seq<Elf.Segment>, exec: bool, start: nat, end: nat) {
    && (forall i :: 0 <= i < |segs| && segs[i].kind == 1 && segs[i].memsz > 0 && (segs[i].flags % 2 == 1) == exec ==>
          start <= segs[i].vaddr && segs[i].vaddr + segs[i].memsz <= end)
    && (start > 0 ==>
          exists i :: 0 <= i < |segs| && segs[i].kind == 1 && segs[i].memsz > 0 && (segs[i].flags % 2 == 1) == exec
            && segs[i].vaddr == start)
    && (end > 0 ==>
          exists i :: 0 <= i < |segs| && segs[i].kind == 1 && segs[i].memsz > 0 && (segs[i].flags % 2 == 1) == exec
            && segs[i].vaddr + segs[i].memsz == end)
  }

  /** What is recorded as its code and as its data. */
  lemma FirstRanges(w: World, w': World, sh: Sharing, r: nat, im: ElfLoad.Image, argv: seq<Arg>, n: nat, mm: Mm,
                    rsp: nat,
                    top: seq<byte>)
    requires n <= USER_STACK_MAX_PAGES && Ready(w, w', sh, r, im, argv, n, mm, rsp, top)
    ensures Spans(im.segs, true, mm.codeStart, mm.codeEnd) && Spans(im.segs, false, mm.dataStart, mm.dataEnd)
  {
    Elf.StartsAbove(im.segs, true);
    Elf.StartsAbove(im.segs, false);
    Elf.EndsBelow(im.segs, true);
    Elf.EndsBelow(im.segs, false);
  }

  /** The entry point lies on a page that user code may execute. */
  lemma EntryIsMapped(w: World, w': World, sh: Sharing, r: nat, im: ElfLoad.Image, n: nat, top: seq<byte>)
    requires n <= USER_STACK_MAX_PAGES && r in w'.trees && ImageAt(w, w', sh, r, im, n, top)
    requires Elf.ElfOk(im.data) && im.segs == Elf.Segments(im.data)
    ensures var leaf := Leaf(w'.mem, w'.trees[r], Elf.Entry(im.data) / 4096);
      leaf.Some? && leaf.value.low.user && !leaf.value.nx
  {
    var entry := Elf.Entry(im.data);
    Elf.EntryExecutable(im.segs, entry, im.nxOn);
    PageOfImage(w, w', sh, r, im, n, top, entry / 4096);
    assert im.segs[..|im.segs|] == im.segs;
  }

  /** Beside its file and its stack a new program sees the framebuffer, which it may write, and the signal trampoline,
      which it may read and execute. */
  lemma SharedRegions(w: World, w': World, sh: Sharing, r: nat, im: ElfLoad.Image, n: nat, top: seq<byte>, u: nat)
    requires n <= USER_STACK_MAX_PAGES && r in w'.trees && ImageAt(w, w', sh, r, im, n, top) && SharingOk(sh)
    requires TRAMP_PAGE <= u < TOP_PAGE - n
    ensures var leaf := Leaf(w'.mem, w'.trees[r], u);
      && (u == 0x7FFE_0000_0000 / 4096 ==> leaf == Some(Entry(sh.sigtramp, USER_READ, false)))
      && (0x7FFF_0000_0000 <= 4096 * u < 0x7FFF_0000_0000 + sh.fbSize ==>
            leaf.Some? && Address(leaf.value.frame) == 4096 * (sh.fbPhys / 4096) + (4096 * u - 0x7FFF_0000_0000)
            && leaf.value.low == USER_WRITE)
  {
    PageOfImage(w, w', sh, r, im, n, top, u);
  }

  /** Its stack has n pages below USER_STACK_TOP, which it may write and which are zero but for the last. */
  lemma StackIsZero(w: World, w': World, sh: Sharing, r: nat, im: ElfLoad.Image, n: nat, top: seq<byte>, x: nat)
    requires n <= USER_STACK_MAX_PAGES && r in w'.trees && ImageAt(w, w', sh, r, im, n, top) && |top| == 4096
    requires USER_STACK_TOP - 4096 * n <= x < USER_STACK_TOP
    ensures Open(w'.mem, w'.trees[r], x, true)
    ensures x < USER_STACK_TOP - 4096 ==> ReadByte(w'.mem, w'.trees[r], x) == 0
  {
    PageOfImage(w, w', sh, r, im, n, top, x / 4096);
  }

  // ---------------------------------------------------------------- the arguments

  // Byte k of the top page of the stack is that of `top`.
  ghost predicate TopByte(mem: Mem, nodes: Nodes, top: seq<byte>, k: nat)
    requires k < |top|
  {
    Open(mem, nodes, USER_STACK_TOP - 4096 + k, true) && ReadByte(mem, nodes, USER_STACK_TOP - 4096 + k) == top[k]
  }

  ghost predicate TopPageIs(mem: Mem, nodes: Nodes, top: seq<byte>) {
    |top| == 4096 && forall k: nat {:trigger TopByte(mem, nodes, top, k)} :: k < 4096 ==> TopByte(mem, nodes, top, k)
  }

  lemma TopPageOfImage(w: World, w': World, sh: Sharing, r: nat, im: ElfLoad.Image, n: nat, top: seq<byte>)
    requires 0 < n <= USER_STACK_MAX_PAGES && |top| == 4096 && r in w'.trees && ImageAt(w, w', sh, r, im, n, top)
    ensures TopPageIs(w'.mem, w'.trees[r], top)
  {
    PageOfImage(w, w', sh, r, im, n, top, TOP_PAGE - 1);
    forall k: nat | k < 4096 ensures TopByte(w'.mem, w'.trees[r], top, k) {
      assert (USER_STACK_TOP - 4096 + k) / 4096 == TOP_PAGE - 1;
    }
  }

  lemma {:induction false} WordOfTop(mem: Mem, nodes: Nodes, top: seq<byte>, at: nat, n: nat)
    requires TopPageIs(mem, nodes, top) && at + n <= 4096
    ensures ReadWord(mem, nodes, USER_STACK_TOP - 4096 + at, n) == WordValue(top, at, n)
    decreases n
  {
    if n > 0 {
      assert TopByte(mem, nodes, top, at);
      WordOfTop(mem, nodes, top, at + 1, n - 1);
    }
  }

  // A C string has no NUL inside.
  predicate IsText(a: Arg) {
    forall k :: 0 <= k < |Text(a)| ==> Text(a)[k] != 0
  }

  lemma StringOfTop(mem: Mem, nodes: Nodes, top: seq<byte>, at: nat, a: Arg)
    requires TopPageIs(mem, nodes, top) && Holds(top, at, Text(a) + [0]) && IsText(a)
    ensures StringAt(mem, nodes, TopAddress(at), |Text(a)|)
    ensures ReadBytes(mem, nodes, TopAddress(at), |Text(a)|) == Text(a)
  {
    var va := USER_STACK_TOP - 4096 + at;
    var s := Text(a) + [0];
    forall x: nat | va <= x < va + |s| ensures Open(mem, nodes, x, false) && ReadByte(mem, nodes, x) == s[x - va] {
      assert s[x - va] == top[at + (x - va)];
      assert TopByte(mem, nodes, top, at + (x - va));
    }
    assert s[|Text(a)|] == 0;
  }

  // The arguments are laid out in the top page, which is mapped.
  ghost predicate ArgsMapped(mem: Mem, nodes: Nodes, top: seq<byte>, argv: seq<Arg>, rsp: nat) {
    && rsp >= USER_STACK_TOP - 4096 && ArgsAt(top, rsp - (USER_STACK_TOP - 4096), argv)
    && TopPageIs(mem, nodes, top)
  }

  /** At its stack pointer, which is a multiple of 16, the program finds argc (System V AMD64 ABI, section 3.4.1). */
  lemma StackPointerShowsCount(mem: Mem, nodes: Nodes, top: seq<byte>, argv: seq<Arg>, rsp: nat)
    requires ArgsMapped(mem, nodes, top, argv, rsp)
    ensures rsp % 16 == 0 && ReadWord(mem, nodes, rsp, 8) == |argv|
  {
    WordOfTop(mem, nodes, top, rsp - (USER_STACK_TOP - 4096), 8);
  }

  /** The pointers to the arguments, from the next word on, end with NULL. */
  lemma PointersEndWithNull(mem: Mem, nodes: Nodes, top: seq<byte>, argv: seq<Arg>, rsp: nat)
    requires ArgsMapped(mem, nodes, top, argv, rsp)
    ensures ReadWord(mem, nodes, rsp + 8 + 8 * |argv|, 8) == 0
  {
    WordOfTop(mem, nodes, top, rsp - (USER_STACK_TOP - 4096) + 8 + 8 * |argv|, 8);
  }

  lemma PointerToArgument(mem: Mem, nodes: Nodes, top: seq<byte>, argv: seq<Arg>, rsp: nat, i: nat)
    requires ArgsMapped(mem, nodes, top, argv, rsp) && i < |argv|
    ensures StringOffset(argv, i) >= 0
    ensures ReadWord(mem, nodes, rsp + 8 + 8 * i, 8) == TopAddress(StringOffset(argv, i))
  {
    assert StringOffset(argv, i) >= 0;
    WordOfTop(mem, nodes, top, rsp - (USER_STACK_TOP - 4096) + 8 + 8 * i, 8);
  }

  lemma StringIsPlaced(page: seq<byte>, sp: nat, argv: seq<Arg>, i: nat)
    requires ArgsAt(page, sp, argv) && i < |argv|
    ensures StringOffset(argv, i) >= 0 && Holds(page, StringOffset(argv, i), Text(argv[i]) + [0])
  {
    assert StringOffset(argv, i) >= 0;
  }

  lemma StringAtPointer(mem: Mem, nodes: Nodes, top: seq<byte>, argv: seq<Arg>, rsp: nat, i: nat)
    requires ArgsMapped(mem, nodes, top, argv, rsp) && i < |argv| && IsText(argv[i])
    ensures StringOffset(argv, i) >= 0
    ensures StringAt(mem, nodes, TopAddress(StringOffset(argv, i)), |Text(argv[i])|)
    ensures ReadBytes(mem, nodes, TopAddress(StringOffset(argv, i)), |Text(argv[i])|) == Text(argv[i])
  {
    StringIsPlaced(top, rsp - (USER_STACK_TOP - 4096), argv, i);
    StringOfTop(mem, nodes, top, StringOffset(argv, i), argv[i]);
  }

  /** Argument i, read through its pointer, is the string that the caller passed. */
  lemma ArgumentArrives(mem: Mem, nodes: Nodes, top: seq<byte>, argv: seq<Arg>, rsp: nat, i: nat)
    requires ArgsMapped(mem, nodes, top, argv, rsp) && i < |argv| && IsText(argv[i])
    ensures var p := ReadWord(mem, nodes, rsp + 8 + 8 * i, 8);
      && StringAt(mem, nodes, p, |Text(argv[i])|)
      && ReadBytes(mem, nodes, p, |Text(argv[i])|) == Text(argv[i])
  {
    PointerToArgument(mem, nodes, top, argv, rsp, i);
    StringAtPointer(mem, nodes, top, argv, rsp, i);
  }

  // ---------------------------------------------------------------- the heap

  lemma HeapStartBound(segs: seq<Elf.Segment>, size: nat)
    requires Elf.AllOk(segs, size)
    ensures Elf.HighestEnd(segs, true) <= USER_IMAGE_LIMIT && Elf.HighestEnd(segs, false) <= USER_IMAGE_LIMIT
    ensures Elf.HeapStart(segs) <= USER_SIGTRAMP_VIRT
    decreases |segs|
  {
    if |segs| > 0 {
      HeapStartBound(segs[..|segs| - 1], size);
    }
  }

  // From the start of the heap on, the one page that is mapped where the heap may come is the trampoline.
  lemma AboveHeapStart(w: World, w': World, sh: Sharing, r: nat, im: ElfLoad.Image, n: nat, top: seq<byte>, u: nat)
    requires n <= USER_STACK_MAX_PAGES && r in w'.trees && ImageAt(w, w', sh, r, im, n, top) && ElfLoad.ImageOk(im)
    requires Elf.HeapStart(im.segs) / 4096 <= u < (USER_SIGTRAMP_VIRT + USER_HEAP_MAX) / 4096
    ensures Leaf(w'.mem, w'.trees[r], u) == if u == TRAMP_PAGE then Some(Entry(sh.sigtramp, USER_READ, false)) else None
  {
    PageOfImage(w, w', sh, r, im, n, top, u);
    NoFilePage(im, u);
  }

  lemma NoFilePage(im: ElfLoad.Image, u: nat)
    requires ElfLoad.ImageOk(im) && u >= Elf.HeapStart(im.segs) / 4096
    ensures Elf.PageRights(im.segs[..|im.segs|], u, im.nxOn) == None
  {
    assert im.segs[..|im.segs|] == im.segs;
    if Elf.PageRights(im.segs, u, im.nxOn).Some? {
      Elf.ImageBelowHeap(im.segs, |im.data|, u, im.nxOn);
    }
  }

  lemma EmptyHeapOk(w: World, w': World, sh: Sharing, r: nat, im: ElfLoad.Image, n: nat, top: seq<byte>, mm: Mm)
    requires n <= USER_STACK_MAX_PAGES && r in w'.trees && ImageAt(w, w', sh, r, im, n, top) && ElfLoad.ImageOk(im)
    requires mm.brkStart == mm.brk == Elf.HeapStart(im.segs) && SharingOk(sh)
    ensures Sbrk.HeapOk(w', sh, r, mm)
  {
    HeapStartBound(im.segs, |im.data|);
    forall v: nat | PageUp(mm.brk) <= v < Sbrk.HeapEnd(mm) ensures Vacant(w', sh, r, v) {
      AboveHeapStart(w, w', sh, r, im, n, top, v);
    }
  }

  /** A new program's heap can grow to its full size without meeting another page exactly when it ends below the
      trampoline; `Validate` does not see to that. */
  lemma HeapHasRoom(w: World, w': World, sh: Sharing, r: nat, im: ElfLoad.Image, n: nat, top: seq<byte>, mm: Mm)
    requires n <= USER_STACK_MAX_PAGES && r in w'.trees && ImageAt(w, w', sh, r, im, n, top) && ElfLoad.ImageOk(im)
    requires mm.brkStart == mm.brk == Elf.HeapStart(im.segs)
    ensures Sbrk.RoomToGrow(w', r, mm) <==> mm.brkStart + USER_HEAP_MAX <= USER_SIGTRAMP_VIRT
  {
    HeapStartBound(im.segs, |im.data|);
    forall v: nat | PageUp(mm.brk) <= v < Sbrk.HeapEnd(mm)
      ensures Leaf(w'.mem, w'.trees[r], v) == None <==> v != TRAMP_PAGE
    {
      AboveHeapStart(w, w', sh, r, im, n, top, v);
    }
    if mm.brkStart + USER_HEAP_MAX > USER_SIGTRAMP_VIRT {
      AboveHeapStart(w, w', sh, r, im, n, top, TRAMP_PAGE);
    }
  }

  /** Otherwise a request that task_sbrk accepts puts a heap page where the trampoline was. */
  lemma HeapTakesTrampoline(w: World, w': World, w'': World, sh: Sharing, r: nat, im: ElfLoad.Image, n: nat,
                            top: seq<byte>,
                            mm: Mm, increment: int)
    requires n <= USER_STACK_MAX_PAGES && r in w'.trees && r in w''.trees
    requires ImageAt(w, w', sh, r, im, n, top) && ElfLoad.ImageOk(im)
    requires mm.brkStart == mm.brk == Elf.HeapStart(im.segs) && mm.brkStart + USER_HEAP_MAX > USER_SIGTRAMP_VIRT
    requires increment == USER_SIGTRAMP_VIRT + 4096 - mm.brkStart
    requires Sbrk.HeapMoved(w', w'', sh, r, PageUp(mm.brk), PageUp(mm.brk + increment))
    ensures Sbrk.Accepted(mm, increment)
    ensures Leaf(w'.mem, w'.trees[r], TRAMP_PAGE) == Some(Entry(sh.sigtramp, USER_READ, false))
    ensures FreshPage(w', w'', sh, Leaf(w''.mem, w''.trees[r], TRAMP_PAGE))
  {
    HeapStartBound(im.segs, |im.data|);
    AboveHeapStart(w, w', sh, r, im, n, top, TRAMP_PAGE);
  }

  /** When that heap shrinks back to where it began, the trampoline is not mapped any more. */
  lemma TrampolineLost(w: World, w': World, w1: World, w2: World, sh: Sharing, total: nat, r: nat, im: ElfLoad.Image,
                       n: nat, top: seq<byte>, mm: Mm, ret: int, mm1: Mm, ret2: int, mm2: Mm)
    requires n <= USER_STACK_MAX_PAGES && r in w'.trees && ImageAt(w, w', sh, r, im, n, top) && ElfLoad.ImageOk(im)
    requires mm.brkStart == mm.brk == Elf.HeapStart(im.segs) && mm.brkStart + USER_HEAP_MAX > USER_SIGTRAMP_VIRT
    requires SharingOk(sh)
    requires var increment := USER_SIGTRAMP_VIRT + 4096 - mm.brkStart;
      && Sbrk.HeapStep(w', w1, sh, total, r, mm, increment, ret, mm1) && ret != -1
      && Sbrk.HeapStep(w1, w2, sh, total, r, mm1, -increment, ret2, mm2)
    ensures ret2 != -1 && mm2 == mm
    ensures Leaf(w'.mem, w'.trees[r], TRAMP_PAGE) == Some(Entry(sh.sigtramp, USER_READ, false))
    ensures Leaf(w2.mem, w2.trees[r], TRAMP_PAGE) == None
  {
    HeapStartBound(im.segs, |im.data|);
    AboveHeapStart(w, w', sh, r, im, n, top, TRAMP_PAGE);
  }

  // ---------------------------------------------------------------- memory is an array of bytes

  /** No frame appears twice in a new program, so that its memory behaves as an array of bytes. */
  lemma ImageUnaliased(w: World, w': World, sh: Sharing, total: nat, r: nat, im: ElfLoad.Image, n: nat, top: seq<byte>)
    requires n <= USER_STACK_MAX_PAGES && r in w'.trees && ImageAt(w, w', sh, r, im, n, top)
    requires WorldOk(w', sh, total) && SharingOk(sh)
    ensures Unaliased(w'.mem, w'.trees[r])
  {
    forall u: nat, v: nat | Leaf(w'.mem, w'.trees[r], u).Some? && Leaf(w'.mem, w'.trees[r], v).Some? && u != v
      ensures Leaf(w'.mem, w'.trees[r], u).value.frame != Leaf(w'.mem, w'.trees[r], v).value.frame
    {
      TwoPages(w, w', sh, total, r, im, n, top, u, v);
    }
  }

  lemma TwoPages(w: World, w': World, sh: Sharing, total: nat, r: nat, im: ElfLoad.Image, n: nat, top: seq<byte>,
                 u: nat, v: nat)
    requires n <= USER_STACK_MAX_PAGES && r in w'.trees && ImageAt(w, w', sh, r, im, n, top)
    requires WorldOk(w', sh, total) && SharingOk(sh) && u != v
    requires Leaf(w'.mem, w'.trees[r], u).Some? && Leaf(w'.mem, w'.trees[r], v).Some?
    ensures Leaf(w'.mem, w'.trees[r], u).value.frame != Leaf(w'.mem, w'.trees[r], v).value.frame
  {
    PageOfImage(w, w', sh, r, im, n, top, u);
    PageOfImage(w, w', sh, r, im, n, top, v);
    if !IsShared(sh, Leaf(w'.mem, w'.trees[r], u).value.frame) {
      PrivateUnaliased(w', sh, total, r, u, v);
    } else if !IsShared(sh, Leaf(w'.mem, w'.trees[r], v).value.frame) {
      PrivateUnaliased(w', sh, total, r, v, u);
    }
  }
}
