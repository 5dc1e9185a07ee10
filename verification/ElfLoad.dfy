/** Loading the segments of an accepted executable into a fresh address space. */
module ElfLoad {
  import opened PageEntry
  import opened PageTree
  import opened World
  import opened Vmm
  import opened Growth
  import opened Layout
  import Elf

  const ENOMEM: int := 12

  function LowFlags(write: bool): Flags {
    USER_READ.(write := write)
  }

  // What is being loaded: the file, its segments, and whether the processor has NX.
  datatype Image = Image(data: seq<byte>, segs: seq<Elf.Segment>, nxOn: bool)

  predicate ImageOk(im: Image) {
    Elf.AllOk(im.segs, |im.data|)
  }

  // The frame holds the bytes of page u after the first n segments.
  ghost predicate PageBytes(f: Frame, im: Image, n: nat, u: nat)
    requires n <= |im.segs|
  {
    IsPage(f) && forall k: nat {:trigger f.data[k]} :: k < 4096 ==>
      f.data[k] == Elf.ImageByte(im.data, im.segs[..n], 4096 * u + k)
  }

  // Page u is as the first n segments say: on a private frame with the right flags and bytes, or not mapped.
  ghost predicate PageIs(w0: World, w: World, sh: Sharing, im: Image, n: nat, u: nat, leaf: Option<Entry>)
    requires n <= |im.segs|
  {
    match Elf.PageRights(im.segs[..n], u, im.nxOn)
    case None => leaf == None
    case Some(rights) =>
      && leaf.Some? && leaf.value.low == LowFlags(rights.write) && leaf.value.nx == rights.nx
      && !IsShared(sh, leaf.value.frame) && leaf.value.frame !in w0.owner
      && leaf.value.frame in w.mem && PageBytes(w.mem[leaf.value.frame], im, n, u)
  }

  // The first i segments are loaded, and segment i up to page v.
  ghost predicate Loaded(w0: World, w: World, sh: Sharing, r: nat, im: Image, i: nat, v: nat)
    requires r in w.trees && (i < |im.segs| || (i == |im.segs| && v == 0))
  {
    forall u: nat {:trigger Leaf(w.mem, w.trees[r], u)} ::
      PageIs(w0, w, sh, im, if u < v then i + 1 else i, u, Leaf(w.mem, w.trees[r], u))
  }

  // A page of r on another frame than f stays as it is while f is worked on.
  lemma OtherPage(w0: World, w: World, w': World, sh: Sharing, total: nat, r: nat, im: Image, n: nat, u: nat, f: nat)
    requires r in w.trees && r in w'.trees && WorldOk(w, sh, total) && n <= |im.segs|
    requires Leaf(w'.mem, w'.trees[r], u) == Leaf(w.mem, w.trees[r], u)
    requires PageIs(w0, w, sh, im, n, u, Leaf(w.mem, w.trees[r], u))
    requires KeepsBut(w, w', r, f)
    requires Leaf(w.mem, w.trees[r], u).Some? ==> Leaf(w.mem, w.trees[r], u).value.frame != f
    ensures PageIs(w0, w', sh, im, n, u, Leaf(w'.mem, w'.trees[r], u))
  {
    if Leaf(w.mem, w.trees[r], u).Some? {
      LeafFrame(w, sh, total, r, u);
    }
  }

  // Frames in use other than f and the tables of r keep their contents.
  ghost predicate KeepsBut(w: World, w': World, r: nat, f: nat) {
    forall g :: g in w.mem && g in w.owner && !IsTableOf(w, r, g) && g != f ==> g in w'.mem && w'.mem[g] == w.mem[g]
  }

  // ---------------------------------------------------------------- the bytes of one page

  // The part of page v that the file part of s fills.
  function CopyFrom(s: Elf.Segment, v: nat): nat {
    if 4096 * v > s.vaddr then 4096 * v else s.vaddr
  }

  function CopyTo(s: Elf.Segment, v: nat): nat {
    if 4096 * v + 4096 < s.vaddr + s.filesz then 4096 * v + 4096 else s.vaddr + s.filesz
  }

  // `page` with the file bytes of s for page v in it.
  ghost predicate Overlaid(data: seq<byte>, s: Elf.Segment, v: nat, page: seq<byte>, page': seq<byte>)
    requires |page| == 4096 && Elf.SegmentOk(s, |data|)
  {
    && |page'| == 4096
    && forall k: nat {:trigger page'[k]} :: k < 4096 ==>
         page'[k] == if Elf.InFilePart(s, 4096 * v + k) then data[s.offset + (4096 * v + k - s.vaddr)] else page[k]
  }

  /** The page with the bytes of segment s copied in; all of them are read inside the file. */
  method FillPage(data: seq<byte>, s: Elf.Segment, v: nat, page: seq<byte>) returns (page': seq<byte>)
    requires |page| == 4096 && Elf.SegmentOk(s, |data|) && Elf.CoversPage(s, v)
    ensures Overlaid(data, s, v, page, page')
  {
    var lo, hi := CopyFrom(s, v), CopyTo(s, v);
    page' := page;
    if lo < hi {
      var at := lo - 4096 * v;
      var from := s.offset + (lo - s.vaddr);
      page' := page[..at] + data[from..from + (hi - lo)] + page[at + (hi - lo)..];
    }
  }

  lemma PageFilled(im: Image, i: nat, v: nat, page: seq<byte>, page': seq<byte>)
    requires i < |im.segs| && |page| == 4096 && Elf.SegmentOk(im.segs[i], |im.data|)
    requires Overlaid(im.data, im.segs[i], v, page, page')
    requires PageBytes(Bytes(page), im, i, v)
    ensures PageBytes(Bytes(page'), im, i + 1, v)
  {
    assert im.segs[..i + 1][..i] == im.segs[..i];
    forall k: nat | k < 4096 ensures page'[k] == Elf.ImageByte(im.data, im.segs[..i + 1], 4096 * v + k) {
      assert Bytes(page).data[k] == Elf.ImageByte(im.data, im.segs[..i], 4096 * v + k);
    }
  }

  // A fresh page has the bytes of a page that no segment lies on.
  lemma ZeroPageBytes(im: Image, n: nat, v: nat)
    requires ImageOk(im) && n <= |im.segs| && Elf.PageRights(im.segs[..n], v, im.nxOn).None?
    ensures PageBytes(ZeroPage(), im, n, v)
  {
    var zero := ZeroPage();
    forall k: nat | k < 4096 ensures zero.data[k] == Elf.ImageByte(im.data, im.segs[..n], 4096 * v + k) {
      Elf.UnmappedIsZero(im.data, im.segs[..n], v, im.nxOn, 4096 * v + k);
    }
  }

  // A page that segment n does not lie on is as it should be after it, too.
  lemma NotOnPage(w0: World, w: World, sh: Sharing, im: Image, n: nat, u: nat, leaf: Option<Entry>)
    requires n < |im.segs| && !Elf.CoversPage(im.segs[n], u) && ImageOk(im)
    requires PageIs(w0, w, sh, im, n, u, leaf)
    ensures PageIs(w0, w, sh, im, n + 1, u, leaf)
  {
    assert im.segs[..n + 1][..n] == im.segs[..n];
    if leaf.Some? {
      var page := w.mem[leaf.value.frame];
      forall k: nat | k < 4096 ensures page.data[k] == Elf.ImageByte(im.data, im.segs[..n + 1], 4096 * u + k) {
        assert page.data[k] == Elf.ImageByte(im.data, im.segs[..n], 4096 * u + k);
        NotInFilePart(im, n, u, 4096 * u + k);
      }
    }
  }

  lemma NotInFilePart(im: Image, n: nat, u: nat, x: nat)
    requires n < |im.segs| && ImageOk(im) && !Elf.CoversPage(im.segs[n], u) && x / 4096 == u
    ensures !Elf.InFilePart(im.segs[n], x)
  {
    var s := im.segs[n];
    if Elf.Loads(s) {
      assert Elf.SegmentOk(s, |im.data|);
    }
  }

  // ---------------------------------------------------------------- one page

  lemma RemapIsGrown(w: World, w': World, sh: Sharing, total: nat, r: nat, v: nat, e: Entry)
    requires WorldOk(w, sh, total) && r in w.trees && r in w'.trees && Mapped(w, w', sh, r, v, e)
    requires Leaf(w.mem, w.trees[r], v).Some? && Leaf(w.mem, w.trees[r], v).value.frame == e.frame
    requires !IsShared(sh, e.frame)
    ensures Grown(w, w', sh, r)
    ensures e.frame in w.mem && e.frame in w'.mem && w'.mem[e.frame] == w.mem[e.frame]
  {
    LeafFrame(w, sh, total, r, v);
    forall f | f in w.owner ensures w'.owner[f] == w.owner[f] {
      assert w'.owner[f] == OwnerOnceMapped(w, sh, r, v, e, f);
      if w.owner[f] == InTree(r, Node(0, v)) {
        assert Placed(w, f) && Placed(w, e.frame);
      }
    }
  }

  // Page v of r has entry e, on a private frame that holds x; no other page moved.
  ghost predicate PageSetTo(w: World, w': World, sh: Sharing, r: nat, v: nat, e: Entry)
    requires r in w.trees && r in w'.trees
  {
    && Grown(w, w', sh, r)
    && (forall u: nat :: u != v ==> Leaf(w'.mem, w'.trees[r], u) == Leaf(w.mem, w.trees[r], u))
    && Leaf(w'.mem, w'.trees[r], v) == Some(e) && !IsShared(sh, e.frame)
    && e.frame in w'.mem
  }

  /** Maps a page that is mapped already once more, with the rights of both: writable if one of them is. */
  method Remap(m: Machine, r: nat, v: nat, frame: nat, write: bool) returns (ok: bool)
    requires m.Valid() && r in m.trees && v < USER_PAGES
    requires Leaf(m.mem, m.trees[r], v).Some? && Leaf(m.mem, m.trees[r], v).value.frame == frame
    requires !IsShared(m.sh, frame)
    modifies m.Repr()
    ensures m.Valid() && r in m.trees && Grown(old(m.Now()), m.Now(), m.sh, r)
    ensures ok ==> PageSetTo(old(m.Now()), m.Now(), m.sh, r, v, Entry(frame, LowFlags(write), false))
    ensures ok ==> frame in old(m.mem) && m.mem[frame] == old(m.mem[frame])
    ensures |m.owner| <= |old(m.owner)| + 4 && (!ok ==> Scarce(old(m.Now()), m.pmm.totalFrames, 4))
  {
    ghost var w := m.Now();
    LeafFrame(w, m.sh, m.pmm.totalFrames, r, v);
    var rc := m.MapPage(r, v, frame, LowFlags(write), false);
    ok := rc == 0;
    if ok {
      RemapIsGrown(w, m.Now(), m.sh, m.pmm.totalFrames, r, v, Entry(frame, LowFlags(write), false));
    } else {
      GrewIsGrown(w, m.Now(), m.sh, r);
      m.FullIsScarce();
    }
  }

  function EntryWith(frame: nat, rights: Elf.Rights): Entry {
    Entry(frame, LowFlags(rights.write), rights.nx)
  }

  // Page v of r is mapped for the first i + 1 segments, its bytes still those of the first i.
  ghost predicate Obtained(w0: World, w: World, w': World, sh: Sharing, r: nat, v: nat, im: Image, i: nat, frame: nat)
    requires i < |im.segs| && r in w.trees && r in w'.trees
  {
    && Elf.PageRights(im.segs[..i + 1], v, im.nxOn).Some?
    && PageSetTo(w, w', sh, r, v, EntryWith(frame, Elf.PageRights(im.segs[..i + 1], v, im.nxOn).value))
    && frame !in w0.owner && PageBytes(w'.mem[frame], im, i, v)
  }

  lemma ZeroObtained(w0: World, w: World, w': World, sh: Sharing, r: nat, v: nat, im: Image, i: nat, frame: nat)
    requires i < |im.segs| && r in w.trees && r in w'.trees && ImageOk(im) && Elf.CoversPage(im.segs[i], v)
    requires Elf.PageRights(im.segs[..i], v, im.nxOn).None?
    requires var s := im.segs[i];
      PageSetTo(w, w', sh, r, v, Entry(frame, LowFlags(Elf.Writable(s)), !Elf.Executable(s) && im.nxOn))
    requires frame !in w0.owner && w'.mem[frame] == ZeroPage()
    ensures Obtained(w0, w, w', sh, r, v, im, i, frame)
  {
    assert im.segs[..i + 1][..i] == im.segs[..i];
    ZeroPageBytes(im, i, v);
  }

  lemma SharedObtained(w0: World, w: World, w': World, sh: Sharing, r: nat, v: nat, im: Image, i: nat, frame: nat,
                       write: bool)
    requires i < |im.segs| && r in w.trees && r in w'.trees && Elf.CoversPage(im.segs[i], v)
    requires PageIs(w0, w, sh, im, i, v, Leaf(w.mem, w.trees[r], v))
    requires Leaf(w.mem, w.trees[r], v).Some? && Leaf(w.mem, w.trees[r], v).value.frame == frame
    requires write == (Leaf(w.mem, w.trees[r], v).value.low.write || Elf.Writable(im.segs[i]))
    requires PageSetTo(w, w', sh, r, v, Entry(frame, LowFlags(write), false))
    requires w'.mem[frame] == w.mem[frame]
    ensures Obtained(w0, w, w', sh, r, v, im, i, frame)
  {
    assert im.segs[..i + 1][..i] == im.segs[..i];
  }

  // Maps page v for segment i: a page of its own, or the one that an earlier segment has there.
  method ObtainPage(m: Machine, ghost w0: World, r: nat, v: nat, im: Image, i: nat) returns (ok: bool, frame: nat)
    requires m.Valid() && r in m.trees && i < |im.segs| && ImageOk(im)
    requires Elf.CoversPage(im.segs[i], v) && v < USER_PAGES
    requires PageIs(w0, m.Now(), m.sh, im, i, v, Leaf(m.mem, m.trees[r], v))
    requires forall f :: f in w0.owner ==> f in m.owner
    modifies m.Repr()
    ensures m.Valid() && r in m.trees && Grown(old(m.Now()), m.Now(), m.sh, r)
    ensures ok ==> Obtained(w0, old(m.Now()), m.Now(), m.sh, r, v, im, i, frame)
    ensures |m.owner| <= |old(m.owner)| + 4 && (!ok ==> Scarce(old(m.Now()), m.pmm.totalFrames, 4))
  {
    ghost var w := m.Now();
    var s := im.segs[i];
    m.ResolveFindsLeaf(r, Address(v));
    var rc, phys, oldFlags := m.Resolve(r, Address(v));
    if rc == 0 {
      frame := phys / 4096;
      ok := Remap(m, r, v, frame, oldFlags.write || Elf.Writable(s));
      if ok {
        SharedObtained(w0, w, m.Now(), m.sh, r, v, im, i, frame, oldFlags.write || Elf.Writable(s));
      }
    } else {
      ok, frame := MapZeroed(m, r, v, LowFlags(Elf.Writable(s)), !Elf.Executable(s) && im.nxOn);
      if ok {
        ZeroObtained(w0, w, m.Now(), m.sh, r, v, im, i, frame);
      }
    }
  }

  // The frame of page v is filled; the page is as the first i + 1 segments say, the others as before.
  lemma PageDone(w0: World, w: World, w1: World, w2: World, sh: Sharing, total: nat, r: nat, im: Image, i: nat, v: nat,
                 e: Entry, page: seq<byte>)
    requires r in w0.trees && r in w.trees && r in w1.trees && r in w2.trees && i < |im.segs|
    requires WorldOk(w, sh, total) && WorldOk(w1, sh, total) && Grown(w0, w, sh, r) && PageSetTo(w, w1, sh, r, v, e)
    requires Loaded(w0, w, sh, r, im, i, v)
    requires w2 == w1.(mem := w1.mem[e.frame := Bytes(page)])
    requires forall u: nat :: Leaf(w2.mem, w2.trees[r], u) == Leaf(w1.mem, w1.trees[r], u)
    requires PageIs(w0, w2, sh, im, i + 1, v, Some(e))
    ensures Loaded(w0, w2, sh, r, im, i, v + 1)
  {
    LeafFrame(w1, sh, total, r, v);
    forall u: nat ensures PageIs(w0, w2, sh, im, if u < v + 1 then i + 1 else i, u, Leaf(w2.mem, w2.trees[r], u)) {
      assert Leaf(w2.mem, w2.trees[r], u) == Leaf(w1.mem, w1.trees[r], u);
      if u != v {
        assert PageIs(w0, w, sh, im, if u < v then i + 1 else i, u, Leaf(w.mem, w.trees[r], u));
        if Leaf(w.mem, w.trees[r], u).Some? {
          LeafFrame(w, sh, total, r, u);
          LeafFrame(w1, sh, total, r, u);
        }
        OtherPage(w0, w, w2, sh, total, r, im, if u < v then i + 1 else i, u, e.frame);
      }
    }
  }

  lemma FillIsGrown(w0: World, w1: World, w2: World, sh: Sharing, total: nat, r: nat, v: nat, e: Entry, page: seq<byte>)
    requires r in w0.trees && r in w1.trees && WorldOk(w1, sh, total) && Grown(w0, w1, sh, r)
    requires Leaf(w1.mem, w1.trees[r], v) == Some(e) && !IsShared(sh, e.frame) && e.frame !in w0.owner
    requires w2 == w1.(mem := w1.mem[e.frame := Bytes(page)])
    ensures Grown(w0, w2, sh, r)
  {
  }

  /** One page of one segment: mapped, and the segment's bytes for it copied in. */
  method LoadPage(m: Machine, ghost w0: World, r: nat, v: nat, im: Image, i: nat) returns (ok: bool)
    requires m.Valid() && r in m.trees && r in w0.trees && i < |im.segs| && ImageOk(im)
    requires Elf.CoversPage(im.segs[i], v) && v < USER_PAGES
    requires Grown(w0, m.Now(), m.sh, r) && Loaded(w0, m.Now(), m.sh, r, im, i, v)
    modifies m.Repr()
    ensures m.Valid() && r in m.trees && Grown(w0, m.Now(), m.sh, r)
    ensures ok ==> Loaded(w0, m.Now(), m.sh, r, im, i, v + 1)
    ensures |m.owner| <= |old(m.owner)| + 4 && (!ok ==> Scarce(old(m.Now()), m.pmm.totalFrames, 4))
  {
    ghost var w := m.Now();
    var frame;
    assert PageIs(w0, w, m.sh, im, i, v, Leaf(m.mem, m.trees[r], v));
    ok, frame := ObtainPage(m, w0, r, v, im, i);
    GrownTrans(w0, w, m.Now(), m.sh, r);
    if ok {
      LoadBytes(m, w0, w, r, v, im, i, frame);
    }
  }

  method LoadBytes(m: Machine, ghost w0: World, ghost w: World, ghost r: nat, v: nat, im: Image, i: nat, frame: nat)
    requires m.Valid() && r in m.trees && r in w0.trees && r in w.trees && i < |im.segs| && ImageOk(im)
    requires WorldOk(w, m.sh, m.pmm.totalFrames) && Elf.CoversPage(im.segs[i], v)
    requires Grown(w0, w, m.sh, r) && Loaded(w0, w, m.sh, r, im, i, v)
    requires Grown(w0, m.Now(), m.sh, r) && Obtained(w0, w, m.Now(), m.sh, r, v, im, i, frame)
    modifies m`mem
    ensures m.Valid() && r in m.trees && Grown(w0, m.Now(), m.sh, r)
    ensures Loaded(w0, m.Now(), m.sh, r, im, i, v + 1)
  {
    ghost var w1 := m.Now();
    ghost var total := m.pmm.totalFrames;
    ghost var e := Leaf(m.mem, m.trees[r], v).value;
    LeafFrame(w1, m.sh, total, r, v);
    var page := FillPage(im.data, im.segs[i], v, m.mem[frame].data);
    PageFilled(im, i, v, m.mem[frame].data, page);
    m.Store(frame, Bytes(page));
    FillIsGrown(w0, w1, m.Now(), m.sh, total, r, v, e, page);
    PageDone(w0, w, w1, m.Now(), m.sh, total, r, im, i, v, e, page);
  }

  // ---------------------------------------------------------------- one segment, and all of them

  // The pages of a segment below the limit of the user half, as loop bounds.
  lemma SegmentPages(im: Image, i: nat)
    requires ImageOk(im) && i < |im.segs| && Elf.Loads(im.segs[i])
    ensures 1 <= Elf.FirstPage(im.segs[i]) < Elf.EndPage(im.segs[i]) <= USER_PAGES
    ensures forall v: nat :: Elf.CoversPage(im.segs[i], v) <==> Elf.FirstPage(im.segs[i]) <= v < Elf.EndPage(im.segs[i])
  {
    assert Elf.SegmentOk(im.segs[i], |im.data|);
  }

  // Before the first page of segment i nothing is left to do for it, and behind its last page neither.
  lemma SegmentBegins(w0: World, w: World, sh: Sharing, r: nat, im: Image, i: nat)
    requires r in w.trees && i < |im.segs| && ImageOk(im) && Elf.Loads(im.segs[i])
    requires Loaded(w0, w, sh, r, im, i, 0)
    ensures Loaded(w0, w, sh, r, im, i, Elf.FirstPage(im.segs[i]))
  {
    forall u: nat | u < Elf.FirstPage(im.segs[i]) ensures PageIs(w0, w, sh, im, i + 1, u, Leaf(w.mem, w.trees[r], u)) {
      assert PageIs(w0, w, sh, im, i, u, Leaf(w.mem, w.trees[r], u));
      NotOnPage(w0, w, sh, im, i, u, Leaf(w.mem, w.trees[r], u));
    }
  }

  lemma SegmentEnds(w0: World, w: World, sh: Sharing, r: nat, im: Image, i: nat, v: nat)
    requires r in w.trees && i < |im.segs| && ImageOk(im)
    requires Loaded(w0, w, sh, r, im, i, v)
    requires forall u: nat :: u >= v ==> !Elf.CoversPage(im.segs[i], u)
    ensures Loaded(w0, w, sh, r, im, i + 1, 0)
  {
    forall u: nat ensures PageIs(w0, w, sh, im, i + 1, u, Leaf(w.mem, w.trees[r], u)) {
      assert PageIs(w0, w, sh, im, if u < v then i + 1 else i, u, Leaf(w.mem, w.trees[r], u));
      if u >= v {
        NotOnPage(w0, w, sh, im, i, u, Leaf(w.mem, w.trees[r], u));
      }
    }
  }

  // How many pages segment i has.
  function PagesOf(im: Image, i: nat): int
    requires i < |im.segs|
  {
    Elf.PageCount(im.segs[..i + 1]) - Elf.PageCount(im.segs[..i])
  }

  lemma PagesOfSegment(im: Image, i: nat)
    requires i < |im.segs|
    ensures PagesOf(im, i) >= 0
    ensures var s := im.segs[i];
      Elf.Loads(s) && Elf.FirstPage(s) <= Elf.EndPage(s) ==> PagesOf(im, i) == Elf.EndPage(s) - Elf.FirstPage(s)
  {
    assert im.segs[..i + 1][..i] == im.segs[..i];
  }

  method LoadSegment(m: Machine, ghost w0: World, r: nat, im: Image, i: nat) returns (ok: bool)
    requires m.Valid() && r in m.trees && r in w0.trees && i < |im.segs| && ImageOk(im) && Elf.Loads(im.segs[i])
    requires Grown(w0, m.Now(), m.sh, r) && Loaded(w0, m.Now(), m.sh, r, im, i, 0)
    modifies m.Repr()
    ensures m.Valid() && r in m.trees && Grown(w0, m.Now(), m.sh, r)
    ensures ok ==> Loaded(w0, m.Now(), m.sh, r, im, i + 1, 0)
    ensures PagesOf(im, i) >= 0
    ensures |m.owner| <= |old(m.owner)| + 4 * PagesOf(im, i)
    ensures !ok ==> Scarce(old(m.Now()), m.pmm.totalFrames, 4 * PagesOf(im, i))
  {
    var s := im.segs[i];
    SegmentPages(im, i);
    SegmentBegins(w0, m.Now(), m.sh, r, im, i);
    PagesOfSegment(im, i);
    var last := Elf.EndPage(s);
    var v := Elf.FirstPage(s);
    while v < last
      invariant Elf.FirstPage(s) <= v <= last && m.Valid() && r in m.trees
      invariant Grown(w0, m.Now(), m.sh, r) && Loaded(w0, m.Now(), m.sh, r, im, i, v)
      invariant |m.owner| <= |old(m.owner)| + 4 * (v - Elf.FirstPage(s))
    {
      ok := LoadPage(m, w0, r, v, im, i);
      if !ok {
        return;
      }
      v := v + 1;
    }
    SegmentEnds(w0, m.Now(), m.sh, r, im, i, last);
    ok := true;
  }

  // The bounds of code and data after the first n segments.
  ghost predicate BoundsAre(mm: Mm, segs: seq<Elf.Segment>) {
    && mm.codeStart == Elf.LowestStart(segs, true) && mm.codeEnd == Elf.HighestEnd(segs, true)
    && mm.dataStart == Elf.LowestStart(segs, false) && mm.dataEnd == Elf.HighestEnd(segs, false)
  }

  method AddBounds(mm: Mm, s: Elf.Segment, ghost segs: seq<Elf.Segment>) returns (mm': Mm)
    requires Elf.Loads(s) && BoundsAre(mm, segs)
    ensures BoundsAre(mm', segs + [s])
    ensures mm'.(codeStart := mm.codeStart, codeEnd := mm.codeEnd, dataStart := mm.dataStart,
                 dataEnd := mm.dataEnd) == mm
  {
    mm' := mm;
    var end := s.vaddr + s.memsz;
    assert (segs + [s])[..|segs|] == segs;
    if Elf.Executable(s) {
      if s.vaddr < mm'.codeStart {
        mm' := mm'.(codeStart := s.vaddr);
      }
      if end > mm'.codeEnd {
        mm' := mm'.(codeEnd := end);
      }
    } else {
      if s.vaddr < mm'.dataStart {
        mm' := mm'.(dataStart := s.vaddr);
      }
      if end > mm'.dataEnd {
        mm' := mm'.(dataEnd := end);
      }
    }
  }

  lemma BoundsSkip(mm: Mm, s: Elf.Segment, segs: seq<Elf.Segment>)
    requires !Elf.Loads(s) && BoundsAre(mm, segs)
    ensures BoundsAre(mm, segs + [s])
  {
    assert (segs + [s])[..|segs|] == segs;
  }

  // A lower bound of which nothing was found reads 0.
  function Start(x: nat): nat {
    if x == Elf.UINTPTR_MAX then 0 else x
  }

  // The address-space record of a loaded program.
  ghost predicate MmLoaded(mm: Mm, mm': Mm, segs: seq<Elf.Segment>) {
    && mm'.codeStart == Start(Elf.LowestStart(segs, true)) && mm'.codeEnd == Elf.HighestEnd(segs, true)
    && mm'.dataStart == Start(Elf.LowestStart(segs, false)) && mm'.dataEnd == Elf.HighestEnd(segs, false)
    && mm'.brkStart == Elf.HeapStart(segs) && mm'.brk == mm'.brkStart
    && mm'.stackStart == mm.stackStart && mm'.stackLimit == mm.stackLimit
  }

  // Every page is mapped as the headers say, with the bytes they say.
  ghost predicate AllLoaded(w0: World, w: World, sh: Sharing, r: nat, im: Image)
    requires r in w.trees
  {
    Loaded(w0, w, sh, r, im, |im.segs|, 0)
  }

  ghost predicate MapsNothing(w: World, r: nat)
    requires r in w.trees
  {
    forall v: nat {:trigger Leaf(w.mem, w.trees[r], v)} :: Leaf(w.mem, w.trees[r], v) == None
  }

  lemma PageCountMonotone(im: Image, i: nat)
    requires i <= |im.segs|
    ensures Elf.PageCount(im.segs[..i]) <= Elf.PageCount(im.segs)
    decreases |im.segs| - i
  {
    if i < |im.segs| {
      PagesOfSegment(im, i);
      PageCountMonotone(im, i + 1);
    } else {
      assert im.segs[..i] == im.segs;
    }
  }

  /** Loads an accepted file into an address space that maps nothing. */
  method Load(m: Machine, r: nat, mm0: Mm, im: Image) returns (ok: bool, mm: Mm)
    requires m.Valid() && r in m.trees && ImageOk(im) && MapsNothing(m.Now(), r)
    modifies m.Repr()
    ensures m.Valid() && r in m.trees && Grown(old(m.Now()), m.Now(), m.sh, r)
    ensures ok ==> AllLoaded(old(m.Now()), m.Now(), m.sh, r, im) && MmLoaded(mm0, mm, im.segs)
    ensures !ok ==> Scarce(old(m.Now()), m.pmm.totalFrames, 4 * Elf.PageCount(im.segs))
    ensures ok ==> |m.owner| <= |old(m.owner)| + 4 * Elf.PageCount(im.segs)
  {
    ghost var w0 := m.Now();
    GrownItself(w0, m.sh, r);
    mm := mm0.(codeStart := Elf.UINTPTR_MAX, codeEnd := 0, dataStart := Elf.UINTPTR_MAX, dataEnd := 0);
    for i := 0 to |im.segs|
      invariant m.Valid() && r in m.trees
      invariant Grown(w0, m.Now(), m.sh, r) && Loaded(w0, m.Now(), m.sh, r, im, i, 0)
      invariant |m.owner| <= |w0.owner| + 4 * Elf.PageCount(im.segs[..i])
      invariant BoundsAre(mm, im.segs[..i]) && mm.stackStart == mm0.stackStart && mm.stackLimit == mm0.stackLimit
    {
      PageCountMonotone(im, i + 1);
      ok, mm := LoadHeader(m, w0, r, im, i, mm);
      if !ok {
        return;
      }
    }
    assert im.segs[..|im.segs|] == im.segs;
    mm := Finished(mm, im.segs);
    ok := true;
  }

  // One program header: skipped, or its segment loaded.
  method LoadHeader(m: Machine, ghost w0: World, r: nat, im: Image, i: nat, mm: Mm) returns (ok: bool, mm': Mm)
    requires m.Valid() && r in m.trees && r in w0.trees && i < |im.segs| && ImageOk(im)
    requires Grown(w0, m.Now(), m.sh, r) && Loaded(w0, m.Now(), m.sh, r, im, i, 0)
    requires BoundsAre(mm, im.segs[..i])
    requires |m.owner| <= |w0.owner| + 4 * Elf.PageCount(im.segs[..i])
    modifies m.Repr()
    ensures m.Valid() && r in m.trees && Grown(w0, m.Now(), m.sh, r)
    ensures ok ==> Loaded(w0, m.Now(), m.sh, r, im, i + 1, 0)
    ensures BoundsAre(mm', im.segs[..i + 1])
    ensures mm'.stackStart == mm.stackStart && mm'.stackLimit == mm.stackLimit
    ensures ok ==> |m.owner| <= |w0.owner| + 4 * Elf.PageCount(im.segs[..i + 1])
    ensures !ok ==> Scarce(w0, m.pmm.totalFrames, 4 * Elf.PageCount(im.segs[..i + 1]))
  {
    var s := im.segs[i];
    assert im.segs[..i + 1] == im.segs[..i] + [s];
    PagesOfSegment(im, i);
    if !Elf.Loads(s) {
      SegmentEnds(w0, m.Now(), m.sh, r, im, i, 0);
      BoundsSkip(mm, s, im.segs[..i]);
      return true, mm;
    }
    mm' := AddBounds(mm, s, im.segs[..i]);
    ok := LoadSegment(m, w0, r, im, i);
  }

  method Finished(mm: Mm, ghost segs: seq<Elf.Segment>) returns (mm': Mm)
    requires BoundsAre(mm, segs)
    ensures MmLoaded(mm, mm', segs)
  {
    mm' := mm;
    if mm'.codeStart == Elf.UINTPTR_MAX {
      mm' := mm'.(codeStart := 0);
    }
    if mm'.dataStart == Elf.UINTPTR_MAX {
      mm' := mm'.(dataStart := 0);
    }
    var highest := if mm'.codeEnd > mm'.dataEnd then mm'.codeEnd else mm'.dataEnd;
    mm' := mm'.(brkStart := 4096 * PageUp(highest));
    mm' := mm'.(brk := mm'.brkStart);
  }
}
