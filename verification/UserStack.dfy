/** The first stack of a program: pages at the top of the user half, and the arguments laid out in the last one. */
module UserStack {
  import opened PageEntry
  import opened PageTree
  import opened World
  import opened Vmm
  import opened Growth
  import opened Layout
  import opened Words

  // A C string without its NUL, or a null pointer, which counts as the empty string.
  type Arg = Option<seq<byte>>

  function Text(a: Arg): seq<byte> {
    match a
    case None => []
    case Some(s) => s
  }

  // The bytes that the last n strings need, with their NULs.
  function TailBytes(argv: seq<Arg>, n: nat): nat
    requires n <= |argv|
  {
    if n == 0 then 0 else |Text(argv[|argv| - n])| + 1 + TailBytes(argv, n - 1)
  }

  // The bytes that the strings i, i + 1, ... need.
  function ArgBytes(argv: seq<Arg>, i: nat): nat {
    if i >= |argv| then 0 else TailBytes(argv, |argv| - i)
  }

  // Where string i lies in the top page: the strings fill the page from its end, the first one lowest.
  function StringOffset(argv: seq<Arg>, i: nat): int {
    4096 - ArgBytes(argv, i)
  }

  // The user address of an offset into the top page.
  function TopAddress(offset: int): int {
    USER_STACK_TOP - 4096 + offset
  }

  function WordAt(page: seq<byte>, at: nat): nat
    requires at + 8 <= |page|
  {
    WordValue(page, at, 8)
  }

  // Strings i, i + 1, ... are in the page.
  ghost predicate StringsPlaced(page: seq<byte>, argv: seq<Arg>, i: nat) {
    && |page| == 4096 && ArgBytes(argv, i) <= 4096
    && forall j: nat {:trigger StringOffset(argv, j)} :: i <= j < |argv| ==>
         4096 - ArgBytes(argv, i) <= StringOffset(argv, j) && Holds(page, StringOffset(argv, j), Text(argv[j]) + [0])
  }

  // Every pointer of the table points to its string.
  ghost predicate Pointers(page: seq<byte>, sp: nat, argv: seq<Arg>) {
    && |page| == 4096 && sp + 8 * (|argv| + 2) <= 4096
    && forall i: nat {:trigger StringOffset(argv, i)} :: i < |argv| ==>
         StringOffset(argv, i) >= 0 && WordAt(page, sp + 8 + 8 * i) == TopAddress(StringOffset(argv, i))
  }

  // What a program finds at its stack pointer: argc, the argv pointers, NULL, and the strings they point to.
  ghost predicate ArgsAt(page: seq<byte>, sp: nat, argv: seq<Arg>) {
    && |page| == 4096 && sp % 16 == 0 && sp + 8 * (|argv| + 2) + ArgBytes(argv, 0) <= 4096
    && WordAt(page, sp) == |argv|
    && WordAt(page, sp + 8 + 8 * |argv|) == 0
    && Pointers(page, sp, argv) && StringsPlaced(page, argv, 0)
  }

  // All arguments fit into the top page, beside the pointers and padding to 16 bytes.
  predicate ArgsFit(argv: seq<Arg>) {
    ArgBytes(argv, 0) + 8 * (|argv| + 2) <= 4096
  }

  lemma {:induction false} ArgBytesShrink(argv: seq<Arg>, i: nat, j: nat)
    requires i <= j <= |argv|
    ensures ArgBytes(argv, j) <= ArgBytes(argv, i)
    ensures i < j ==> ArgBytes(argv, j) + |Text(argv[i])| + 1 <= ArgBytes(argv, i)
    decreases j - i
  {
    if i < j {
      ArgBytesShrink(argv, i + 1, j);
    }
  }

  // The words of a pointer table, one after the other.
  function FlatWords(words: seq<nat>): (r: seq<byte>)
    ensures |r| == 8 * |words|
  {
    if |words| == 0 then [] else FlatWords(words[..|words| - 1]) + WordBytes(words[|words| - 1], 8)
  }

  // Storing below all of them leaves the strings where they are.
  lemma StringsStay(page: seq<byte>, argv: seq<Arg>, i: nat, at: nat, bytes: seq<byte>)
    requires StringsPlaced(page, argv, i) && at + |bytes| <= 4096 - ArgBytes(argv, i)
    ensures StringsPlaced(Patched(page, at, bytes), argv, i)
  {
    forall j: nat | i <= j < |argv|
      ensures Holds(Patched(page, at, bytes), StringOffset(argv, j), Text(argv[j]) + [0])
    {
      PatchedKeeps(page, at, bytes, StringOffset(argv, j), Text(argv[j]) + [0]);
    }
  }

  lemma PlaceString(page: seq<byte>, argv: seq<Arg>, i: nat)
    requires i < |argv| && StringsPlaced(page, argv, i + 1) && ArgBytes(argv, i) <= 4096
    ensures StringsPlaced(Patched(page, StringOffset(argv, i), Text(argv[i]) + [0]), argv, i)
  {
    StringsStay(page, argv, i + 1, StringOffset(argv, i), Text(argv[i]) + [0]);
    PatchedHolds(page, StringOffset(argv, i), Text(argv[i]) + [0]);
  }

  // The user addresses of the last n strings.
  function TailAddresses(argv: seq<Arg>, n: nat): (r: seq<nat>)
    requires n <= |argv| && TailBytes(argv, n) <= 4096
    ensures |r| == n
  {
    if n == 0 then [] else [TopAddress(4096 - TailBytes(argv, n))] + TailAddresses(argv, n - 1)
  }

  // The user addresses of strings i, i + 1, ...
  function Addresses(argv: seq<Arg>, i: nat): (r: seq<nat>)
    requires i <= |argv| && ArgBytes(argv, i) <= 4096
    ensures |r| == |argv| - i
  {
    TailAddresses(argv, |argv| - i)
  }

  lemma OneStringMore(argv: seq<Arg>, i: nat)
    requires i < |argv|
    ensures ArgBytes(argv, i) == |Text(argv[i])| + 1 + ArgBytes(argv, i + 1)
    ensures ArgBytes(argv, i) <= 4096 ==>
      Addresses(argv, i) == [TopAddress(4096 - ArgBytes(argv, i))] + Addresses(argv, i + 1)
  {
  }

  /** Copies the strings to the end of the page, the last one first; false when they do not fit. */
  method PlaceStrings(argv: seq<Arg>, page0: seq<byte>) returns (fits: bool, page: seq<byte>, offset: nat,
                                                                 addrs: seq<nat>)
    requires |page0| == 4096
    ensures |page| == 4096
    ensures fits <==> ArgBytes(argv, 0) <= 4096
    ensures fits ==> StringsPlaced(page, argv, 0) && offset == 4096 - ArgBytes(argv, 0) && addrs == Addresses(argv, 0)
  {
    page := page0;
    offset := 4096;
    addrs := [];
    var i: nat := |argv|;
    while i > 0
      invariant i <= |argv| && StringsPlaced(page, argv, i) && offset == 4096 - ArgBytes(argv, i)
      invariant addrs == Addresses(argv, i)
    {
      i := i - 1;
      OneStringMore(argv, i);
      var len := |Text(argv[i])| + 1;
      if len > offset {
        ArgBytesShrink(argv, 0, i);
        return false, page, offset, addrs;
      }
      offset := offset - len;
      PlaceString(page, argv, i);
      page := Patched(page, offset, Text(argv[i]) + [0]);
      addrs := [TopAddress(offset)] + addrs;
    }
    fits := true;
  }

  // argc and the table of pointers, below the strings.
  function WithTable(page: seq<byte>, sp: nat, argc: nat, addrs: seq<nat>): seq<byte>
    requires |page| == 4096 && sp + 8 * (|addrs| + 2) <= 4096
  {
    Patched(Patched(page, sp, WordBytes(argc, 8)), sp + 8, FlatWords(addrs + [0]))
  }

  lemma WordHeld(page: seq<byte>, at: nat, x: nat)
    requires Holds(page, at, WordBytes(x, 8)) && x < 0x1_0000_0000_0000_0000
    ensures WordAt(page, at) == x
  {
    ByteRangeOf8();
    WordRoundTrip(page, at, x, 8);
  }

  // A word of a table is there once the table is stored.
  lemma {:induction false} TableWord(page: seq<byte>, at: nat, words: seq<nat>, i: nat)
    requires at + 8 * |words| <= |page| && i < |words| && words[i] < 0x1_0000_0000_0000_0000
    ensures WordAt(Patched(page, at, FlatWords(words)), at + 8 * i) == words[i]
    decreases |words|
  {
    var k := |words| - 1;
    if i < k {
      TableWord(page, at, words[..k], i);
      WordBefore(page, at, FlatWords(words[..k]), WordBytes(words[k], 8), 8 * i);
    } else {
      LastWord(page, at, FlatWords(words[..k]), words[k]);
    }
  }

  lemma WordBefore(page: seq<byte>, at: nat, a: seq<byte>, b: seq<byte>, i: nat)
    requires at + |a| + |b| <= |page| && i + 8 <= |a|
    ensures WordAt(Patched(page, at, a + b), at + i) == WordAt(Patched(page, at, a), at + i)
  {
    assert Patched(page, at, a + b)[at..at + |a|] == a && Patched(page, at, a)[at..at + |a|] == a;
    WordWithin(Patched(page, at, a + b), at, a, i, 8);
    WordWithin(Patched(page, at, a), at, a, i, 8);
  }

  lemma LastWord(page: seq<byte>, at: nat, a: seq<byte>, x: nat)
    requires at + |a| + 8 <= |page| && x < 0x1_0000_0000_0000_0000
    ensures WordAt(Patched(page, at, a + WordBytes(x, 8)), at + |a|) == x
  {
    var bytes := WordBytes(x, 8);
    ByteRangeOf8();
    WordAppended(a, x, 8);
    assert Patched(page, at, a + bytes)[at..at + |a + bytes|] == a + bytes;
    WordWithin(Patched(page, at, a + bytes), at, a + bytes, |a|, 8);
  }

  lemma PointersPlaced(page: seq<byte>, argv: seq<Arg>, sp: nat)
    requires |page| == 4096 && sp + 8 * (|argv| + 2) + ArgBytes(argv, 0) <= 4096
    ensures Pointers(WithTable(page, sp, |argv|, Addresses(argv, 0)), sp, argv)
  {
    forall i: nat | i < |argv|
      ensures StringOffset(argv, i) >= 0
      ensures WordAt(WithTable(page, sp, |argv|, Addresses(argv, 0)),
                     sp + 8 + 8 * i) == TopAddress(StringOffset(argv, i))
    {
      PointerPlaced(page, argv, sp, i);
    }
  }

  lemma StringsUnderTable(page: seq<byte>, argv: seq<Arg>, sp: nat, words: seq<nat>)
    requires StringsPlaced(page, argv, 0) && sp + 8 * (|argv| + 2) + ArgBytes(argv, 0) <= 4096 && |words| == |argv| + 1
    ensures StringsPlaced(Patched(Patched(page, sp, WordBytes(|argv|, 8)), sp + 8, FlatWords(words)), argv, 0)
  {
    StringsStay(page, argv, 0, sp, WordBytes(|argv|, 8));
    StringsStay(Patched(page, sp, WordBytes(|argv|, 8)), argv, 0, sp + 8, FlatWords(words));
  }

  lemma TablePlaced(page: seq<byte>, argv: seq<Arg>, sp: nat)
    requires StringsPlaced(page, argv, 0) && sp % 16 == 0 && sp + 8 * (|argv| + 2) + ArgBytes(argv, 0) <= 4096
    ensures ArgsAt(WithTable(page, sp, |argv|, Addresses(argv, 0)), sp, argv)
  {
    var words := Addresses(argv, 0) + [0];
    StringsUnderTable(page, argv, sp, words);
    CountPlaced(page, |argv|, sp, words);
    TableWord(Patched(page, sp, WordBytes(|argv|, 8)), sp + 8, words, |argv|);
    PointersPlaced(page, argv, sp);
  }

  lemma PointerPlaced(page: seq<byte>, argv: seq<Arg>, sp: nat, i: nat)
    requires i < |argv| && |page| == 4096 && sp + 8 * (|argv| + 2) + ArgBytes(argv, 0) <= 4096
    ensures StringOffset(argv, i) >= 0
    ensures WordAt(WithTable(page, sp, |argv|, Addresses(argv, 0)), sp + 8 + 8 * i) == TopAddress(StringOffset(argv, i))
  {
    AddressBound(argv, i);
    TableWord(Patched(page, sp, WordBytes(|argv|, 8)), sp + 8, Addresses(argv, 0) + [0], i);
  }

  lemma CountPlaced(page: seq<byte>, argc: nat, sp: nat, words: seq<nat>)
    requires |page| == 4096 && sp + 8 + 8 * |words| <= 4096 && argc <= |words|
    ensures WordAt(Patched(Patched(page, sp, WordBytes(argc, 8)), sp + 8, FlatWords(words)), sp) == argc
  {
    var page1 := Patched(page, sp, WordBytes(argc, 8));
    PatchedHolds(page, sp, WordBytes(argc, 8));
    PatchedKeeps(page1, sp + 8, FlatWords(words), sp, WordBytes(argc, 8));
    WordHeld(Patched(page1, sp + 8, FlatWords(words)), sp, argc);
  }

  lemma {:induction false} AddressOf(argv: seq<Arg>, i: nat, j: nat)
    requires i <= j < |argv| && ArgBytes(argv, i) <= 4096
    ensures Addresses(argv, i)[j - i] == TopAddress(StringOffset(argv, j))
    decreases j - i
  {
    if i < j {
      AddressOf(argv, i + 1, j);
    }
  }

  lemma AddressBound(argv: seq<Arg>, i: nat)
    requires i < |argv| && ArgBytes(argv, 0) <= 4096
    ensures 0 <= StringOffset(argv, i) < 4096
    ensures (Addresses(argv, 0) + [0])[i] == TopAddress(StringOffset(argv, i)) < 0x1_0000_0000_0000_0000
  {
    ArgBytesShrink(argv, 0, i);
    AddressOf(argv, 0, i);
  }

  /** The whole layout of the top page; false, for -E2BIG, exactly when it does not fit. */
  method LayOutArgs(argv: seq<Arg>, page0: seq<byte>) returns (fits: bool, page: seq<byte>, sp: nat)
    requires |page0| == 4096
    ensures |page| == 4096
    ensures fits <==> ArgBytes(argv, 0) + 8 * (|argv| + 2) <= 4096
    ensures fits ==> ArgsAt(page, sp, argv)
  {
    var placed, offset, addrs;
    sp := 0;
    placed, page, offset, addrs := PlaceStrings(argv, page0);
    var need := (|argv| + 2) * 8;
    if !placed || offset < need {
      return false, page, sp;
    }
    sp := (offset - need) - (offset - need) % 16;
    TablePlaced(page, argv, sp);
    page := WithTable(page, sp, |argv|, addrs);
    fits := true;
  }

  // ---------------------------------------------------------------- mapping the stack

  const TOP_PAGE: nat := USER_STACK_TOP / 4096
  const ENOMEM: int := 12
  const E2BIG: int := 7

  // The stack area of r is still empty.
  ghost predicate NoStack(w: World, r: nat)
    requires r in w.trees
  {
    forall v: nat {:trigger Leaf(w.mem, w.trees[r], v)} :: TOP_PAGE - USER_STACK_MAX_PAGES <= v < TOP_PAGE ==>
      Leaf(w.mem, w.trees[r], v) == None
  }

  // The bounds within which the stack may grow on demand.
  function StackMm(mm: Mm): Mm {
    mm.(stackStart := USER_STACK_TOP, stackLimit := USER_STACK_TOP - USER_STACK_MAX_PAGES * 4096)
  }

  function StackPages(pages: int): (n: nat)
    ensures 1 <= n <= 256 && (1 <= pages <= 256 ==> n == pages) && (pages <= 0 ==> n == 4)
  {
    if pages <= 0 then USER_STACK_PAGES else if pages > USER_STACK_MAX_PAGES then USER_STACK_MAX_PAGES else pages
  }

  // The stack: n private pages below the top, zero except the last, which holds `page`.
  ghost predicate StackAt(w: World, w': World, sh: Sharing, r: nat, n: nat, page: seq<byte>)
    requires r in w.trees && r in w'.trees && n <= TOP_PAGE
  {
    forall u: nat {:trigger Leaf(w'.mem, w'.trees[r], u)} ::
      if TOP_PAGE - n <= u < TOP_PAGE then
        StackPage(w, w', sh, Leaf(w'.mem, w'.trees[r], u), if u == TOP_PAGE - 1 then Bytes(page) else ZeroPage())
      else Leaf(w'.mem, w'.trees[r], u) == Leaf(w.mem, w.trees[r], u)
  }

  ghost predicate StackPage(w: World, w': World, sh: Sharing, leaf: Option<Entry>, content: Frame) {
    && leaf.Some? && leaf.value.low == USER_WRITE && !leaf.value.nx
    && !IsShared(sh, leaf.value.frame) && leaf.value.frame !in w.owner
    && leaf.value.frame in w'.mem && w'.mem[leaf.value.frame] == content
  }

  method MapStack(m: Machine, r: nat, n: nat) returns (ok: bool, top: nat)
    requires m.Valid() && r in m.trees && 0 < n <= USER_STACK_MAX_PAGES && NoStack(m.Now(), r)
    modifies m.Repr()
    ensures m.Valid() && r in m.trees && Grown(old(m.Now()), m.Now(), m.sh, r)
    ensures ok ==> PagesAdded(old(m.Now()), m.Now(), m.sh, r, TOP_PAGE - n, TOP_PAGE)
    ensures ok ==> Leaf(m.mem, m.trees[r], TOP_PAGE - 1) == Some(Entry(top, USER_WRITE, false))
    ensures |m.owner| <= |old(m.owner)| + 4 * n && (!ok ==> Scarce(old(m.Now()), m.pmm.totalFrames, 4 * n))
  {
    ghost var w := m.Now();
    GrownItself(w, m.sh, r);
    top := 0;
    var bottom: nat := TOP_PAGE - n;
    var i: nat := 0;
    while i < n
      invariant i <= n && m.Valid() && r in m.trees && Grown(w, m.Now(), m.sh, r)
      invariant PagesAdded(w, m.Now(), m.sh, r, bottom, bottom + i)
      invariant |m.owner| <= |w.owner| + 4 * i
      invariant i == n ==> Leaf(m.mem, m.trees[r], TOP_PAGE - 1) == Some(Entry(top, USER_WRITE, false))
    {
      ok, top := MapStackPage(m, w, r, n, bottom, i, top);
      if !ok {
        return;
      }
      i := i + 1;
    }
    ok := true;
  }

  // Page i of the stack; `top` becomes the frame of the last one.
  method MapStackPage(m: Machine, ghost w: World, r: nat, n: nat, bottom: nat, i: nat, top: nat) returns (ok: bool,
                                                                                                          top': nat)
    requires m.Valid() && r in m.trees && r in w.trees && i < n <= USER_STACK_MAX_PAGES && bottom == TOP_PAGE - n
    requires NoStack(w, r) && Grown(w, m.Now(), m.sh, r) && PagesAdded(w, m.Now(), m.sh, r, bottom, bottom + i)
    modifies m.Repr()
    ensures m.Valid() && r in m.trees && Grown(w, m.Now(), m.sh, r)
    ensures ok ==> PagesAdded(w, m.Now(), m.sh, r, bottom, bottom + (i + 1))
    ensures ok && i == n - 1 ==> Leaf(m.mem, m.trees[r], TOP_PAGE - 1) == Some(Entry(top', USER_WRITE, false))
    ensures |m.owner| <= |old(m.owner)| + 4 && (!ok ==> Scarce(old(m.Now()), m.pmm.totalFrames, 4))
  {
    var frame;
    assert Leaf(w.mem, w.trees[r], bottom + i) == None;
    ok, frame := AddPage(m, w, r, bottom, bottom + i);
    top' := if i == n - 1 then frame else top;
  }

  lemma StackWritten(w: World, w1: World, w2: World, sh: Sharing, total: nat, r: nat, n: nat, top: nat, page: seq<byte>)
    requires r in w.trees && r in w1.trees && 0 < n <= USER_STACK_MAX_PAGES
    requires WorldOk(w1, sh, total) && Grown(w, w1, sh, r)
    requires PagesAdded(w, w1, sh, r, TOP_PAGE - n, TOP_PAGE)
    requires Leaf(w1.mem, w1.trees[r], TOP_PAGE - 1) == Some(Entry(top, USER_WRITE, false))
    requires w2 == w1.(mem := w1.mem[top := Bytes(page)])
    requires forall v: nat :: Leaf(w2.mem, w2.trees[r], v) == Leaf(w1.mem, w1.trees[r], v)
    ensures Grown(w, w2, sh, r) && StackAt(w, w2, sh, r, n, page)
  {
    assert FreshPage(w, w1, sh, Leaf(w1.mem, w1.trees[r], TOP_PAGE - 1));
    forall u: nat | TOP_PAGE - n <= u < TOP_PAGE
      ensures StackPage(w, w2, sh, Leaf(w2.mem, w2.trees[r], u), if u == TOP_PAGE - 1 then Bytes(page) else ZeroPage())
    {
      assert FreshPage(w, w1, sh, Leaf(w1.mem, w1.trees[r], u));
      LeafFrame(w1, sh, total, r, u);
      LeafFrame(w1, sh, total, r, TOP_PAGE - 1);
    }
  }

  /** Builds the stack.  `scratch` says whether the kernel heap had room for the table of addresses. */
  method SetupUserStack(m: Machine, r: nat, mm: Mm, argv: seq<Arg>, pages: int, scratch: bool)
    returns (rc: int, sp: nat, mm': Mm, ghost page: seq<byte>)
    requires m.Valid() && r in m.trees && NoStack(m.Now(), r)
    modifies m.Repr()
    ensures m.Valid() && r in m.trees && Grown(old(m.Now()), m.Now(), m.sh, r)
    ensures rc == 0 || rc == -ENOMEM || rc == -E2BIG
    ensures |m.owner| <= |old(m.owner)| + 4 * StackPages(pages)
    ensures rc == -E2BIG ==> !ArgsFit(argv)
    ensures rc == -ENOMEM ==> !scratch || Scarce(old(m.Now()), m.pmm.totalFrames, 4 * StackPages(pages))
    ensures rc == 0 ==> ArgsFit(argv) && StackAt(old(m.Now()), m.Now(), m.sh, r, StackPages(pages), page)
    ensures rc == 0 ==> sp >= USER_STACK_TOP - 4096 && ArgsAt(page, sp - (USER_STACK_TOP - 4096), argv)
    ensures rc == 0 ==> mm' == StackMm(mm)
    ensures rc != 0 ==> mm' == mm
  {
    ghost var w := m.Now();
    var n := StackPages(pages);
    sp, mm', page := 0, mm, [];
    var mapped, top := MapStack(m, r, n);
    if !mapped || !scratch {
      return -ENOMEM, sp, mm, page;
    }
    assert |m.owner| <= |w.owner| + 4 * n;
    rc, sp, page := FillTop(m, w, r, n, top, argv);
    if rc == 0 {
      mm' := StackMm(mm);
    }
  }

  method FillTop(m: Machine, ghost w: World, r: nat, ghost n: nat, top: nat, argv: seq<Arg>)
    returns (rc: int, sp: nat, ghost page: seq<byte>)
    requires m.Valid() && r in m.trees && r in w.trees && 0 < n <= USER_STACK_MAX_PAGES && Grown(w, m.Now(), m.sh, r)
    requires PagesAdded(w, m.Now(), m.sh, r, TOP_PAGE - n, TOP_PAGE)
    requires Leaf(m.mem, m.trees[r], TOP_PAGE - 1) == Some(Entry(top, USER_WRITE, false))
    modifies m`mem
    ensures m.Valid() && r in m.trees && Grown(w, m.Now(), m.sh, r) && m.owner == old(m.owner)
    ensures rc == if ArgsFit(argv) then 0 else -E2BIG
    ensures rc == 0 ==> StackAt(w, m.Now(), m.sh, r, n, page)
    ensures rc == 0 ==> sp >= USER_STACK_TOP - 4096 && ArgsAt(page, sp - (USER_STACK_TOP - 4096), argv)
  {
    ghost var w1 := m.Now();
    LeafFrame(w1, m.sh, m.pmm.totalFrames, r, TOP_PAGE - 1);
    assert FreshPage(w, w1, m.sh, Leaf(m.mem, m.trees[r], TOP_PAGE - 1));
    var fits, data, offset := LayOutArgs(argv, m.mem[top].data);
    page := data;
    m.Store(top, Bytes(data));
    StackWritten(w, w1, m.Now(), m.sh, m.pmm.totalFrames, r, n, top, page);
    sp := USER_STACK_TOP - (4096 - (if fits then offset else 0));
    rc := if fits then 0 else -E2BIG;
  }
}
