/** Copying between the kernel and a user address space, page by page, against byte-wise virtual memory. */
module UserCopy {
  import opened PageEntry
  import opened PageTree
  import opened World
  import opened Vmm
  import opened Growth
  import opened Layout
  import opened Words

  // ---------------------------------------------------------------- byte-wise virtual memory

  // Byte `va` of the address space can be read, and with `write` also written, by user code.
  predicate Open(mem: Mem, nodes: Nodes, va: nat, write: bool) {
    var page := Leaf(mem, nodes, va / 4096);
    page.Some? && page.value.low.user && (write ==> page.value.low.write)
    && page.value.frame in mem && IsPage(mem[page.value.frame])
  }

  function ReadByte(mem: Mem, nodes: Nodes, va: nat): byte {
    var page := Leaf(mem, nodes, va / 4096);
    if page.Some? && page.value.frame in mem && IsPage(mem[page.value.frame])
    then mem[page.value.frame].data[va % 4096] else 0
  }

  function WriteByte(mem: Mem, nodes: Nodes, va: nat, b: byte): Mem {
    var page := Leaf(mem, nodes, va / 4096);
    if page.Some? && page.value.frame in mem && IsPage(mem[page.value.frame])
    then mem[page.value.frame := Bytes(mem[page.value.frame].data[va % 4096 := b])] else mem
  }

  // Writing bytes one after the other.
  function WriteBytes(mem: Mem, nodes: Nodes, va: nat, src: seq<byte>): Mem
    decreases |src|
  {
    if |src| == 0 then mem
    else WriteByte(WriteBytes(mem, nodes, va, src[..|src| - 1]), nodes, va + |src| - 1, src[|src| - 1])
  }

  function RangeValid(addr: nat, len: nat): bool {
    len == 0 || (USER_MIN_ADDR <= addr < USER_SPACE_LIMIT && len <= USER_SPACE_LIMIT - addr)
  }

  function ReadBytes(mem: Mem, nodes: Nodes, va: nat, len: nat): (r: seq<byte>)
    ensures |r| == len
    ensures forall j :: 0 <= j < len ==> r[j] == ReadByte(mem, nodes, va + j)
  {
    if len == 0 then [] else ReadBytes(mem, nodes, va, len - 1) + [ReadByte(mem, nodes, va + len - 1)]
  }

  // The word of n bytes that user code reads at va.
  function ReadWord(mem: Mem, nodes: Nodes, va: nat, n: nat): nat
    decreases n, va
  {
    if n == 0 then 0 else (ReadByte(mem, nodes, va) as nat) + 256 * ReadWord(mem, nodes, va + 1, n - 1)
  }

  ghost predicate AllOpen(mem: Mem, nodes: Nodes, va: nat, len: nat, write: bool) {
    forall x: nat {:trigger Open(mem, nodes, x, write)} :: va <= x < va + len ==> Open(mem, nodes, x, write)
  }

  // ---------------------------------------------------------------- properties of the byte-wise view

  lemma WriteByteKeepsLeaf(mem: Mem, nodes: Nodes, va: nat, b: byte, v: nat)
    ensures Leaf(WriteByte(mem, nodes, va, b), nodes, v) == Leaf(mem, nodes, v)
  {
  }

  // Writing data moves no page.
  lemma {:induction false} WriteKeepsLeaf(mem: Mem, nodes: Nodes, va: nat, src: seq<byte>, v: nat)
    ensures Leaf(WriteBytes(mem, nodes, va, src), nodes, v) == Leaf(mem, nodes, v)
  {
    if |src| > 0 {
      var k := |src| - 1;
      WriteKeepsLeaf(mem, nodes, va, src[..k], v);
      WriteByteKeepsLeaf(WriteBytes(mem, nodes, va, src[..k]), nodes, va + k, src[k], v);
    }
  }

  // Pages stay pages.
  lemma {:induction false} WriteKeepsPage(mem: Mem, nodes: Nodes, va: nat, src: seq<byte>, f: nat)
    ensures f in mem <==> f in WriteBytes(mem, nodes, va, src)
    ensures f in mem ==> (IsPage(mem[f]) <==> IsPage(WriteBytes(mem, nodes, va, src)[f]))
  {
    if |src| > 0 {
      WriteKeepsPage(mem, nodes, va, src[..|src| - 1], f);
    }
  }

  lemma WriteKeepsOpen(mem: Mem, nodes: Nodes, va: nat, src: seq<byte>, x: nat, write: bool)
    ensures Open(WriteBytes(mem, nodes, va, src), nodes, x, write) <==> Open(mem, nodes, x, write)
  {
    WriteKeepsLeaf(mem, nodes, va, src, x / 4096);
    if Leaf(mem, nodes, x / 4096).Some? {
      WriteKeepsPage(mem, nodes, va, src, Leaf(mem, nodes, x / 4096).value.frame);
    }
  }

  // Frames that no page stands on are not touched.
  lemma {:induction false} WriteSpares(mem: Mem, nodes: Nodes, va: nat, src: seq<byte>, f: nat)
    requires f in mem && forall v: nat :: Leaf(mem, nodes, v).Some? ==> Leaf(mem, nodes, v).value.frame != f
    ensures f in WriteBytes(mem, nodes, va, src) && WriteBytes(mem, nodes, va, src)[f] == mem[f]
    decreases |src|
  {
    if |src| > 0 {
      var k := |src| - 1;
      WriteSpares(mem, nodes, va, src[..k], f);
      WriteKeepsLeaf(mem, nodes, va, src[..k], (va + k) / 4096);
    }
  }

  // Nor are those of other address spaces.
  lemma WriteSparesOthers(w: World, sh: Sharing, total: nat, r: nat, va: nat, src: seq<byte>, f: nat)
    requires WorldOk(w, sh, total) && r in w.trees && f in w.owner
    requires w.owner[f].InTree? && w.owner[f].root != r
    ensures f in w.mem && f in WriteBytes(w.mem, w.trees[r], va, src)
    ensures WriteBytes(w.mem, w.trees[r], va, src)[f] == w.mem[f]
  {
    forall v: nat | Leaf(w.mem, w.trees[r], v).Some? ensures Leaf(w.mem, w.trees[r], v).value.frame != f {
      LeafFrame(w, sh, total, r, v);
    }
    assert f < total;
    WriteSpares(w.mem, w.trees[r], va, src, f);
  }

  lemma {:induction false} WriteAppend(mem: Mem, nodes: Nodes, va: nat, a: seq<byte>, b: seq<byte>)
    ensures WriteBytes(mem, nodes, va, a + b) == WriteBytes(WriteBytes(mem, nodes, va, a), nodes, va + |a|, b)
    decreases |b|
  {
    if |b| == 0 {
      assert a + b == a;
    } else {
      WriteAppend(mem, nodes, va, a, b[..|b| - 1]);
      assert (a + b)[..|a + b| - 1] == a + b[..|b| - 1];
    }
  }

  // A write within one page is one replacement in the page's frame.
  lemma {:induction false} WriteInPage(mem: Mem, nodes: Nodes, va: nat, src: seq<byte>)
    requires va % 4096 + |src| <= 4096
    requires Leaf(mem, nodes, va / 4096).Some?
    requires Leaf(mem, nodes, va / 4096).value.frame in mem && IsPage(mem[Leaf(mem, nodes, va / 4096).value.frame])
    ensures var f := Leaf(mem, nodes, va / 4096).value.frame;
      WriteBytes(mem, nodes, va, src) ==
      mem[f := Bytes(mem[f].data[..va % 4096] + src + mem[f].data[va % 4096 + |src|..])]
    decreases |src|
  {
    var f := Leaf(mem, nodes, va / 4096).value.frame;
    var data := mem[f].data;
    var off := va % 4096;
    if |src| == 0 {
      assert data[..off] + src + data[off..] == data;
    } else {
      var k := |src| - 1;
      WriteInPage(mem, nodes, va, src[..k]);
      WriteKeepsLeaf(mem, nodes, va, src[..k], va / 4096);
      assert (va + k) / 4096 == va / 4096 && (va + k) % 4096 == off + k;
      assert (data[..off] + src[..k] + data[off + k..])[off + k := src[k]] == data[..off] + src + data[off + k + 1..];
    }
  }

  // No frame is mapped at two pages.
  ghost predicate Unaliased(mem: Mem, nodes: Nodes) {
    forall u: nat, v: nat {:trigger Leaf(mem, nodes, u), Leaf(mem, nodes, v)} ::
      Leaf(mem, nodes, u).Some? && Leaf(mem, nodes, v).Some? && u != v ==>
        Leaf(mem, nodes, u).value.frame != Leaf(mem, nodes, v).value.frame
  }

  lemma WriteKeepsUnaliased(mem: Mem, nodes: Nodes, va: nat, src: seq<byte>)
    requires Unaliased(mem, nodes)
    ensures Unaliased(WriteBytes(mem, nodes, va, src), nodes)
  {
    forall v: nat ensures Leaf(WriteBytes(mem, nodes, va, src), nodes, v) == Leaf(mem, nodes, v) {
      WriteKeepsLeaf(mem, nodes, va, src, v);
    }
  }

  lemma ReadAfterWriteByte(mem: Mem, nodes: Nodes, va: nat, b: byte, x: nat)
    requires Unaliased(mem, nodes) && Open(mem, nodes, va, false)
    ensures ReadByte(WriteByte(mem, nodes, va, b), nodes, x) == if x == va then b else ReadByte(mem, nodes, x)
  {
    WriteByteKeepsLeaf(mem, nodes, va, b, x / 4096);
  }

  // Reading a word byte by byte, or copying its bytes first.
  lemma {:induction false} WordOfBytes(mem: Mem, nodes: Nodes, va: nat, len: nat, j: nat, n: nat)
    requires j + n <= len
    ensures WordValue(ReadBytes(mem, nodes, va, len), j, n) == ReadWord(mem, nodes, va + j, n)
    decreases n
  {
    if n > 0 {
      WordOfBytes(mem, nodes, va, len, j + 1, n - 1);
    }
  }

  // Where no frame is mapped twice, memory behaves as an array of bytes: what was written is read back, and
  // every other byte is what it was.
  lemma {:induction false} ReadAfterWrite(mem: Mem, nodes: Nodes, va: nat, src: seq<byte>, x: nat)
    requires Unaliased(mem, nodes) && AllOpen(mem, nodes, va, |src|, false)
    ensures ReadByte(WriteBytes(mem, nodes, va, src), nodes, x) ==
      if va <= x < va + |src| then src[x - va] else ReadByte(mem, nodes, x)
    decreases |src|
  {
    if |src| > 0 {
      var k := |src| - 1;
      assert AllOpen(mem, nodes, va, k, false);
      ReadAfterWrite(mem, nodes, va, src[..k], x);
      WriteKeepsUnaliased(mem, nodes, va, src[..k]);
      assert Open(mem, nodes, va + k, false);
      WriteKeepsOpen(mem, nodes, va, src[..k], va + k, false);
      ReadAfterWriteByte(WriteBytes(mem, nodes, va, src[..k]), nodes, va + k, src[k], x);
    }
  }

  // What copy_to_user stored, copy_from_user fetches.
  lemma WriteThenRead(mem: Mem, nodes: Nodes, va: nat, src: seq<byte>)
    requires Unaliased(mem, nodes) && AllOpen(mem, nodes, va, |src|, false)
    ensures ReadBytes(WriteBytes(mem, nodes, va, src), nodes, va, |src|) == src
  {
    forall j: nat | j < |src| ensures ReadByte(WriteBytes(mem, nodes, va, src), nodes, va + j) == src[j] {
      ReadAfterWrite(mem, nodes, va, src, va + j);
    }
    SameBytes(WriteBytes(mem, nodes, va, src), nodes, va, src);
  }

  lemma SameBytes(mem: Mem, nodes: Nodes, va: nat, src: seq<byte>)
    requires forall j: nat {:trigger src[j]} :: j < |src| ==> ReadByte(mem, nodes, va + j) == src[j]
    ensures ReadBytes(mem, nodes, va, |src|) == src
  {
    var read := ReadBytes(mem, nodes, va, |src|);
    forall j | 0 <= j < |src| ensures read[j] == src[j] {
      assert read[j] == ReadByte(mem, nodes, va + j);
    }
  }

  // Private pages are never aliased.
  lemma PrivateUnaliased(w: World, sh: Sharing, total: nat, q: nat, u: nat, v: nat)
    requires WorldOk(w, sh, total) && q in w.trees && u != v
    requires Leaf(w.mem, w.trees[q], u).Some? && Leaf(w.mem, w.trees[q], v).Some?
    requires !IsShared(sh, Leaf(w.mem, w.trees[q], u).value.frame)
    ensures Leaf(w.mem, w.trees[q], u).value.frame != Leaf(w.mem, w.trees[q], v).value.frame
  {
    LeafFrame(w, sh, total, q, u);
    LeafFrame(w, sh, total, q, v);
  }

  /** What copy_to_user and copy_from_user accept: no bytes at all, or bytes between 4096 and the end of the user half.
      */
  lemma UserRange(addr: nat, len: nat)
    ensures RangeValid(addr, len) <==> len == 0 || (0x1000 <= addr && addr + len <= 0x8000_0000_0000)
  {
  }

  /** A word that is stored is the word that is read there. */
  lemma WordIsRead(mem: Mem, nodes: Nodes, va: nat, x: nat)
    requires Unaliased(mem, nodes) && AllOpen(mem, nodes, va, 8, false) && x < 0x1_0000_0000_0000_0000
    ensures ReadWord(WriteBytes(mem, nodes, va, WordBytes(x, 8)), nodes, va, 8) == x
  {
    var src := WordBytes(x, 8);
    var mem' := WriteBytes(mem, nodes, va, src);
    WriteThenRead(mem, nodes, va, src);
    ByteRangeOf8();
    WordRoundTrip(src, 0, x, 8);
    WordOfBytes(mem', nodes, va, 8, 0, 8);
  }

  // ---------------------------------------------------------------- the kernel's copying routines

  // What user_page_translate finds for a readable or writable user byte.
  lemma OpenTranslates(m: Machine, r: nat, va: nat, write: bool)
    requires m.Valid() && r in m.trees && va < USER_SPACE_LIMIT
    ensures Open(m.mem, m.trees[r], va, write) <==>
      var t := Translate(m.mem, r, va);
      t.Some? && t.value.flags.user && (write ==> t.value.flags.write)
    ensures Open(m.mem, m.trees[r], va, write) ==>
      var e := Leaf(m.mem, m.trees[r], va / 4096).value;
      && Translate(m.mem, r, va).value.phys == Address(e.frame) + va % 4096
      && e.frame != m.kernelRoot
      && (e.frame in m.owner && m.owner[e.frame].InTree? ==> m.owner[e.frame].node.level == 0)
  {
    m.ResolveFindsLeaf(r, va);
    if Leaf(m.mem, m.trees[r], va / 4096).Some? {
      LeafFrame(m.Now(), m.sh, m.pmm.totalFrames, r, va / 4096);
    }
  }

  /** Byte-wise memory is what the processor sees: a byte that user code may read is the one at the physical address to
      which its address translates. */
  lemma ByteIsWhereTranslated(m: Machine, r: nat, va: nat)
    requires m.Valid() && r in m.trees && va < USER_SPACE_LIMIT && Open(m.mem, m.trees[r], va, false)
    ensures var t := Translate(m.mem, r, va);
      && t.Some? && t.value.flags.user && t.value.phys / 4096 in m.mem && IsPage(m.mem[t.value.phys / 4096])
      && ReadByte(m.mem, m.trees[r], va) == m.mem[t.value.phys / 4096].data[t.value.phys % 4096]
  {
    OpenTranslates(m, r, va, false);
  }

  // Where the kernel finds a user byte: a pointer into the page's frame.
  ghost predicate PointsTo(mem: Mem, nodes: Nodes, va: nat, frame: nat, offset: nat) {
    var page := Leaf(mem, nodes, va / 4096);
    page.Some? && page.value.frame == frame && offset == va % 4096 && frame in mem && IsPage(mem[frame])
  }

  // The pointer behind an address, if user code may read it, and write it when `write` is set.
  method PageTranslate(m: Machine, r: nat, va: nat, write: bool) returns (ok: bool, frame: nat, offset: nat)
    requires m.Valid() && r in m.trees && va < USER_SPACE_LIMIT
    ensures ok <==> Open(m.mem, m.trees[r], va, write)
    ensures ok ==> PointsTo(m.mem, m.trees[r], va, frame, offset)
  {
    OpenTranslates(m, r, va, write);
    var rc, phys, flags := m.Resolve(r, va);
    frame, offset := phys / 4096, phys % 4096;
    ok := rc == 0 && flags.user && (write ==> flags.write);
  }

  lemma ChunkOpen(mem: Mem, nodes: Nodes, va: nat, chunk: nat, write: bool)
    requires Open(mem, nodes, va, write) && va % 4096 + chunk <= 4096
    ensures AllOpen(mem, nodes, va, chunk, write)
  {
    forall x: nat | va <= x < va + chunk ensures Open(mem, nodes, x, write) {
      assert x / 4096 == va / 4096;
    }
  }

  // After the first k bytes, of which the last stops at a page boundary or is the last of all.
  ghost predicate WrittenUpTo(w: World, w': World, r: nat, va: nat, src: seq<byte>, k: nat)
    requires r in w.trees && k <= |src|
  {
    && w'.owner == w.owner && w'.trees == w.trees
    && w'.mem == WriteBytes(w.mem, w.trees[r], va, src[..k])
    && AllOpen(w.mem, w.trees[r], va, k, true)
  }

  /** Copies kernel bytes to user memory.  `done` counts the bytes written, all of them on success. */
  method CopyToUser(m: Machine, r: nat, va: nat, src: seq<byte>) returns (rc: int, ghost done: nat)
    requires m.Valid() && r in m.trees
    modifies m`mem
    ensures m.Valid() && done <= |src| && WrittenUpTo(old(m.Now()), m.Now(), r, va, src, done)
    ensures rc == 0 || rc == -1
    ensures rc == 0 <==> RangeValid(va, |src|) && old(AllOpen(m.mem, m.trees[r], va, |src|, true))
    ensures rc == 0 ==> done == |src|
    ensures rc == -1 && RangeValid(va, |src|) ==> done < |src| && !old(Open(m.mem, m.trees[r], va + done, true))
    ensures !RangeValid(va, |src|) ==> done == 0
  {
    ghost var w := m.Now();
    ghost var nodes := m.trees[r];
    done := 0;
    assert src[..0] == [];
    if !RangeValid(va, |src|) {
      return -1, 0;
    }
    var at := 0;
    while at < |src|
      invariant at <= |src| && m.Valid() && WrittenUpTo(w, m.Now(), r, va, src, at)
    {
      var ok, frame, offset := PageTranslate(m, r, va + at, true);
      SameOpen(w, m.Now(), r, va, src, at, va + at, true);
      if !ok {
        return -1, at;
      }
      var chunk := 4096 - (va + at) % 4096;
      if chunk > |src| - at {
        chunk := |src| - at;
      }
      StoreChunk(m, w, r, va, src, at, chunk, frame, offset);
      at := at + chunk;
    }
    assert src[..|src|] == src;
    return 0, at;
  }

  lemma SameOpen(w: World, w': World, r: nat, va: nat, src: seq<byte>, k: nat, x: nat, write: bool)
    requires r in w.trees && k <= |src| && WrittenUpTo(w, w', r, va, src, k)
    ensures Open(w'.mem, w.trees[r], x, write) <==> Open(w.mem, w.trees[r], x, write)
  {
    WriteKeepsOpen(w.mem, w.trees[r], va, src[..k], x, write);
  }

  // One more chunk, stored as a single replacement in its frame, continues the byte-wise writing.
  lemma ChunkWritten(w: World, mid: World, w': World, r: nat, va: nat, src: seq<byte>, at: nat, chunk: nat)
    requires r in w.trees && at + chunk <= |src| && (va + at) % 4096 + chunk <= 4096
    requires WrittenUpTo(w, mid, r, va, src, at) && Open(mid.mem, w.trees[r], va + at, true)
    requires var f := Leaf(mid.mem, w.trees[r], (va + at) / 4096).value.frame;
      var data := mid.mem[f].data;
      var offset := (va + at) % 4096;
      w' == mid.(mem := mid.mem[f := Bytes(data[..offset] + src[at..at + chunk] + data[offset + chunk..])])
    ensures WrittenUpTo(w, w', r, va, src, at + chunk)
  {
    var nodes := w.trees[r];
    WriteInPage(mid.mem, nodes, va + at, src[at..at + chunk]);
    WriteAppend(w.mem, nodes, va, src[..at], src[at..at + chunk]);
    assert src[..at] + src[at..at + chunk] == src[..at + chunk];
    ChunkOpen(mid.mem, nodes, va + at, chunk, true);
    forall x: nat | va <= x < va + at + chunk ensures Open(w.mem, nodes, x, true) {
      SameOpen(w, mid, r, va, src, at, x, true);
    }
  }

  lemma MayStore(m: Machine, r: nat, va: nat, frame: nat, offset: nat)
    requires m.Valid() && r in m.trees && PointsTo(m.mem, m.trees[r], va, frame, offset)
    ensures frame != m.kernelRoot && (frame in m.owner && m.owner[frame].InTree? ==> m.owner[frame].node.level == 0)
  {
    LeafFrame(m.Now(), m.sh, m.pmm.totalFrames, r, va / 4096);
  }

  method StoreChunk(m: Machine, ghost w: World, ghost r: nat, ghost va: nat, src: seq<byte>, at: nat, chunk: nat,
                    frame: nat, offset: nat)
    requires m.Valid() && r in m.trees && r in w.trees && at + chunk <= |src| && offset + chunk <= 4096
    requires WrittenUpTo(w, m.Now(), r, va, src, at) && Open(m.mem, m.trees[r], va + at, true)
    requires PointsTo(m.mem, m.trees[r], va + at, frame, offset)
    modifies m`mem
    ensures m.Valid() && WrittenUpTo(w, m.Now(), r, va, src, at + chunk)
  {
    ghost var mid := m.Now();
    MayStore(m, r, va + at, frame, offset);
    var data := m.mem[frame].data;
    m.Store(frame, Bytes(data[..offset] + src[at..at + chunk] + data[offset + chunk..]));
    ChunkWritten(w, mid, m.Now(), r, va, src, at, chunk);
  }

  lemma ChunkRead(mem: Mem, nodes: Nodes, va: nat, at: nat, chunk: nat, f: nat, offset: nat)
    requires Open(mem, nodes, va + at, false) && PointsTo(mem, nodes, va + at, f, offset) && offset + chunk <= 4096
    requires AllOpen(mem, nodes, va, at, false)
    ensures ReadBytes(mem, nodes, va, at + chunk) == ReadBytes(mem, nodes, va, at) + mem[f].data[offset..offset + chunk]
    ensures AllOpen(mem, nodes, va, at + chunk, false)
  {
    forall x: nat | va + at <= x < va + at + chunk
      ensures ReadByte(mem, nodes, x) == mem[f].data[offset + (x - va - at)]
    {
      assert x / 4096 == (va + at) / 4096;
    }
    ChunkOpen(mem, nodes, va + at, chunk, false);
  }

  /** Copies user bytes into the kernel. */
  method CopyFromUser(m: Machine, r: nat, va: nat, len: nat) returns (rc: int, dst: seq<byte>)
    requires m.Valid() && r in m.trees
    ensures rc == 0 || rc == -1
    ensures rc == 0 <==> RangeValid(va, len) && AllOpen(m.mem, m.trees[r], va, len, false)
    ensures rc == 0 ==> dst == ReadBytes(m.mem, m.trees[r], va, len)
  {
    dst := [];
    if !RangeValid(va, len) {
      return -1, dst;
    }
    while |dst| < len
      invariant |dst| <= len && dst == ReadBytes(m.mem, m.trees[r], va, |dst|)
      invariant AllOpen(m.mem, m.trees[r], va, |dst|, false)
    {
      var ok, frame, offset := PageTranslate(m, r, va + |dst|, false);
      if !ok {
        return -1, dst;
      }
      var chunk := 4096 - (va + |dst|) % 4096;
      if chunk > len - |dst| {
        chunk := len - |dst|;
      }
      ChunkRead(m.mem, m.trees[r], va, |dst|, chunk, frame, offset);
      dst := dst + m.mem[frame].data[offset..offset + chunk];
    }
    rc := 0;
  }

  // ---------------------------------------------------------------- strings

  // The n bytes from va on are readable user bytes, none of them NUL.
  ghost predicate NoNul(mem: Mem, nodes: Nodes, va: nat, n: nat) {
    && va + n <= USER_SPACE_LIMIT
    && AllOpen(mem, nodes, va, n, false)
    && forall x: nat {:trigger ReadByte(mem, nodes, x)} :: va <= x < va + n ==> ReadByte(mem, nodes, x) != 0
  }

  // A string of length n starts at va: n readable bytes that are not NUL, then a readable NUL.
  ghost predicate StringAt(mem: Mem, nodes: Nodes, va: nat, n: nat) {
    && NoNul(mem, nodes, va, n) && va + n < USER_SPACE_LIMIT
    && Open(mem, nodes, va + n, false) && ReadByte(mem, nodes, va + n) == 0
  }

  /** In other words, the first NUL from va on is the one at va + n, and all is readable up to there. */
  lemma StringEndsAtFirstNul(mem: Mem, nodes: Nodes, va: nat, n: nat)
    ensures StringAt(mem, nodes, va, n) <==>
      va + n < 0x8000_0000_0000 &&
      forall x: nat :: va <= x <= va + n ==>
        Open(mem, nodes, x, false) && (ReadByte(mem, nodes, x) == 0 <==> x == va + n)
  {
  }

  lemma OneLength(mem: Mem, nodes: Nodes, va: nat, n: nat, k: nat)
    requires NoNul(mem, nodes, va, n) && StringAt(mem, nodes, va, k)
    ensures k >= n
  {
  }

  /** Copies from one page until a NUL, the end of the page or the end of the buffer. */
  method ScanPage(data: seq<byte>, offset: nat, chunk: nat, room: nat) returns (found: bool, part: seq<byte>)
    requires offset + chunk <= |data|
    ensures |part| <= chunk && |part| <= room && part == data[offset..offset + |part|]
    ensures found ==> |part| > 0 && part[|part| - 1] == 0
    ensures forall j :: 0 <= j < |part| - (if found then 1 else 0) ==> part[j] != 0
    ensures !found ==> |part| == chunk || |part| == room
  {
    part := [];
    var i := 0;
    while i < chunk && i < room
      invariant i <= chunk && i <= room && part == data[offset..offset + i]
      invariant forall j :: 0 <= j < i ==> part[j] != 0
    {
      var c := data[offset + i];
      part := part + [c];
      if c == 0 {
        return true, part;
      }
      i := i + 1;
    }
    found := false;
  }

  // What a scanned part of a page says about the string at va.
  lemma PartScanned(mem: Mem, nodes: Nodes, va: nat, at: nat, frame: nat, offset: nat, part: seq<byte>, found: bool)
    requires NoNul(mem, nodes, va, at) && va + at + |part| <= USER_SPACE_LIMIT && offset + |part| <= 4096
    requires Open(mem, nodes, va + at, false) && PointsTo(mem, nodes, va + at, frame, offset)
    requires part == mem[frame].data[offset..offset + |part|]
    requires found ==> |part| > 0 && part[|part| - 1] == 0
    requires forall j :: 0 <= j < |part| - (if found then 1 else 0) ==> part[j] != 0
    ensures ReadBytes(mem, nodes, va, at + |part|) == ReadBytes(mem, nodes, va, at) + part
    ensures if found then StringAt(mem, nodes, va, at + |part| - 1) else NoNul(mem, nodes, va, at + |part|)
  {
    ChunkRead(mem, nodes, va, at, |part|, frame, offset);
    forall x: nat | va + at <= x < va + at + |part| ensures ReadByte(mem, nodes, x) == part[x - va - at] {
      assert x / 4096 == (va + at) / 4096;
    }
  }

  // Up to here the string has no NUL and is copied.
  ghost predicate CopiedSoFar(mem: Mem, nodes: Nodes, va: nat, dst: seq<byte>) {
    NoNul(mem, nodes, va, |dst|) && dst == ReadBytes(mem, nodes, va, |dst|)
  }

  /** Goes on copying a string to the end of the page; `found` when its NUL was reached, `ok` unless stuck. */
  method CopyOnePage(m: Machine, r: nat, va: nat, dst: seq<byte>, maxLen: nat) returns (ok: bool, found: bool,
                                                                                        dst': seq<byte>)
    requires m.Valid() && r in m.trees && |dst| < maxLen && CopiedSoFar(m.mem, m.trees[r], va, dst)
    ensures PageCopied(m.mem, m.trees[r], va, maxLen, ok, found, dst, dst')
  {
    if va + |dst| >= USER_SPACE_LIMIT {
      return false, false, dst;
    }
    var frame, offset;
    ok, frame, offset := PageTranslate(m, r, va + |dst|, false);
    if !ok {
      return false, false, dst;
    }
    var chunk := 4096 - (va + |dst|) % 4096;
    var part;
    found, part := ScanPage(m.mem[frame].data, offset, chunk, maxLen - |dst|);
    PartCopied(m.mem, m.trees[r], va, maxLen, frame, offset, part, found, dst);
    dst' := dst + part;
  }

  ghost predicate PageCopied(mem: Mem, nodes: Nodes, va: nat, maxLen: nat, ok: bool, found: bool, dst: seq<byte>,
                             dst': seq<byte>) {
    if !ok then dst' == dst && (va + |dst| >= USER_SPACE_LIMIT || !Open(mem, nodes, va + |dst|, false))
    else
      && |dst| < |dst'| <= maxLen
      && if found then StringAt(mem, nodes, va, |dst'| - 1) && dst' == ReadBytes(mem, nodes, va, |dst'|)
         else CopiedSoFar(mem, nodes, va, dst')
  }

  lemma PartCopied(mem: Mem, nodes: Nodes, va: nat, maxLen: nat, frame: nat, offset: nat, part: seq<byte>, found: bool,
                   dst: seq<byte>)
    requires CopiedSoFar(mem, nodes, va, dst) && |dst| + |part| <= maxLen && 0 < |part| && offset + |part| <= 4096
    requires Open(mem, nodes, va + |dst|, false) && PointsTo(mem, nodes, va + |dst|, frame, offset)
    requires part == mem[frame].data[offset..offset + |part|]
    requires found ==> part[|part| - 1] == 0
    requires forall j :: 0 <= j < |part| - (if found then 1 else 0) ==> part[j] != 0
    requires va + |dst| < USER_SPACE_LIMIT
    ensures PageCopied(mem, nodes, va, maxLen, true, found, dst, dst + part)
  {
    PageEndsInside(va + |dst|, offset, |part|);
    PartScanned(mem, nodes, va, |dst|, frame, offset, part, found);
  }

  // The limit of the user half is a page boundary.
  lemma PageEndsInside(x: nat, offset: nat, n: nat)
    requires x < USER_SPACE_LIMIT && offset == x % 4096 && offset + n <= 4096
    ensures x + n <= USER_SPACE_LIMIT
  {
  }

  /** Copies a user string: its length, with dst holding it and its NUL; or -1. */
  method CopyStringFromUser(m: Machine, r: nat, va: nat, maxLen: nat) returns (rc: int, dst: seq<byte>)
    requires m.Valid() && r in m.trees
    ensures rc == -1 || rc >= 0
    ensures rc >= 0 ==> USER_MIN_ADDR <= va && rc < maxLen && StringAt(m.mem, m.trees[r], va, rc)
    ensures rc >= 0 ==> dst == ReadBytes(m.mem, m.trees[r], va, rc + 1)
    ensures rc == -1 && USER_MIN_ADDR <= va ==> NoneWithin(m.mem, m.trees[r], va, maxLen)
    ensures |dst| <= maxLen
  {
    dst := [];
    if maxLen == 0 || !RangeValid(va, 1) {
      return -1, dst;
    }
    while |dst| < maxLen
      invariant |dst| <= maxLen && CopiedSoFar(m.mem, m.trees[r], va, dst)
    {
      var ok, found;
      ok, found, dst := CopyOnePage(m, r, va, dst, maxLen);
      if !ok {
        NoneHere(m.mem, m.trees[r], va, |dst|, maxLen);
        return -1, dst;
      }
      if found {
        return |dst| - 1, dst;
      }
    }
    NoneHere(m.mem, m.trees[r], va, maxLen, maxLen);
    dst := dst[maxLen - 1 := 0];
    rc := -1;
  }

  // No string that starts at va ends within the first maxLen bytes.
  ghost predicate NoneWithin(mem: Mem, nodes: Nodes, va: nat, maxLen: nat) {
    forall k: nat :: StringAt(mem, nodes, va, k) ==> k >= maxLen
  }

  // Bytes without a NUL, up to the end of the buffer or up to a byte that cannot be read.
  lemma NoneHere(mem: Mem, nodes: Nodes, va: nat, n: nat, maxLen: nat)
    requires NoNul(mem, nodes, va, n)
    requires n >= maxLen || va + n >= USER_SPACE_LIMIT || !Open(mem, nodes, va + n, false)
    ensures NoneWithin(mem, nodes, va, maxLen)
  {
    forall k: nat | StringAt(mem, nodes, va, k) ensures k >= maxLen {
      OneLength(mem, nodes, va, n, k);
      assert k > n ==> Open(mem, nodes, va + n, false);
    }
  }
}
