/** Reading ELF64 executables: what the headers say, and the checks made before loading (System V gABI,
    chapter 4 "ELF Header" and chapter 5 "Program Header"). */
module Elf {
  import opened PageEntry
  import opened Words
  import opened Layout
  import opened PageTree

  const ENOEXEC: int := 8
  const EHDR_SIZE: nat := 64
  const PHDR_SIZE: nat := 56
  const MAX_PHNUM: nat := 64
  const MAX_SEGMENT: nat := 64 * 1024 * 1024
  const ELF_MAGIC: nat := 0x464C457F

  // A little-endian field of n bytes; 0 outside the file.
  function Field(data: seq<byte>, at: nat, n: nat): nat {
    if at + n <= |data| then WordValue(data, at, n) else 0
  }

  function Magic(data: seq<byte>): nat { Field(data, 0, 4) }
  function Class(data: seq<byte>): nat { Field(data, 4, 1) }
  function Encoding(data: seq<byte>): nat { Field(data, 5, 1) }
  function Type(data: seq<byte>): nat { Field(data, 16, 2) }
  function MachineId(data: seq<byte>): nat { Field(data, 18, 2) }
  function Entry(data: seq<byte>): nat { Field(data, 24, 8) }
  function PhOff(data: seq<byte>): nat { Field(data, 32, 8) }
  function PhEntSize(data: seq<byte>): nat { Field(data, 54, 2) }
  function PhNum(data: seq<byte>): nat { Field(data, 56, 2) }

  datatype Segment = Segment(kind: nat, flags: nat, offset: nat, vaddr: nat, filesz: nat, memsz: nat)

  function SegmentAt(data: seq<byte>, i: nat): Segment {
    var at := PhOff(data) + i * PHDR_SIZE;
    Segment(Field(data, at, 4), Field(data, at + 4, 4), Field(data, at + 8, 8), Field(data, at + 16, 8),
            Field(data, at + 32, 8), Field(data, at + 40, 8))
  }

  // The first n program headers.
  function Headers(data: seq<byte>, n: nat): (r: seq<Segment>)
    ensures |r| == n && forall i :: 0 <= i < n ==> r[i] == SegmentAt(data, i)
  {
    if n == 0 then [] else Headers(data, n - 1) + [SegmentAt(data, n - 1)]
  }

  function Segments(data: seq<byte>): seq<Segment> {
    Headers(data, PhNum(data))
  }

  // PF_X and PF_W are bits 0 and 1.
  predicate Executable(s: Segment) { s.flags % 2 == 1 }
  predicate Writable(s: Segment) { s.flags / 2 % 2 == 1 }

  predicate Loads(s: Segment) {
    s.kind == 1 && s.memsz != 0
  }

  // ---------------------------------------------------------------- which files are accepted

  predicate IdentOk(data: seq<byte>) {
    && |data| >= EHDR_SIZE
    && Magic(data) == ELF_MAGIC && Class(data) == 2 && Encoding(data) == 1
    && MachineId(data) == 0x3E && Type(data) == 2
  }

  predicate TableOk(data: seq<byte>) {
    && PhEntSize(data) == PHDR_SIZE && 0 < PhNum(data) <= MAX_PHNUM
    && PhOff(data) <= |data| && PhNum(data) * PHDR_SIZE <= |data| - PhOff(data)
    && USER_MIN_ADDR <= Entry(data) < USER_IMAGE_LIMIT
  }

  predicate HeaderOk(data: seq<byte>) {
    IdentOk(data) && TableOk(data)
  }

  // The segment's file part lies in the file, and the segment below the limit for images.
  predicate SegmentOk(s: Segment, size: nat) {
    && s.filesz <= s.memsz <= MAX_SEGMENT
    && s.offset <= size && s.filesz <= size - s.offset
    && USER_MIN_ADDR <= s.vaddr < USER_IMAGE_LIMIT
    && s.memsz <= USER_IMAGE_LIMIT - s.vaddr
  }

  predicate HoldsEntry(s: Segment, entry: nat) {
    Loads(s) && Executable(s) && s.vaddr <= entry < s.vaddr + s.memsz
  }

  predicate AllOk(segs: seq<Segment>, size: nat) {
    forall i :: 0 <= i < |segs| && Loads(segs[i]) ==> SegmentOk(segs[i], size)
  }

  predicate SomeHoldsEntry(segs: seq<Segment>, entry: nat) {
    exists i :: 0 <= i < |segs| && HoldsEntry(segs[i], entry)
  }

  predicate ElfOk(data: seq<byte>) {
    HeaderOk(data) && AllOk(Segments(data), |data|) && SomeHoldsEntry(Segments(data), Entry(data))
  }

  /** 0 exactly for the files that satisfy ElfOk. */
  method Validate(data: seq<byte>) returns (rc: int)
    ensures rc == if ElfOk(data) then 0 else -ENOEXEC
  {
    var identOk := ValidateIdent(data);
    if !identOk {
      return -ENOEXEC;
    }
    var tableOk := ValidateTable(data);
    if !tableOk {
      return -ENOEXEC;
    }
    var ok := ValidateSegments(Segments(data), |data|, Entry(data));
    rc := if ok then 0 else -ENOEXEC;
  }

  method ValidateIdent(data: seq<byte>) returns (ok: bool)
    ensures ok <==> IdentOk(data)
  {
    if |data| < EHDR_SIZE {
      return false;
    }
    if Magic(data) != ELF_MAGIC || Class(data) != 2 || Encoding(data) != 1 {
      return false;
    }
    if MachineId(data) != 0x3E || Type(data) != 2 {
      return false;
    }
    ok := true;
  }

  method ValidateTable(data: seq<byte>) returns (ok: bool)
    ensures ok <==> TableOk(data)
  {
    if PhEntSize(data) != PHDR_SIZE || PhNum(data) == 0 || PhNum(data) > MAX_PHNUM {
      return false;
    }
    if PhOff(data) > |data| || PhNum(data) * PHDR_SIZE > |data| - PhOff(data) {
      return false;
    }
    if Entry(data) < USER_MIN_ADDR || Entry(data) >= USER_IMAGE_LIMIT {
      return false;
    }
    ok := true;
  }

  method ValidateSegments(segs: seq<Segment>, size: nat, entry: nat) returns (ok: bool)
    ensures ok <==> AllOk(segs, size) && SomeHoldsEntry(segs, entry)
  {
    var loads := 0;
    var entryOk := false;
    for i := 0 to |segs|
      invariant AllOk(segs[..i], size)
      invariant entryOk <==> SomeHoldsEntry(segs[..i], entry)
      invariant loads >= 0 && (entryOk ==> loads > 0)
    {
      var s := segs[i];
      assert segs[..i + 1] == segs[..i] + [s];
      if Loads(s) {
        var good := CheckSegment(s, size);
        if !good {
          return false;
        }
        if Executable(s) && entry >= s.vaddr && entry < s.vaddr + s.memsz {
          entryOk := true;
        }
        loads := loads + 1;
      }
      assert HoldsEntry(s, entry) ==> entryOk;
    }
    assert segs[..|segs|] == segs;
    ok := loads != 0 && entryOk;
  }

  method CheckSegment(s: Segment, size: nat) returns (ok: bool)
    ensures ok <==> SegmentOk(s, size)
  {
    if s.filesz > s.memsz || s.memsz > MAX_SEGMENT {
      return false;
    }
    if s.offset > size || s.filesz > size - s.offset {
      return false;
    }
    if s.vaddr < USER_MIN_ADDR || s.vaddr >= USER_IMAGE_LIMIT {
      return false;
    }
    if s.memsz > USER_IMAGE_LIMIT - s.vaddr {
      return false;
    }
    ok := true;
  }

  // ---------------------------------------------------------------- what a file means as a memory image

  function FirstPage(s: Segment): nat { s.vaddr / 4096 }
  function EndPage(s: Segment): nat { PageUp(s.vaddr + s.memsz) }

  predicate CoversPage(s: Segment, u: nat) {
    Loads(s) && FirstPage(s) <= u < EndPage(s)
  }

  // Address x lies in the part of the segment that comes from the file.
  predicate InFilePart(s: Segment, x: nat) {
    Loads(s) && s.vaddr <= x < s.vaddr + s.filesz
  }

  // Byte x of the image: from the last segment whose file part covers x, else 0.
  function ImageByte(data: seq<byte>, segs: seq<Segment>, x: nat): byte
    decreases |segs|
  {
    if |segs| == 0 then 0
    else
      var s := segs[|segs| - 1];
      if InFilePart(s, x) && s.offset + (x - s.vaddr) < |data| then data[s.offset + (x - s.vaddr)]
      else ImageByte(data, segs[..|segs| - 1], x)
  }

  datatype Rights = Rights(write: bool, nx: bool)

  // Whether page u of the image is mapped, and how: writable if one of the segments on it is; not executable
  // only if a single segment, not executable, lies on it and the processor has NX.
  function PageRights(segs: seq<Segment>, u: nat, nxOn: bool): (r: Option<Rights>)
    decreases |segs|
  {
    if |segs| == 0 then None
    else
      var s := segs[|segs| - 1];
      var before := PageRights(segs[..|segs| - 1], u, nxOn);
      if !CoversPage(s, u) then before
      else if before.None? then Some(Rights(Writable(s), !Executable(s) && nxOn))
      else Some(Rights(before.value.write || Writable(s), false))
  }

  // The end of the highest loaded segment that is executable, or is not.
  function HighestEnd(segs: seq<Segment>, exec: bool): nat
    decreases |segs|
  {
    if |segs| == 0 then 0
    else
      var s := segs[|segs| - 1];
      var before := HighestEnd(segs[..|segs| - 1], exec);
      if Loads(s) && Executable(s) == exec && s.vaddr + s.memsz > before then s.vaddr + s.memsz else before
  }

  const UINTPTR_MAX: nat := 0xFFFF_FFFF_FFFF_FFFF

  function LowestStart(segs: seq<Segment>, exec: bool): nat
    decreases |segs|
  {
    if |segs| == 0 then UINTPTR_MAX
    else
      var s := segs[|segs| - 1];
      var before := LowestStart(segs[..|segs| - 1], exec);
      if Loads(s) && Executable(s) == exec && s.vaddr < before then s.vaddr else before
  }

  // The heap starts on the first page boundary above all segments.
  function HeapStart(segs: seq<Segment>): nat {
    var code, other := HighestEnd(segs, true), HighestEnd(segs, false);
    4096 * PageUp(if code > other then code else other)
  }

  // How many pages the segments have, counting a page once for each segment on it.
  function PageCount(segs: seq<Segment>): nat
    decreases |segs|
  {
    if |segs| == 0 then 0
    else
      var s := segs[|segs| - 1];
      PageCount(segs[..|segs| - 1]) + (if Loads(s) && EndPage(s) > FirstPage(s) then EndPage(s) - FirstPage(s) else 0)
  }

  // Pages that no segment lies on have no file bytes.
  lemma {:induction false} UnmappedIsZero(data: seq<byte>, segs: seq<Segment>, u: nat, nxOn: bool, x: nat)
    requires AllOk(segs, |data|) && PageRights(segs, u, nxOn).None? && x / 4096 == u
    ensures ImageByte(data, segs, x) == 0
    decreases |segs|
  {
    if |segs| > 0 {
      var s := segs[|segs| - 1];
      assert !CoversPage(s, u);
      UnmappedIsZero(data, segs[..|segs| - 1], u, nxOn, x);
    }
  }

  // Every page of the image lies between the lowest user page and the start of the heap.
  lemma {:induction false} ImageBelowHeap(segs: seq<Segment>, size: nat, u: nat, nxOn: bool)
    requires AllOk(segs, size) && PageRights(segs, u, nxOn).Some?
    ensures 1 <= u < USER_IMAGE_LIMIT / 4096 && 4096 * u < HeapStart(segs)
    decreases |segs|
  {
    var s := segs[|segs| - 1];
    if CoversPage(s, u) {
      assert SegmentOk(s, size);
    } else {
      ImageBelowHeap(segs[..|segs| - 1], size, u, nxOn);
    }
  }

  // In an accepted file the page of the entry point is mapped, and executable.
  lemma {:induction false} EntryExecutable(segs: seq<Segment>, entry: nat, nxOn: bool)
    requires SomeHoldsEntry(segs, entry)
    ensures var r := PageRights(segs, entry / 4096, nxOn);
      r.Some? && !r.value.nx
    decreases |segs|
  {
    var i :| 0 <= i < |segs| && HoldsEntry(segs[i], entry);
    if i == |segs| - 1 {
      assert CoversPage(segs[i], entry / 4096);
    } else {
      assert segs[..|segs| - 1][i] == segs[i];
      EntryExecutable(segs[..|segs| - 1], entry, nxOn);
    }
  }

  // ---------------------------------------------------------------- the same in terms of the file's bytes

  /** Program header i: p_type, p_flags, p_offset, p_vaddr, p_filesz and p_memsz, in the order in which ELF64 has them
      (System V gABI, chapter 5 "Program Header"). */
  lemma ProgramHeader(data: seq<byte>, i: nat)
    requires i < PhNum(data) && PhOff(data) + 56 * (i + 1) <= |data|
    ensures |Segments(data)| == PhNum(data)
    ensures var at, s := PhOff(data) + 56 * i, Segments(data)[i];
      && s.kind == WordValue(data, at, 4) && s.flags == WordValue(data, at + 4, 4)
      && s.offset == WordValue(data, at + 8, 8) && s.vaddr == WordValue(data, at + 16, 8)
      && s.filesz == WordValue(data, at + 32, 8) && s.memsz == WordValue(data, at + 40, 8)
  {
    assert Segments(data)[i] == SegmentAt(data, i);
  }

  lemma {:induction false} OneByte(data: seq<byte>, at: nat)
    requires at < |data|
    ensures WordValue(data, at, 1) == data[at] as nat
  {
    assert WordValue(data, at + 1, 0) == 0;
  }

  /** Which headers are accepted: the ELF magic, 64 bits, little-endian, ET_EXEC for EM_X86_64, 1 to 64 program headers
      of 56 bytes that lie in the file, and an entry point below the limit for images (System V gABI, chapter 4 "ELF
      Header"). */
  lemma FileHeader(data: seq<byte>)
    ensures |data| >= 64 ==>
      && Entry(data) == WordValue(data, 24, 8) && PhOff(data) == WordValue(data, 32, 8)
      && PhNum(data) == WordValue(data, 56, 2)
    ensures HeaderOk(data) <==> (
      && |data| >= 64 && data[0..4] == [0x7F, 0x45, 0x4C, 0x46] && data[4] == 2 && data[5] == 1
      && data[16..18] == [2, 0] && data[18..20] == [0x3E, 0]
      && WordValue(data, 54, 2) == 56 && 1 <= PhNum(data) <= 64 && PhOff(data) + 56 * PhNum(data) <= |data|
      && 0x1000 <= Entry(data) < 0x7FFE_0000_0000)
  {
    if |data| >= 64 {
      MagicBytes(data);
      OneByte(data, 4);
      OneByte(data, 5);
      TwoBytes(data, 16, 2);
      TwoBytes(data, 18, 0x3E);
    }
  }

  lemma MagicBytes(data: seq<byte>)
    requires |data| >= 4
    ensures Magic(data) == ELF_MAGIC <==> data[0..4] == [0x7F, 0x45, 0x4C, 0x46]
  {
    FourBytes(data, 0);
    var four: seq<byte> := [0x7F, 0x45, 0x4C, 0x46];
    assert data[0..4] == four ==> data[0] == four[0] && data[1] == four[1] && data[2] == four[2] && data[3] == four[3];
  }

  lemma TwoBytes(data: seq<byte>, at: nat, x: byte)
    requires at + 4 <= |data|
    ensures WordValue(data, at, 2) == x as nat <==> data[at..at + 2] == [x, 0]
  {
    FourBytes(data, at);
    var two: seq<byte> := [x, 0];
    assert data[at..at + 2] == two ==> data[at] == two[0] && data[at + 1] == two[1];
  }

  // Segment s is loaded, and lies at least in part on page u.
  predicate Touches(s: Segment, u: nat) {
    s.kind == 1 && s.memsz > 0 && s.vaddr < 4096 * u + 4096 && 4096 * u < s.vaddr + s.memsz
  }

  /** Which segments are accepted: file part inside the file and no larger than the segment, the segment between 4096
      and the limit for images and of at most 64 MB; and one that holds the entry point is executable. */
  lemma AcceptedSegments(data: seq<byte>)
    ensures var segs, entry := Segments(data), Entry(data);
      ElfOk(data) <==> (
        && HeaderOk(data)
        && (forall i :: 0 <= i < |segs| && segs[i].kind == 1 && segs[i].memsz > 0 ==>
              && segs[i].filesz <= segs[i].memsz <= 0x400_0000 && segs[i].offset + segs[i].filesz <= |data|
              && 0x1000 <= segs[i].vaddr && segs[i].vaddr + segs[i].memsz <= 0x7FFE_0000_0000)
        && (exists i :: 0 <= i < |segs| && segs[i].kind == 1 && segs[i].flags % 2 == 1
                        && segs[i].vaddr <= entry < segs[i].vaddr + segs[i].memsz))
  {
    var segs, entry := Segments(data), Entry(data);
    forall i | 0 <= i < |segs| && segs[i].kind == 1 && segs[i].flags % 2 == 1
      && segs[i].vaddr <= entry < segs[i].vaddr + segs[i].memsz
      ensures HoldsEntry(segs[i], entry)
    {
    }
  }

  /** A byte of the image is the file's, p_offset on from where its segment begins, if a file part covers it; of several
      the last one counts. */
  lemma {:induction false} CoveredByte(data: seq<byte>, segs: seq<Segment>, i: nat, x: nat)
    requires i < |segs| && segs[i].kind == 1 && segs[i].memsz > 0 && segs[i].vaddr <= x < segs[i].vaddr + segs[i].filesz
    requires segs[i].offset + segs[i].filesz <= |data|
    requires forall j :: i < j < |segs| && segs[j].kind == 1 && segs[j].memsz > 0 ==>
               !(segs[j].vaddr <= x < segs[j].vaddr + segs[j].filesz)
    ensures ImageByte(data, segs, x) == data[segs[i].offset + (x - segs[i].vaddr)]
    decreases |segs|
  {
    if i < |segs| - 1 {
      CoveredByte(data, segs[..|segs| - 1], i, x);
    }
  }

  lemma {:induction false} UncoveredByte(data: seq<byte>, segs: seq<Segment>, x: nat)
    requires forall j :: 0 <= j < |segs| && segs[j].kind == 1 && segs[j].memsz > 0 ==>
               !(segs[j].vaddr <= x < segs[j].vaddr + segs[j].filesz)
    ensures ImageByte(data, segs, x) == 0
    decreases |segs|
  {
    if |segs| > 0 {
      UncoveredByte(data, segs[..|segs| - 1], x);
    }
  }

  predicate SomeTouches(segs: seq<Segment>, u: nat) {
    exists i :: 0 <= i < |segs| && Touches(segs[i], u)
  }

  // A segment with PF_W lies on page u.
  predicate SomeWrites(segs: seq<Segment>, u: nat) {
    exists i :: 0 <= i < |segs| && Touches(segs[i], u) && segs[i].flags / 2 % 2 == 1
  }

  // Just one segment lies on page u, and it lacks PF_X.
  predicate OnlyData(segs: seq<Segment>, u: nat) {
    exists i :: 0 <= i < |segs| && Touches(segs[i], u) && segs[i].flags % 2 == 0 && Alone(segs, i, u)
  }

  predicate Alone(segs: seq<Segment>, i: nat, u: nat) {
    forall j :: 0 <= j < |segs| && Touches(segs[j], u) ==> j == i
  }

  lemma OneTouchesMore(segs: seq<Segment>, s: Segment, u: nat)
    ensures SomeTouches(segs + [s], u) <==> SomeTouches(segs, u) || Touches(s, u)
    ensures SomeWrites(segs + [s], u) <==> SomeWrites(segs, u) || (Touches(s, u) && s.flags / 2 % 2 == 1)
  {
    var more := segs + [s];
    if i: nat :| i < |segs| && Touches(segs[i], u) {
      assert more[i] == segs[i];
    }
    if i: nat :| i < |segs| && Touches(segs[i], u) && segs[i].flags / 2 % 2 == 1 {
      assert more[i] == segs[i];
    }
    assert more[|segs|] == s;
  }

  lemma OneAloneMore(segs: seq<Segment>, s: Segment, u: nat)
    ensures OnlyData(segs + [s], u) <==>
      if Touches(s, u) then !SomeTouches(segs, u) && s.flags % 2 == 0 else OnlyData(segs, u)
  {
    var more := segs + [s];
    assert more[|segs|] == s;
    if !Touches(s, u) {
      forall i: nat | i < |segs| ensures Alone(more, i, u) <==> Alone(segs, i, u) {
        assert forall j :: 0 <= j < |segs| ==> more[j] == segs[j];
      }
    } else if i: nat :| i < |segs| && Touches(segs[i], u) {
      assert more[i] == segs[i];
    }
  }

  /** A page is mapped exactly if a segment lies on it, and writable exactly if one with PF_W does; it is kept from
      being executed exactly if the processor can, just one segment lies on it, and that one lacks PF_X. */
  lemma {:induction false} RightsOfPage(segs: seq<Segment>, u: nat, nxOn: bool)
    ensures var r := PageRights(segs, u, nxOn);
      && (r.Some? <==> SomeTouches(segs, u))
      && (r.Some? ==> (r.value.write <==> SomeWrites(segs, u)) && (r.value.nx <==> nxOn && OnlyData(segs, u)))
    decreases |segs|
  {
    if |segs| > 0 {
      var before, s := segs[..|segs| - 1], segs[|segs| - 1];
      assert segs == before + [s];
      RightsOfPage(before, u, nxOn);
      OneTouchesMore(before, s, u);
      OneAloneMore(before, s, u);
      assert CoversPage(s, u) <==> Touches(s, u);
    }
  }

  /** The heap starts on the first page boundary that no loaded segment reaches beyond. */
  lemma HeapBehindSegments(segs: seq<Segment>)
    ensures HeapStart(segs) % 4096 == 0
    ensures forall i :: 0 <= i < |segs| && segs[i].kind == 1 && segs[i].memsz > 0 ==>
              segs[i].vaddr + segs[i].memsz <= HeapStart(segs)
    ensures HeapStart(segs) > 0 ==>
              exists i :: 0 <= i < |segs| && segs[i].kind == 1 && segs[i].memsz > 0
                && HeapStart(segs) < segs[i].vaddr + segs[i].memsz + 4096
  {
    EndsBelow(segs, true);
    EndsBelow(segs, false);
  }

  lemma {:induction false} EndsBelow(segs: seq<Segment>, exec: bool)
    ensures forall i ::
              0 <= i < |segs| && segs[i].kind == 1 && segs[i].memsz > 0 && (segs[i].flags % 2 == 1) == exec ==>
              segs[i].vaddr + segs[i].memsz <= HighestEnd(segs, exec)
    ensures HighestEnd(segs, exec) > 0 ==>
              exists i :: 0 <= i < |segs| && segs[i].kind == 1 && segs[i].memsz > 0 && (segs[i].flags % 2 == 1) == exec
                && HighestEnd(segs, exec) == segs[i].vaddr + segs[i].memsz
    decreases |segs|
  {
    if |segs| > 0 {
      EndsBelow(segs[..|segs| - 1], exec);
    }
  }

  lemma {:induction false} StartsAbove(segs: seq<Segment>, exec: bool)
    ensures forall i ::
              0 <= i < |segs| && segs[i].kind == 1 && segs[i].memsz > 0 && (segs[i].flags % 2 == 1) == exec ==>
              LowestStart(segs, exec) <= segs[i].vaddr
    ensures LowestStart(segs, exec) < UINTPTR_MAX ==>
              exists i :: 0 <= i < |segs| && segs[i].kind == 1 && segs[i].memsz > 0 && (segs[i].flags % 2 == 1) == exec
                && LowestStart(segs, exec) == segs[i].vaddr
    ensures LowestStart(segs, exec) <= UINTPTR_MAX
    decreases |segs|
  {
    if |segs| > 0 {
      StartsAbove(segs[..|segs| - 1], exec);
    }
  }
}
