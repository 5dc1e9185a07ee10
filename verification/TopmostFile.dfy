/** An executable file whose one segment ends right below the signal trampoline.  The kernel accepts it, and its heap
    begins where the trampoline is. */
module TopmostFile {
  import opened PageEntry
  import opened Words
  import opened Layout
  import Elf

  const VADDR: nat := USER_IMAGE_LIMIT - 4096
  const FIELDS: nat := 22

  // The fields of the file in order: the ELF header, and from number 14 on the one program header.
  datatype Field = Field(value: nat, size: nat)

  function FieldNo(i: nat): Field {
    match i
    case 0 => Field(Elf.ELF_MAGIC, 4)
    case 1 => Field(2, 1)                  // 64 bits
    case 2 => Field(1, 1)                  // little-endian
    case 3 => Field(1, 10)                 // the rest of e_ident
    case 4 => Field(2, 2)                  // e_type
    case 5 => Field(0x3E, 2)               // e_machine
    case 6 => Field(1, 4)                  // e_version
    case 7 => Field(VADDR, 8)              // e_entry
    case 8 => Field(Elf.EHDR_SIZE, 8)      // e_phoff
    case 9 => Field(0, 12)                 // e_shoff, e_flags
    case 10 => Field(Elf.EHDR_SIZE, 2)     // e_ehsize
    case 11 => Field(Elf.PHDR_SIZE, 2)     // e_phentsize
    case 12 => Field(1, 2)                 // e_phnum
    case 13 => Field(0, 6)                 // no sections
    case 14 => Field(1, 4)                 // p_type: PT_LOAD
    case 15 => Field(5, 4)                 // p_flags: read and execute
    case 16 => Field(0, 8)                 // p_offset
    case 17 => Field(VADDR, 8)             // p_vaddr
    case 18 => Field(VADDR, 8)             // p_paddr
    case 19 => Field(0, 8)                 // p_filesz
    case 20 => Field(4096, 8)              // p_memsz
    case _ => Field(4096, 8)               // p_align
  }

  // Where field i begins, and the file up to there.
  function Offset(i: nat): nat {
    if i == 0 then 0 else Offset(i - 1) + FieldNo(i - 1).size
  }

  function UpTo(i: nat): (r: seq<byte>)
    ensures |r| == Offset(i)
    decreases i, 0
  {
    if i == 0 then [] else UpTo(i - 1) + WordBytes(FieldNo(i - 1).value, FieldNo(i - 1).size)
  }

  lemma {:induction false} FieldIsThere(i: nat, n: nat)
    requires i < n && FieldNo(i).value < ByteRange(FieldNo(i).size)
    ensures Offset(i) + FieldNo(i).size <= |UpTo(n)|
    ensures Elf.Field(UpTo(n), Offset(i), FieldNo(i).size) == FieldNo(i).value
    decreases n
  {
    var last := WordBytes(FieldNo(n - 1).value, FieldNo(n - 1).size);
    if i == n - 1 {
      FieldAdded(UpTo(i), FieldNo(i).value, FieldNo(i).size);
    } else {
      FieldIsThere(i, n - 1);
      FieldKept(UpTo(n - 1), last, Offset(i), FieldNo(i).size);
    }
  }

  lemma FieldAdded(before: seq<byte>, x: nat, n: nat)
    requires x < ByteRange(n)
    ensures Elf.Field(before + WordBytes(x, n), |before|, n) == x
  {
    WordAppended(before, x, n);
  }

  lemma FieldKept(before: seq<byte>, more: seq<byte>, at: nat, n: nat)
    requires at + n <= |before|
    ensures Elf.Field(before + more, at, n) == Elf.Field(before, at, n)
  {
    WordWithin(before + more, 0, before, at, n);
  }

  // Field i of file d is what it should be.
  ghost predicate FieldOk(d: seq<byte>, i: nat) {
    Offset(i) + FieldNo(i).size <= |d| && Elf.Field(d, Offset(i), FieldNo(i).size) == FieldNo(i).value
  }

  ghost predicate HasFields(d: seq<byte>) {
    && |d| == Offset(FIELDS)
    && forall i: nat {:trigger FieldOk(d, i)} ::
         i < FIELDS && FieldNo(i).value < ByteRange(FieldNo(i).size) ==> FieldOk(d, i)
  }

  lemma MakeFile(n: nat) returns (d: seq<byte>)
    requires n == FIELDS
    ensures HasFields(d)
  {
    d := UpTo(n);
    forall i: nat | i < n && FieldNo(i).value < ByteRange(FieldNo(i).size) ensures FieldOk(d, i) {
      FieldIsThere(i, n);
    }
  }

  lemma IdentFields(d: seq<byte>)
    requires HasFields(d)
    ensures |d| == 120 && Elf.IdentOk(d)
  {
    FileSize(d);
    assert ByteRange(2) == 0x1_0000;
    assert ByteRange(4) == 0x1_0000_0000;
    assert FieldOk(d, 0) && FieldOk(d, 1) && FieldOk(d, 2) && FieldOk(d, 4) && FieldOk(d, 5);
  }

  lemma TableFields(d: seq<byte>)
    requires HasFields(d)
    ensures |d| == 120 && Elf.Entry(d) == VADDR && Elf.PhOff(d) == 64 && Elf.PhEntSize(d) == 56 && Elf.PhNum(d) == 1
  {
    FileSize(d);
    ByteRangeOf8();
    assert FieldOk(d, 7) && FieldOk(d, 8) && FieldOk(d, 11) && FieldOk(d, 12);
  }

  // The one segment: a page of zeros, read and execute, at the top.
  function TheSegment(): Elf.Segment {
    Elf.Segment(1, 5, 0, VADDR, 0, 4096)
  }

  lemma SegmentFields(d: seq<byte>)
    requires HasFields(d)
    ensures Elf.Field(d, 64, 4) == 1 && Elf.Field(d, 68, 4) == 5 && Elf.Field(d, 72, 8) == 0
    ensures Elf.Field(d, 80, 8) == VADDR && Elf.Field(d, 96, 8) == 0 && Elf.Field(d, 104, 8) == 4096
  {
    ByteRangeOf8();
    SegmentOffsets();
    assert ByteRange(4) == 0x1_0000_0000;
    assert FieldOk(d, 14) && FieldOk(d, 15) && FieldOk(d, 16) && FieldOk(d, 17) && FieldOk(d, 19) && FieldOk(d, 20);
  }

  lemma SegmentOffsets()
    ensures Offset(14) == 64 && Offset(15) == 68 && Offset(16) == 72 && Offset(17) == 80 && Offset(19) == 96
    ensures Offset(20) == 104
  {
    assert Offset(7) == 24;
  }

  lemma OneSegment(d: seq<byte>)
    requires HasFields(d)
    ensures Elf.Segments(d) == [TheSegment()]
  {
    TableFields(d);
    SegmentFields(d);
    assert Elf.SegmentAt(d, 0) == TheSegment();
  }

  lemma HeaderAccepted(d: seq<byte>)
    requires HasFields(d)
    ensures Elf.HeaderOk(d) && Elf.Entry(d) == VADDR
  {
    IdentFields(d);
    TableFields(d);
  }

  lemma SegmentAccepted()
    ensures Elf.AllOk([TheSegment()], 120) && Elf.SomeHoldsEntry([TheSegment()], VADDR)
  {
    assert Elf.HoldsEntry([TheSegment()][0], VADDR);
  }

  /** The kernel accepts the file, but its heap cannot grow to USER_HEAP_MAX without meeting the trampoline. */
  lemma AcceptedWithoutRoom() returns (d: seq<byte>)
    ensures Elf.ElfOk(d)
    ensures Elf.HeapStart(Elf.Segments(d)) + USER_HEAP_MAX > USER_SIGTRAMP_VIRT
  {
    d := MakeFile(FIELDS);
    HeaderAccepted(d);
    OneSegment(d);
    SegmentAccepted();
    HeapAtTop();
    FileSize(d);
  }

  lemma FileSize(d: seq<byte>)
    requires HasFields(d)
    ensures |d| == 120
  {
    assert Offset(7) == 24 && Offset(14) == 64;
    assert Offset(22) == 120;
  }

  lemma HeapAtTop()
    ensures Elf.HeapStart([TheSegment()]) + USER_HEAP_MAX > USER_SIGTRAMP_VIRT
  {
    assert [TheSegment()][..0] == [];
    assert Elf.HighestEnd([TheSegment()], true) == USER_IMAGE_LIMIT;
  }
}
