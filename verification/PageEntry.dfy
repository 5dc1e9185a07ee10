/** Page-table entries and virtual page numbers.

    The kernel packs an entry into 64 bits: bit 0 to 11 are flags, bit 12 to 51 a frame number, bit 63 is
    no-execute.  The tree proofs use the unpacked `Entry`, whose frame number is not bounded; the module `PackedEntry`
    shows that on words with addresses of 52 bits the kernel's masks and ORs do what is done here to entries. */
module PageEntry {

  const PAGE_SIZE: nat := 4096
  const FANOUT: nat := 512

  // The lower half of the address space, in pages: USER_SPACE_LIMIT / PAGE_SIZE.
  const USER_PAGES: nat := 0x8_0000_0000

  newtype byte = x: int | 0 <= x < 256

  /** The low twelve bits of an entry, bit 0 first; VMM_PRESENT, VMM_WRITE, VMM_USER, VMM_PWT and VMM_PCD are
      the first five, and bit 7 marks a huge page. */
  datatype Flags = Flags(present: bool, write: bool, user: bool, writeThrough: bool, cacheDisable: bool,
                         accessed: bool, dirty: bool, huge: bool, global: bool, bit9: bool, bit10: bool, bit11: bool)

  const NO_FLAGS: Flags :=
    Flags(false, false, false, false, false, false, false, false, false, false, false, false)

  // VMM_PRESENT | VMM_USER, and with VMM_WRITE.
  const USER_READ: Flags := NO_FLAGS.(present := true, user := true)
  const USER_WRITE: Flags := USER_READ.(write := true)

  // a | b
  function Or(a: Flags, b: Flags): Flags {
    Flags(a.present || b.present, a.write || b.write, a.user || b.user, a.writeThrough || b.writeThrough,
          a.cacheDisable || b.cacheDisable, a.accessed || b.accessed, a.dirty || b.dirty, a.huge || b.huge,
          a.global || b.global, a.bit9 || b.bit9, a.bit10 || b.bit10, a.bit11 || b.bit11)
  }

  // All flags of `part` are among the flags of `whole`, leaving aside those that the processor sets on its own.
  predicate Covers(whole: Flags, part: Flags) {
    && (part.present ==> whole.present) && (part.write ==> whole.write) && (part.user ==> whole.user)
    && (part.writeThrough ==> whole.writeThrough) && (part.cacheDisable ==> whole.cacheDisable)
    && (part.huge ==> whole.huge) && (part.global ==> whole.global)
    && (part.bit9 ==> whole.bit9) && (part.bit10 ==> whole.bit10) && (part.bit11 ==> whole.bit11)
  }

  // What callers of the mapping code must pass: a present page of ordinary size.
  predicate MapFlags(f: Flags) {
    f.present && !f.huge
  }

  datatype Entry = Entry(frame: nat, low: Flags, nx: bool)

  const EMPTY: Entry := Entry(0, NO_FLAGS, false)

  predicate Present(e: Entry) {
    e.low.present
  }

  // Contents of a frame, by what it is used for.
  datatype Frame = Table(entries: seq<Entry>) | Bytes(data: seq<byte>)

  predicate IsTable(f: Frame) {
    f.Table? && |f.entries| == FANOUT
  }

  predicate IsPage(f: Frame) {
    f.Bytes? && |f.data| == PAGE_SIZE
  }

  // n copies of x, as memset and the clearing loops write them.
  function Fill<T>(n: nat, x: T): (r: seq<T>)
    ensures |r| == n && forall i :: 0 <= i < n ==> r[i] == x
  {
    if n == 0 then [] else Fill(n - 1, x) + [x]
  }

  function EmptyTable(): (f: Frame)
    ensures IsTable(f) && forall i :: 0 <= i < FANOUT ==> f.entries[i] == EMPTY
  {
    Table(Fill(FANOUT, EMPTY))
  }

  function ZeroPage(): (f: Frame)
    ensures IsPage(f) && forall i :: 0 <= i < PAGE_SIZE ==> f.data[i] == 0
  {
    Bytes(Fill(PAGE_SIZE, 0))
  }

  // The physical address of a frame.
  function Address(frame: nat): (a: nat)
    ensures a / 4096 == frame && a % 4096 == 0
    ensures a == 0 <==> frame == 0
  {
    frame * 4096
  }

  // The number of the 512^k-page region that holds region or page x.
  function Up(x: nat, k: nat): nat {
    if k == 0 then x
    else if k == 1 then x / 512
    else if k == 2 then x / 512 / 512
    else if k == 3 then x / 512 / 512 / 512
    else x / 512 / 512 / 512 / 512
  }

  lemma UpStep(x: nat, k: nat)
    requires k < 4
    ensures Up(x, k + 1) == Up(x, k) / 512
  {
  }
}
