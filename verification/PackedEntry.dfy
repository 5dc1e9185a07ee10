/** Page-table entries as the kernel packs them into 64-bit words: its masks, shifts and ORs do to the words what
    the proofs about page tables do to unpacked entries. */
module PackedEntry {
  import opened PageEntry
  import opened PageTree

  const VMM_NX: bv64 := 0x8000_0000_0000_0000
  const CLEAR_FLAGS: bv64 := 0x000F_FFFF_FFFF_F000
  const LOW_MASK: bv64 := 0xFFF

  function NxBit(nx: bool): bv64 {
    if nx then VMM_NX else 0
  }

  // The word for the frame at an address, with flags and the no-execute bit.
  function Word(address: bv64, low: bv12, nx: bool): bv64 {
    address | (low as bv64) | NxBit(nx)
  }

  // A frame's address has neither flags nor the bits above bit 51.
  predicate IsAddress(address: bv64) {
    address & CLEAR_FLAGS == address
  }

  // ---------------------------------------------------------------- words

  lemma AddressGone(a: bv64)
    requires IsAddress(a)
    ensures a & VMM_NX == 0
  {
  }

  lemma LowGone(low: bv12)
    ensures (low as bv64) & CLEAR_FLAGS == 0 && (low as bv64) & VMM_NX == 0
  {
  }

  lemma LowKept(low: bv12)
    ensures (low as bv64) & LOW_MASK == low as bv64
  {
  }

  lemma KeepFirst(a: bv64, b: bv64, c: bv64, m: bv64)
    requires a & m == a && b & m == 0 && c & m == 0
    ensures (a | b | c) & m == a
  {
  }

  lemma LowMasked(a: bv64, b: bv64, c: bv64)
    requires IsAddress(a) && b & LOW_MASK == b && (c == 0 || c == VMM_NX)
    ensures (a | b | c) & LOW_MASK == b
  {
  }

  lemma KeepThird(a: bv64, b: bv64, c: bv64, m: bv64)
    requires a & m == 0 && b & m == 0 && c & m == c
    ensures (a | b | c) & m == c
  {
  }

  /** Masking the flags away leaves the frame's address. */
  lemma AddressOfWord(a: bv64, low: bv12, nx: bool)
    requires IsAddress(a)
    ensures Word(a, low, nx) & CLEAR_FLAGS == a
  {
    LowGone(low);
    KeepFirst(a, low as bv64, NxBit(nx), CLEAR_FLAGS);
  }

  lemma WordLow(a: bv64, b: bv64, c: bv64, low: bv12)
    requires IsAddress(a) && b == low as bv64 && (c == 0 || c == VMM_NX)
    ensures (a | b | c) & LOW_MASK == low as bv64
  {
    LowKept(low);
    LowMasked(a, b, c);
  }

  /** Masking all else away leaves the flags. */
  lemma FlagsOfWord(a: bv64, low: bv12, nx: bool)
    requires IsAddress(a)
    ensures Word(a, low, nx) & LOW_MASK == low as bv64
  {
    WordLow(a, low as bv64, NxBit(nx), low);
  }

  lemma NxOfWord(a: bv64, low: bv12, nx: bool)
    requires IsAddress(a)
    ensures Word(a, low, nx) & VMM_NX == NxBit(nx)
  {
    AddressGone(a);
    LowGone(low);
    KeepThird(a, low as bv64, NxBit(nx), VMM_NX);
  }

  /** OR-ing flags into a word adds them, and leaves address and NX. */
  lemma OrIntoWord(a: bv64, low: bv12, nx: bool, perm: bv12)
    ensures Word(a, low, nx) | (perm as bv64) == Word(a, low | perm, nx)
  {
  }

  lemma LowIsUnique(a: bv12, b: bv12)
    requires a as bv64 == b as bv64
    ensures a == b
  {
  }

  /** A word determines the address, flags and no-execute bit. */
  lemma WordIsUnique(a: bv64, low: bv12, nx: bool, a': bv64, low': bv12, nx': bool)
    requires IsAddress(a) && IsAddress(a') && Word(a, low, nx) == Word(a', low', nx')
    ensures a == a' && low == low' && nx == nx'
  {
    AddressOfWord(a, low, nx);
    AddressOfWord(a', low', nx');
    SameLow(a, low, nx, a', low', nx');
    NxOfWord(a, low, nx);
    NxOfWord(a', low', nx');
  }

  lemma SameLow(a: bv64, low: bv12, nx: bool, a': bv64, low': bv12, nx': bool)
    requires IsAddress(a) && IsAddress(a') && Word(a, low, nx) == Word(a', low', nx')
    ensures low == low'
  {
    FlagsOfWord(a, low, nx);
    FlagsOfWord(a', low', nx');
    LowIsUnique(low, low');
  }

  // ---------------------------------------------------------------- flags

  // The flags that are set in the low twelve bits.
  function FlagsOf(x: bv12): Flags {
    Flags(x & 0x001 != 0, x & 0x002 != 0, x & 0x004 != 0, x & 0x008 != 0, x & 0x010 != 0, x & 0x020 != 0,
          x & 0x040 != 0, x & 0x080 != 0, x & 0x100 != 0, x & 0x200 != 0, x & 0x400 != 0, x & 0x800 != 0)
  }

  function BitIf(flag: bool, m: bv12): bv12 {
    if flag then m else 0
  }

  lemma OrTest(x: bv12, y: bv12, m: bv12)
    ensures (x | y) & m != 0 <==> x & m != 0 || y & m != 0
  {
  }

  /** OR-ing words is OR-ing flags. */
  lemma OrOfFlags(x: bv12, y: bv12)
    ensures FlagsOf(x | y) == Or(FlagsOf(x), FlagsOf(y))
  {
    OrTest(x, y, 0x001);
    OrTest(x, y, 0x002);
    OrTest(x, y, 0x004);
    OrTest(x, y, 0x008);
    OrTest(x, y, 0x010);
    OrTest(x, y, 0x020);
    OrTest(x, y, 0x040);
    OrTest(x, y, 0x080);
    OrTest(x, y, 0x100);
    OrTest(x, y, 0x200);
    OrTest(x, y, 0x400);
    OrTest(x, y, 0x800);
  }

  // The flags that vmm_resolve gives for the last word, `eff` being what the words above grant.
  function Resolved(eff: bv12, low: bv12): bv12 {
    (low & !0x006) | (eff & (low | !0x006))
  }

  lemma ResolvedTest(eff: bv12, low: bv12, m: bv12)
    requires eff & !0x006 == 0
    ensures m & 0x006 == 0 ==> Resolved(eff, low) & m == low & m
  {
  }

  lemma ResolvedRights(eff: bv12, low: bv12)
    requires eff & !0x006 == 0
    ensures Resolved(eff, low) & 0x002 != 0 <==> eff & 0x002 != 0 && low & 0x002 != 0
    ensures Resolved(eff, low) & 0x004 != 0 <==> eff & 0x004 != 0 && low & 0x004 != 0
  {
  }

  /** The masks of vmm_resolve compute `Restrict`: the rights to write and of user code are those that every word on
      the way grants, the other flags those of the last word. */
  lemma ResolvedFlags(eff: bv12, low: bv12)
    requires eff & !0x006 == 0
    ensures FlagsOf(Resolved(eff, low)) == Restrict(FlagsOf(eff), FlagsOf(low))
  {
    ResolvedRights(eff, low);
    ResolvedTest(eff, low, 0x001);
    ResolvedTest(eff, low, 0x008);
    ResolvedTest(eff, low, 0x010);
    ResolvedTest(eff, low, 0x020);
    ResolvedTest(eff, low, 0x040);
    ResolvedTest(eff, low, 0x080);
    ResolvedTest(eff, low, 0x100);
    ResolvedTest(eff, low, 0x200);
    ResolvedTest(eff, low, 0x400);
    ResolvedTest(eff, low, 0x800);
  }

  function LowFlags(f: Flags): Flags {
    NO_FLAGS.(present := f.present, write := f.write, user := f.user, writeThrough := f.writeThrough,
              cacheDisable := f.cacheDisable, accessed := f.accessed)
  }

  function HighFlags(f: Flags): Flags {
    NO_FLAGS.(dirty := f.dirty, huge := f.huge, global := f.global, bit9 := f.bit9, bit10 := f.bit10, bit11 := f.bit11)
  }

  lemma LowBits(f: Flags) returns (x: bv12)
    ensures FlagsOf(x) == LowFlags(f)
  {
    x := BitIf(f.present, 0x001) | BitIf(f.write, 0x002) | BitIf(f.user, 0x004)
         | BitIf(f.writeThrough, 0x008) | BitIf(f.cacheDisable, 0x010) | BitIf(f.accessed, 0x020);
  }

  lemma HighBits(f: Flags) returns (x: bv12)
    ensures FlagsOf(x) == HighFlags(f)
  {
    x := BitIf(f.dirty, 0x040) | BitIf(f.huge, 0x080) | BitIf(f.global, 0x100)
         | BitIf(f.bit9, 0x200) | BitIf(f.bit10, 0x400) | BitIf(f.bit11, 0x800);
  }

  /** Every set of flags has its bits. */
  lemma FlagsHaveBits(f: Flags) returns (x: bv12)
    ensures FlagsOf(x) == f
  {
    var low := LowBits(f);
    var high := HighBits(f);
    OrOfFlags(low, high);
    OrOfHalves(f);
    x := low | high;
  }

  lemma OrOfHalves(f: Flags)
    ensures Or(LowFlags(f), HighFlags(f)) == f
  {
  }

  /** Different bits are different flags. */
  lemma BitsAreUnique(x: bv12, y: bv12)
    requires FlagsOf(x) == FlagsOf(y)
    ensures x == y
  {
  }

  /** A word determines its entry, and an entry its word. */
  lemma EntryIsUnique(a: bv64, x: bv12, nx: bool, b: bv64, y: bv12, nx': bool)
    requires IsAddress(a) && IsAddress(b)
    ensures Word(a, x, nx) == Word(b, y, nx') <==> a == b && FlagsOf(x) == FlagsOf(y) && nx == nx'
  {
    if Word(a, x, nx) == Word(b, y, nx') {
      WordIsUnique(a, x, nx, b, y, nx');
    } else if FlagsOf(x) == FlagsOf(y) {
      BitsAreUnique(x, y);
    }
  }
}
