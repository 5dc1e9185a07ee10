/** Little-endian words in memory. */
module Words {
  import opened PageEntry

  // The n low bytes of x, least significant first.
  function WordBytes(x: nat, n: nat): (r: seq<byte>)
    ensures |r| == n
    decreases n, x
  {
    if n == 0 then [] else [(x % 256) as byte] + WordBytes(x / 256, n - 1)
  }

  // The word of n bytes at `at`.
  function WordValue(buf: seq<byte>, at: nat, n: nat): nat
    requires at + n <= |buf|
    decreases |buf| - at
  {
    if n == 0 then 0 else (buf[at] as nat) + 256 * WordValue(buf, at + 1, n - 1)
  }

  /** The least significant byte comes first. */
  lemma {:induction false} LittleEndian(buf: seq<byte>, at: nat)
    requires at + 8 <= |buf|
    ensures WordValue(buf, at, 2) == buf[at] as nat + 0x100 * buf[at + 1] as nat
    ensures WordValue(buf, at, 4) == buf[at] as nat + 0x100 * buf[at + 1] as nat + 0x1_0000 * buf[at + 2] as nat
                                     + 0x100_0000 * buf[at + 3] as nat
    ensures WordValue(buf, at, 8) == WordValue(buf, at, 4) + 0x1_0000_0000 * WordValue(buf, at + 4, 4)
  {
    FourBytes(buf, at);
    FourBytes(buf, at + 4);
    FourMore(buf, at, 4);
  }

  lemma {:induction false} FourBytes(buf: seq<byte>, at: nat)
    requires at + 4 <= |buf|
    ensures WordValue(buf, at, 2) == buf[at] as nat + 0x100 * buf[at + 1] as nat
    ensures WordValue(buf, at, 4) == buf[at] as nat + 0x100 * buf[at + 1] as nat + 0x1_0000 * buf[at + 2] as nat
                                     + 0x100_0000 * buf[at + 3] as nat
  {
    assert WordValue(buf, at + 2, 0) == 0;
    assert WordValue(buf, at + 4, 0) == 0;
    assert WordValue(buf, at + 3, 1) == buf[at + 3] as nat;
    assert WordValue(buf, at + 2, 2) == buf[at + 2] as nat + 0x100 * buf[at + 3] as nat;
  }

  // A word of n + 4 bytes with its first four split off.
  lemma {:induction false} FourMore(buf: seq<byte>, at: nat, n: nat)
    requires at + 4 + n <= |buf|
    ensures WordValue(buf, at, 4 + n) == WordValue(buf, at, 4) + 0x1_0000_0000 * WordValue(buf, at + 4, n)
  {
    FourBytes(buf, at);
    var high := WordValue(buf, at + 4, n);
    assert WordValue(buf, at + 3, 1 + n) == buf[at + 3] as nat + 0x100 * high;
    assert WordValue(buf, at + 2, 2 + n) == buf[at + 2] as nat + 0x100 * WordValue(buf, at + 3, 1 + n);
    assert WordValue(buf, at + 1, 3 + n) == buf[at + 1] as nat + 0x100 * WordValue(buf, at + 2, 2 + n);
  }

  // 256 to the power n
  function ByteRange(n: nat): nat {
    if n == 0 then 1 else 256 * ByteRange(n - 1)
  }

  lemma {:induction false} ByteRangeOf8()
    ensures ByteRange(8) == 0x1_0000_0000_0000_0000
  {
    assert ByteRange(4) == 0x1_0000_0000 by {
      assert ByteRange(2) == 0x1_0000;
    }
    assert ByteRange(6) == 0x1_0000 * ByteRange(4);
    assert ByteRange(8) == 0x1_0000 * ByteRange(6);
  }

  // `flat` with `bytes` from `at` on
  function Patched(flat: seq<byte>, at: nat, bytes: seq<byte>): (r: seq<byte>)
    requires at + |bytes| <= |flat|
    ensures |r| == |flat|
    ensures forall x {:trigger r[x]} :: 0 <= x < |flat| ==>
      r[x] == if at <= x < at + |bytes| then bytes[x - at] else flat[x]
  {
    flat[..at] + bytes + flat[at + |bytes|..]
  }

  predicate Holds(buf: seq<byte>, at: int, bytes: seq<byte>) {
    0 <= at && at + |bytes| <= |buf| && forall k {:trigger bytes[k]} :: 0 <= k < |bytes| ==> buf[at + k] == bytes[k]
  }

  lemma PatchedHolds(buf: seq<byte>, at: nat, bytes: seq<byte>)
    requires at + |bytes| <= |buf|
    ensures Holds(Patched(buf, at, bytes), at, bytes)
  {
  }

  // Storing elsewhere leaves what is held.
  lemma PatchedKeeps(buf: seq<byte>, at: nat, bytes: seq<byte>, held: int, what: seq<byte>)
    requires at + |bytes| <= |buf| && Holds(buf, held, what)
    requires held + |what| <= at || at + |bytes| <= held
    ensures Holds(Patched(buf, at, bytes), held, what)
  {
  }

  lemma HoldsPart(buf: seq<byte>, at: int, bytes: seq<byte>, i: nat, j: nat)
    requires Holds(buf, at, bytes) && i <= j <= |bytes|
    ensures Holds(buf, at + i, bytes[i..j])
  {
    var part := bytes[i..j];
    forall k | 0 <= k < |part| ensures buf[at + i + k] == part[k] {
      assert part[k] == bytes[i + k];
    }
  }

  // A word that was stored is read back.
  lemma {:induction false} WordRoundTrip(buf: seq<byte>, at: nat, x: nat, n: nat)
    requires x < ByteRange(n) && Holds(buf, at, WordBytes(x, n))
    ensures WordValue(buf, at, n) == x
    decreases n
  {
    if n > 0 {
      var bytes := WordBytes(x, n);
      assert buf[at + 0] == bytes[0];
      HoldsPart(buf, at, bytes, 1, n);
      assert bytes[1..n] == WordBytes(x / 256, n - 1);
      WordRoundTrip(buf, at + 1, x / 256, n - 1);
    }
  }

  // Any n bytes are those of the word they make.
  lemma {:induction false} ValueRoundTrip(buf: seq<byte>, at: nat, n: nat)
    requires at + n <= |buf|
    ensures WordValue(buf, at, n) < ByteRange(n) && WordBytes(WordValue(buf, at, n), n) == buf[at..at + n]
    decreases n
  {
    if n > 0 {
      ValueRoundTrip(buf, at + 1, n - 1);
      var x := WordValue(buf, at, n);
      assert x % 256 == buf[at] as nat && x / 256 == WordValue(buf, at + 1, n - 1);
      assert buf[at..at + n] == [buf[at]] + buf[at + 1..at + n];
    }
  }

  // A word that lies in a part of the buffer is the word there.
  lemma {:induction false} WordWithin(buf: seq<byte>, at: nat, part: seq<byte>, i: nat, n: nat)
    requires at + |part| <= |buf| && i + n <= |part| && buf[at..at + |part|] == part
    ensures WordValue(buf, at + i, n) == WordValue(part, i, n)
    decreases n
  {
    if n > 0 {
      assert buf[at..at + |part|][i] == buf[at + i];
      WordWithin(buf, at, part, i + 1, n - 1);
    }
  }

  // The word that was appended.
  lemma WordAppended(before: seq<byte>, x: nat, n: nat)
    requires x < ByteRange(n)
    ensures WordValue(before + WordBytes(x, n), |before|, n) == x
  {
    assert Holds(before + WordBytes(x, n), |before|, WordBytes(x, n));
    WordRoundTrip(before + WordBytes(x, n), |before|, x, n);
  }
}
