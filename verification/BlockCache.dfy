/** The installer's one-block write-back cache: seen through it, the device is a flat array of bytes. */
module BlockCache {
  import opened PageEntry
  import opened Words

  // The number that is no block's.  The source writes it (uint64_t)-1, which is no block's either, as devices are
  // smaller than 2^64 bytes.
  const NO_BLOCK: int := -1

  // Writing in two parts, the second right after the first.
  lemma PatchedTwice(flat: seq<byte>, at: nat, a: seq<byte>, b: seq<byte>)
    requires at + |a| + |b| <= |flat|
    ensures Patched(Patched(flat, at, a), at + |a|, b) == Patched(flat, at, a + b)
  {
    var left, right := Patched(Patched(flat, at, a), at + |a|, b), Patched(flat, at, a + b);
    forall x | 0 <= x < |flat| ensures left[x] == right[x] {
    }
  }

  // Where a block begins.
  function Start(block: nat, size: nat): nat {
    if block == 0 then 0 else Start(block - 1, size) + size
  }

  lemma {:induction false} StartIsProduct(block: nat, size: nat)
    ensures Start(block, size) == block * size
  {
    if block > 0 {
      StartIsProduct(block - 1, size);
      assert block * size == (block - 1) * size + size;
    }
  }

  lemma {:induction false} StartMonotone(a: nat, b: nat, size: nat)
    requires a < b
    ensures Start(a, size) + size <= Start(b, size)
    decreases b
  {
    if a < b - 1 {
      StartMonotone(a, b - 1, size);
    }
  }

  // A position lies in one block.
  lemma StartsOnce(a: nat, b: nat, size: nat, x: nat)
    requires Start(a, size) <= x < Start(a, size) + size && Start(b, size) <= x < Start(b, size) + size
    ensures a == b
  {
    if a < b {
      StartMonotone(a, b, size);
    } else if b < a {
      StartMonotone(b, a, size);
    }
  }

  // Position x lies in block x / size.
  lemma BlockOf(x: nat, size: nat)
    requires size > 0
    ensures Start(x / size, size) <= x < Start(x / size, size) + size
    ensures x % size == x - Start(x / size, size)
    ensures size > 0 ==> x / size <= x
  {
    StartIsProduct(x / size, size);
    StartAtLeast(x / size, size);
  }

  lemma {:induction false} StartAtLeast(block: nat, size: nat)
    requires size > 0
    ensures Start(block, size) >= block
  {
    if block > 0 {
      StartAtLeast(block - 1, size);
    }
  }

  lemma SliceOfSlice(flat: seq<byte>, start: nat, block: seq<byte>, offset: nat, n: nat)
    requires start + |block| <= |flat| && block == flat[start..start + |block|] && offset + n <= |block|
    ensures block[offset..offset + n] == flat[start + offset..start + offset + n]
  {
    var a, b := block[offset..offset + n], flat[start + offset..start + offset + n];
    forall i | 0 <= i < n ensures a[i] == b[i] {
      assert a[i] == block[offset + i] && b[i] == flat[start + (offset + i)];
    }
  }

  // Overwriting the first bytes changes nothing just when they are the same.
  lemma PatchedSame(flat: seq<byte>, bytes: seq<byte>)
    requires |bytes| <= |flat|
    ensures Patched(flat, 0, bytes) == flat <==> bytes == flat[..|bytes|]
  {
    var patched := Patched(flat, 0, bytes);
    if patched == flat {
      forall j | 0 <= j < |bytes| ensures bytes[j] == flat[..|bytes|][j] {
        assert patched[j] == flat[j];
      }
    } else {
      var j :| 0 <= j < |flat| && patched[j] != flat[j];
      assert bytes[j] != flat[..|bytes|][j];
    }
  }

  lemma SameTail(disk: seq<byte>, start: nat, block: seq<byte>, tail: seq<byte>)
    requires start + |block| <= |disk| && block == disk[start..start + |block|] && |tail| <= |block|
    ensures tail == block[..|tail|] <==> Holds(disk, start, tail)
  {
    if tail == block[..|tail|] {
      forall k | 0 <= k < |tail| ensures disk[start + k] == tail[k] {
        assert block[..|tail|][k] == block[k];
      }
    }
    if Holds(disk, start, tail) {
      forall k | 0 <= k < |tail| ensures tail[k] == block[..|tail|][k] {
        assert disk[start + k] == tail[k];
      }
    }
  }

  // Outside of lo .. hi - 1 each byte of the physical device is what it was, or what readers saw.
  ghost predicate Between(disk0: seq<byte>, view0: seq<byte>, disk: seq<byte>, lo: nat, hi: nat) {
    |disk| == |disk0| == |view0| &&
    forall x {:trigger disk[x]} :: 0 <= x < |disk| && !(lo <= x < hi) ==> disk[x] == disk0[x] || disk[x] == view0[x]
  }

  // `flat` with the first n bytes of data from loc on
  ghost function Written(flat: seq<byte>, loc: nat, data: seq<byte>, n: nat): seq<byte>
    requires n <= |data| && (n > 0 ==> loc + n <= |flat|)
  {
    if n > 0 then Patched(flat, loc, data[..n]) else flat
  }

  lemma WrittenOn(flat: seq<byte>, loc: nat, data: seq<byte>, n: nat, chunk: nat)
    requires n + chunk <= |data| && chunk > 0 && loc + n + chunk <= |flat|
    ensures |Written(flat, loc, data, n)| == |flat|
    ensures Patched(Written(flat, loc, data, n), loc + n, data[n..][..chunk]) == Written(flat, loc, data, n + chunk)
  {
    assert data[n..][..chunk] == data[n..n + chunk];
    if n > 0 {
      PatchedTwice(flat, loc, data[..n], data[n..n + chunk]);
      assert data[..n] + data[n..n + chunk] == data[..n + chunk];
    } else {
      assert data[n..n + chunk] == data[..n + chunk];
    }
  }

  lemma StillBetween(disk0: seq<byte>, view0: seq<byte>, disk1: seq<byte>, disk2: seq<byte>, loc: nat, data: seq<byte>,
                     n: nat)
    requires n <= |data| && (n > 0 ==> loc + n <= |view0|)
    requires Between(disk0, view0, disk1, loc, loc + |data|)
    requires disk2 == disk1 || disk2 == Written(view0, loc, data, n)
    ensures Between(disk0, view0, disk2, loc, loc + |data|)
  {
  }

  class Device {
    const blockSize: nat
    ghost const blocks: nat  // how many blocks are wholly on the device
    const size: nat
    var disk: seq<byte>
    const cache: array<byte>
    var cachedBlock: int
    var dirty: bool

    /** Opens a device, with its first block in the cache (device_init). */
    constructor (disk: seq<byte>, blockSize: nat)
      requires 0 < blockSize <= |disk|
      ensures Valid() && Coherent() && !dirty && this.disk == disk && this.blockSize == blockSize && fresh(cache)
      ensures cachedBlock == 0
    {
      this.disk := disk;
      this.blockSize := blockSize;
      size := |disk|;
      blocks := |disk| / blockSize;
      cache := new byte[blockSize](i requires 0 <= i < |disk| => disk[i]);
      cachedBlock := 0;
      dirty := false;
      new;
      BlockOf(|disk|, blockSize);
      assert cache[..] == disk[0..blockSize];
    }

    ghost predicate Valid()
      reads this
    {
      && 0 < blockSize == cache.Length && blockSize <= |disk| == size && cachedBlock >= NO_BLOCK
      && Start(blocks, blockSize) <= size < Start(blocks, blockSize) + blockSize
      && (dirty ==> cachedBlock != NO_BLOCK && Whole(cachedBlock) && Start(cachedBlock, blockSize) + blockSize <= size)
    }

    // All bytes of the block are on the device, so that it can be read and written.
    ghost predicate Whole(block: nat) {
      block < blocks
    }

    // The end of the last block.
    ghost function Capacity(): nat {
      Start(blocks, blockSize)
    }

    /** That is where the whole blocks of the device end. */
    lemma CapacityIs()
      requires Valid()
      ensures Capacity() == size - size % blockSize
    {
      BlockOf(size, blockSize);
      StartsOnce(blocks, size / blockSize, blockSize, size);
    }

    lemma WholeMeans(block: nat)
      requires Valid()
      ensures Whole(block) <==> Start(block, blockSize) + blockSize <= size
      ensures Whole(block) ==> Start(block, blockSize) + blockSize <= Capacity()
      ensures !Whole(block) ==> Start(block, blockSize) >= Capacity()
    {
      if block < blocks {
        StartMonotone(block, blocks, blockSize);
      } else if blocks < block {
        StartMonotone(blocks, block, blockSize);
      }
    }

    /** What a reader of the device sees: the physical bytes, with the cached block over them if it was changed. */
    ghost function View(): (r: seq<byte>)
      requires Valid()
      reads this, cache
      ensures |r| == size
    {
      if dirty then Patched(disk, Start(cachedBlock, blockSize), cache[..]) else disk
    }

    /** The cache holds the current bytes of the block it is said to hold. */
    ghost predicate Coherent()
      requires Valid()
      reads this, cache
    {
      cachedBlock == NO_BLOCK ||
      (Whole(cachedBlock) && Start(cachedBlock, blockSize) + blockSize <= size
       && cache[..] == View()[Start(cachedBlock, blockSize)..Start(cachedBlock, blockSize) + blockSize])
    }

    /** Writes a changed block back; afterwards the physical device is what readers saw all along. */
    method FlushCache()
      requires Valid()
      modifies this`dirty, this`disk
      ensures Valid() && !dirty && disk == old(View())
      ensures old(Coherent()) ==> Coherent()
    {
      if !dirty {
        return;
      }
      var start := cachedBlock * blockSize;
      StartIsProduct(cachedBlock, blockSize);
      disk := Patched(disk, start, cache[..]);
      dirty := false;
    }

    // What there is on the device from the beginning of a block on.
    ghost function Tail(block: nat): seq<byte>
      requires Valid()
      reads this, cache
    {
      if Start(block, blockSize) < size then View()[Start(block, blockSize)..] else []
    }

    /** Brings a block into the cache.  It fails exactly for a block that is not wholly on the device.  Then the changed
        block is written back, and what there is of the other one overwrites part of the cache, which is still said to
        hold the old block: it does so only if the bytes happen to be the same. */
    method CacheBlock(block: nat) returns (ok: bool)
      requires Valid() && Coherent()
      modifies this, cache
      ensures Valid() && View() == old(View()) && (disk == old(disk) || disk == old(View()))
      ensures ok <==> Whole(block)
      ensures ok ==> Coherent() && cachedBlock == block
      ensures !ok ==> !dirty && cachedBlock == old(cachedBlock)
      ensures !ok ==> |Tail(block)| < blockSize && cache[..] == Patched(old(cache[..]), 0, Tail(block))
      ensures !ok ==>
        (Coherent() <==> cachedBlock == NO_BLOCK || Holds(View(), Start(cachedBlock, blockSize), Tail(block)))
    {
      if cachedBlock == block {
        return true;
      }
      ghost var before := cache[..];
      if dirty {
        FlushCache();
      }
      WholeMeans(block);
      StartIsProduct(block, blockSize);
      var start := block * blockSize;
      ok := start + blockSize <= |disk|;
      var have := if ok then blockSize else if start < |disk| then |disk| - start else 0;
      ReadDisk(start, have);
      if ok {
        cachedBlock := block;
      } else {
        TailRead(block, before);
      }
    }

    // The first bytes of the cache, which held a block, have been overwritten.
    lemma TailRead(block: nat, before: seq<byte>)
      requires Valid() && !dirty && !Whole(block) && |before| == blockSize
      requires cachedBlock != NO_BLOCK ==>
        && Whole(cachedBlock) && Start(cachedBlock, blockSize) + blockSize <= size
        && before == disk[Start(cachedBlock, blockSize)..Start(cachedBlock, blockSize) + blockSize]
      requires forall j :: 0 <= j < blockSize ==>
        cache[j] == if Start(block, blockSize) + j < size then disk[Start(block, blockSize) + j] else before[j]
      ensures |Tail(block)| < blockSize && cache[..] == Patched(before, 0, Tail(block))
      ensures Coherent() <==> cachedBlock == NO_BLOCK || Holds(View(), Start(cachedBlock, blockSize), Tail(block))
    {
      WholeMeans(block);
      var tail := Tail(block);
      forall j | 0 <= j < blockSize ensures cache[..][j] == Patched(before, 0, tail)[j] {
      }
      if cachedBlock != NO_BLOCK {
        PatchedSame(before, tail);
        SameTail(disk, Start(cachedBlock, blockSize), before, tail);
      }
    }

    // Reads n bytes of the device into the cache.
    method ReadDisk(start: nat, n: nat)
      requires n <= cache.Length && (n > 0 ==> start + n <= |disk|)
      modifies cache
      ensures forall j :: 0 <= j < cache.Length ==> cache[j] == if j < n then disk[start + j] else old(cache[j])
      ensures n == cache.Length > 0 ==> cache[..] == disk[start..start + n]
    {
      for i := 0 to n
        invariant forall j :: 0 <= j < cache.Length ==> cache[j] == if j < i then disk[start + j] else old(cache[j])
      {
        cache[i] := disk[start + i];
      }
    }

    // The whole range lies on blocks that are wholly on the device.
    ghost predicate Reachable(loc: nat, count: nat) {
      count == 0 || loc + count <= Capacity()
    }

    // The block in which position x lies, and where in it.
    method Locate(x: nat) returns (block: nat, offset: nat)
      requires Valid()
      ensures offset < blockSize && Start(block, blockSize) + offset == x
      ensures Whole(block) <==> x < Capacity()
      ensures Whole(block) ==> Start(block, blockSize) + blockSize <= Capacity()
    {
      BlockOf(x, blockSize);
      block, offset := x / blockSize, x % blockSize;
      WholeMeans(block);
    }

    // How much of the rest of a range lies in the block.
    method ChunkSize(rest: nat, offset: nat) returns (chunk: nat)
      requires rest > 0 && offset < blockSize
      ensures 0 < chunk <= rest && offset + chunk <= blockSize
    {
      chunk := rest;
      if chunk > blockSize - offset {
        chunk := blockSize - offset;
      }
    }

    // Brings the block of position x into the cache.
    method CacheAt(x: nat) returns (ok: bool, offset: nat)
      requires Valid() && Coherent()
      modifies this, cache
      ensures Valid() && View() == old(View()) && (disk == old(disk) || disk == old(View()))
      ensures ok <==> x < Capacity()
      ensures ok ==> Coherent() && Holding(x - offset) && offset < blockSize && offset <= x
      ensures !ok ==> !dirty
    {
      var block;
      block, offset := Locate(x);
      ok := CacheBlock(block);
      if ok {
        CachedIsHeld(block);
      }
    }

    lemma CachedIsHeld(block: nat)
      requires Valid() && Coherent() && cachedBlock == block
      ensures Holding(Start(block, blockSize))
    {
      WholeMeans(block);
    }

    // The cache holds the block that begins at `start`.
    ghost predicate Holding(start: int)
      requires Valid()
      reads this, cache
    {
      && cachedBlock != NO_BLOCK && start == Start(cachedBlock, blockSize) && start + blockSize <= Capacity() <= size
      && cache[..] == View()[start..start + blockSize]
    }

    // The next bytes of a range of which `rest` are left, up to the end of their block.
    method ReadChunk(x: nat, rest: nat) returns (ok: bool, part: seq<byte>)
      requires Valid() && Coherent() && rest > 0
      modifies this, cache
      ensures Valid() && View() == old(View()) && (disk == old(disk) || disk == old(View()))
      ensures ok <==> x < Capacity()
      ensures ok ==> Coherent() && 0 < |part| <= rest && x + |part| <= Capacity() <= size
      ensures ok ==> part == View()[x..x + |part|]
      ensures !ok ==> !dirty && part == []
    {
      var offset;
      ok, offset := CacheAt(x);
      part := [];
      if ok {
        var chunk := ChunkSize(rest, offset);
        part := cache[offset..offset + chunk];
        SliceOfSlice(View(), x - offset, cache[..], offset, chunk);
      }
    }

    /** Reads a range of bytes, block by block; it fails exactly when the range leaves the device's blocks. */
    method Read(loc: nat, count: nat) returns (ok: bool, buffer: seq<byte>)
      requires Valid() && Coherent()
      modifies this, cache
      ensures Valid() && View() == old(View()) && (disk == old(disk) || disk == old(View()))
      ensures ok <==> Reachable(loc, count)
      ensures ok <==> count == 0 || loc + count <= size - size % blockSize
      ensures ok ==> Coherent() && |buffer| == count
      ensures ok && count > 0 ==> loc + count <= size && buffer == old(View())[loc..loc + count]
      ensures !ok ==> !dirty
    {
      CapacityIs();
      buffer := [];
      while |buffer| < count
        invariant |buffer| <= count && Valid() && Coherent() && View() == old(View())
        invariant disk == old(disk) || disk == old(View())
        invariant |buffer| > 0 ==> loc + |buffer| <= Capacity() <= size && buffer == View()[loc..loc + |buffer|]
      {
        var part;
        ok, part := ReadChunk(loc + |buffer|, count - |buffer|);
        if !ok {
          return;
        }
        ghost var flat, x := View(), loc + |buffer|;
        assert |buffer| > 0 ==> flat[loc..x] + flat[x..x + |part|] == flat[loc..x + |part|];
        buffer := buffer + part;
      }
      ok := true;
    }

    method CopyIntoCache(offset: nat, bytes: seq<byte>)
      requires offset + |bytes| <= cache.Length
      modifies cache
      ensures cache[..] == Patched(old(cache[..]), offset, bytes)
    {
      ghost var before := cache[..];
      for i := 0 to |bytes|
        invariant forall j :: 0 <= j < cache.Length ==>
          cache[j] == if offset <= j < offset + i then bytes[j - offset] else before[j]
      {
        cache[offset + i] := bytes[i];
      }
    }

    // Changes bytes of the cached block, which begins `offset` bytes before position x.
    method Overwrite(ghost x: nat, offset: nat, bytes: seq<byte>)
      requires Valid() && Coherent() && offset <= x && Holding(x - offset) && offset + |bytes| <= blockSize
      modifies this`dirty, cache
      ensures Valid() && Coherent() && dirty && x + |bytes| <= Capacity() <= size
      ensures View() == Patched(old(View()), x, bytes)
    {
      ghost var flat, before := View(), cache[..];
      SeenOutside(x - offset);
      CopyIntoCache(offset, bytes);
      dirty := true;
      ViewChanged(flat, x, before, offset, bytes);
    }

    // Outside of the cached block a reader sees the physical device.
    lemma SeenOutside(start: nat)
      requires Valid() && Coherent() && Holding(start)
      ensures Whole(cachedBlock) && start == Start(cachedBlock, blockSize)
      ensures start + blockSize <= size && cache[..] == View()[start..start + blockSize]
      ensures forall x :: 0 <= x < size && !(start <= x < start + blockSize) ==> View()[x] == disk[x]
    {
    }

    lemma ViewChanged(flat: seq<byte>, x: nat, before: seq<byte>, offset: nat, bytes: seq<byte>)
      requires Valid() && dirty && offset <= x && x - offset == Start(cachedBlock, blockSize) && Whole(cachedBlock)
      requires |flat| == size && |before| == blockSize && offset + |bytes| <= blockSize
      requires before == flat[x - offset..x - offset + blockSize] && cache[..] == Patched(before, offset, bytes)
      requires forall y :: 0 <= y < |flat| && !(x - offset <= y < x - offset + blockSize) ==> flat[y] == disk[y]
      ensures View() == Patched(flat, x, bytes) && Coherent()
    {
      var start := x - offset;
      PatchedWithin(disk, flat, start, before, cache[..], offset, bytes);
      assert cache[..] == View()[start..start + blockSize];
    }

    // Changing bytes of a block that is laid over the device changes them in what is seen.
    static lemma PatchedWithin(disk: seq<byte>, flat: seq<byte>, start: nat, before: seq<byte>, block: seq<byte>,
                               offset: nat, bytes: seq<byte>)
      requires |disk| == |flat| && start + |before| <= |flat| && |block| == |before| && offset + |bytes| <= |before|
      requires before == flat[start..start + |before|] && block == Patched(before, offset, bytes)
      requires forall x :: 0 <= x < |flat| && !(start <= x < start + |before|) ==> flat[x] == disk[x]
      ensures Patched(disk, start, block) == Patched(flat, start + offset, bytes)
    {
      var left, right := Patched(disk, start, block), Patched(flat, start + offset, bytes);
      forall x | 0 <= x < |flat| ensures left[x] == right[x] {
        if start <= x < start + |before| {
          assert left[x] == block[x - start];
          assert before[x - start] == flat[x];
        }
      }
    }

    // Writes the next bytes, up to the end of their block.
    method WriteChunk(x: nat, bytes: seq<byte>) returns (ok: bool, chunk: nat)
      requires Valid() && Coherent() && |bytes| > 0
      modifies this, cache
      ensures Valid() && (disk == old(disk) || disk == old(View()))
      ensures ok <==> x < Capacity()
      ensures ok ==> Coherent() && 0 < chunk <= |bytes| && x + chunk <= Capacity() <= size
      ensures ok ==> View() == Patched(old(View()), x, bytes[..chunk])
      ensures !ok ==> View() == old(View())
    {
      var offset;
      ok, offset := CacheAt(x);
      chunk := 0;
      if ok {
        chunk := ChunkSize(|bytes|, offset);
        Overwrite(x, offset, bytes[..chunk]);
      }
    }

    // The first `progress` bytes of a range are written; what was there before is `flat`, on a device holding `disk0`.
    ghost predicate InProgress(flat: seq<byte>, disk0: seq<byte>, loc: nat, data: seq<byte>, progress: nat)
      reads this, cache
    {
      && progress <= |data| && Valid() && |flat| == size && (progress > 0 ==> loc + progress <= Capacity() <= size)
      && View() == Written(flat, loc, data, progress)
      && Between(disk0, flat, disk, loc, loc + |data|)
    }

    method WriteNext(ghost flat: seq<byte>, ghost disk0: seq<byte>, loc: nat, data: seq<byte>, progress: nat)
      returns (ok: bool, chunk: nat)
      requires InProgress(flat, disk0, loc, data, progress) && Coherent() && progress < |data|
      modifies this, cache
      ensures ok <==> loc + progress < Capacity()
      ensures ok ==> 0 < chunk && InProgress(flat, disk0, loc, data, progress + chunk) && Coherent()
      ensures !ok ==> InProgress(flat, disk0, loc, data, progress)
    {
      ghost var disk1 := disk;
      ok, chunk := WriteChunk(loc + progress, data[progress..]);
      StillBetween(disk0, flat, disk1, disk, loc, data, progress);
      if ok {
        WrittenOn(flat, loc, data, progress, chunk);
      }
    }

    /** Writes a range of bytes, block by block.  `done` counts the bytes written, all of them on success. */
    method Write(loc: nat, data: seq<byte>) returns (ok: bool, ghost done: nat)
      requires Valid() && Coherent()
      modifies this, cache
      ensures Valid() && done <= |data| && (done > 0 ==> loc + done <= size)
      ensures ok <==> Reachable(loc, |data|)
      ensures ok <==> |data| == 0 || loc + |data| <= size - size % blockSize
      ensures ok ==> Coherent() && done == |data|
      ensures View() == Written(old(View()), loc, data, done)
      ensures Between(old(disk), old(View()), disk, loc, loc + |data|)
    {
      CapacityIs();
      ghost var flat, disk0 := View(), disk;
      var progress := 0;
      while progress < |data|
        invariant InProgress(flat, disk0, loc, data, progress) && Coherent()
      {
        var chunk;
        ok, chunk := WriteNext(flat, disk0, loc, data, progress);
        if !ok {
          return ok, progress;
        }
        progress := progress + chunk;
      }
      return true, progress;
    }
  }

  /** A device of three bytes with blocks of two: reading the second block fails, and afterwards the cache, said to hold
      the first one, has a byte of the second. */
  method LosesCoherence() returns (d: Device)
    ensures d.Valid() && !d.Coherent() && d.View() == [1, 2, 3]
  {
    var disk: seq<byte> := [1, 2, 3];
    d := new Device(disk, 2);
    d.WholeMeans(1);
    assert Start(1, 2) == 2 && Start(0, 2) == 0;
    var ok := d.CacheBlock(1);
    assert d.Tail(1) == [3];
    assert d.View()[0 + 0] != d.Tail(1)[0];
  }
}
