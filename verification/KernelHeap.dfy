/** The kernel heap: first fit over a linked list of block headers, splitting and coalescing. */
module KernelHeap {
  import opened HeapCells

  const CHUNK_HEADER: nat := 24
  const MAGIC: nat := 0xDEADBEEF
  const ADDRESS_RANGE: nat := 0x1_0000_0000_0000_0000
  const KERNEL_HALF: nat := 0xFFFF_8000_0000_0000

  function AlignUp(x: nat): nat {
    (x + 7) / 8 * 8
  }

  // ALIGN_UP on 64-bit words.
  function AlignUpWord(x: nat): nat {
    AlignUp(x) % ADDRESS_RANGE
  }

  // The bytes that kmalloc asks for: header and size, as a 64-bit sum.
  function Request(size: nat): nat {
    (CHUNK_HEADER + size) % ADDRESS_RANGE
  }

  // With header and rounding the size no longer fits into 64 bits.
  predicate Wraps(size: nat) {
    CHUNK_HEADER + size > ADDRESS_RANGE - ALIGNMENT
  }

  /** Unless it wraps, what is asked for is header and size, rounded up to the next multiple of 8. */
  lemma RequestIsRounded(size: nat)
    requires size < ADDRESS_RANGE
    ensures Wraps(size) <==> size + 24 + 8 > 0x1_0000_0000_0000_0000
    ensures var want := AlignUpWord(Request(size));
      && want % 8 == 0
      && (Wraps(size) ==> want <= CHUNK_HEADER)
      && (!Wraps(size) ==> 0 < size + 24 <= want < size + 24 + 8 && Request(size) != 0)
  {
  }

  // A block header as it lies in memory.
  datatype Block = Block(size: nat, next: nat, free: bool)

  // The address of cell i, and 0 behind the last one.
  function AddressOf(row: Row, i: nat): nat {
    if i < |row| then row[i].addr else 0
  }

  // The header at cell i says what the cell is, and where the next one is.
  predicate Linked(blocks: map<nat, Block>, row: Row, i: nat)
    requires i < |row|
  {
    row[i].addr in blocks && blocks[row[i].addr] == Block(row[i].size, AddressOf(row, i + 1), row[i].free)
  }

  predicate AllLinked(blocks: map<nat, Block>, row: Row) {
    forall i: nat {:trigger Linked(blocks, row, i)} :: i < |row| ==> Linked(blocks, row, i)
  }

  // Cell i is the first free one with at least `size` bytes; with i == |row| there is none.
  predicate FirstFit(row: Row, i: nat, size: nat) {
    && i <= |row|
    && (forall j :: 0 <= j < i ==> !(row[j].free && row[j].size >= size))
    && (i < |row| ==> row[i].free && row[i].size >= size)
  }

  // The headers that splitting writes, or clearing the free mark alone.
  function TakenBlocks(blocks: map<nat, Block>, row: Row, i: nat, size: nat): map<nat, Block>
    requires i < |row|
  {
    var c := row[i];
    if c.size < size + HEADER + ALIGNMENT then blocks[c.addr := Block(c.size, AddressOf(row, i + 1), false)]
    else
      var rest := c.addr + HEADER + size;
      blocks[rest := Block(c.size - size - HEADER, AddressOf(row, i + 1), true)][c.addr := Block(size, rest, false)]
  }

  lemma TakenLinked(blocks: map<nat, Block>, row: Row, start: nat, end: nat, i: nat, size: nat)
    requires AllLinked(blocks, row) && Tiles(row, start, end) && i < |row|
    ensures AllLinked(TakenBlocks(blocks, row, i, size), Taken(row, i, size))
  {
    var row', blocks' := Taken(row, i, size), TakenBlocks(blocks, row, i, size);
    forall j: nat | j < |row'| ensures Linked(blocks', row', j) {
      if j < i {
        assert Linked(blocks, row, j);
        Disjoint(row, start, end, i, j);
      } else if |row'| == |row| && j > i {
        assert Linked(blocks, row, j);
        Disjoint(row, start, end, i, j);
      } else if j > i + 1 {
        assert Linked(blocks, row, j - 1);
        Disjoint(row, start, end, i, j - 1);
      }
    }
  }

  lemma FreedLinked(blocks: map<nat, Block>, row: Row, start: nat, end: nat, i: nat)
    requires AllLinked(blocks, row) && Tiles(row, start, end) && i < |row|
    ensures row[i].addr in blocks
    ensures AllLinked(blocks[row[i].addr := blocks[row[i].addr].(free := true)], Freed(row, i))
  {
    assert Linked(blocks, row, i);
    var row', blocks' := Freed(row, i), blocks[row[i].addr := blocks[row[i].addr].(free := true)];
    forall j: nat | j < |row'| ensures Linked(blocks', row', j) {
      assert Linked(blocks, row, j);
      if j != i {
        Disjoint(row, start, end, i, j);
      }
    }
  }

  lemma MergedLinked(blocks: map<nat, Block>, row: Row, start: nat, end: nat, i: nat)
    requires AllLinked(blocks, row) && Tiles(row, start, end) && i + 1 < |row|
    ensures row[i].addr in blocks && row[i + 1].addr in blocks
    ensures var b, n := blocks[row[i].addr], blocks[row[i + 1].addr];
      AllLinked(blocks[row[i].addr := b.(size := b.size + HEADER + n.size, next := n.next)], Merged(row, i))
  {
    assert Linked(blocks, row, i) && Linked(blocks, row, i + 1);
    var b, n := blocks[row[i].addr], blocks[row[i + 1].addr];
    var row', blocks' := Merged(row, i), blocks[row[i].addr := b.(size := b.size + HEADER + n.size, next := n.next)];
    forall j: nat | j < |row'| ensures Linked(blocks', row', j) {
      if j < i {
        assert Linked(blocks, row, j);
        Disjoint(row, start, end, i, j);
      } else if j > i {
        assert Linked(blocks, row, j + 1);
        Disjoint(row, start, end, i, j + 1);
      }
    }
  }

  class Heap {
    var freeList: nat
    var heapStart: nat
    var heapEnd: nat
    var blocks: map<nat, Block>  // block headers in the heap's memory, by address
    var chunks: map<nat, nat>    // signed chunk headers, by address, with the size they record
    ghost var row: Row

    /** The list from freeList on is the row of cells that covers the heap; without a list there is no heap. */
    ghost predicate Shape()
      reads this
    {
      if freeList == 0 then row == []
      else
        && freeList == heapStart && KERNEL_HALF <= heapStart && heapEnd < ADDRESS_RANGE
        && Tiles(row, heapStart, heapEnd) && AllLinked(blocks, row)
    }

    // The block in use at cell c carries a signed chunk.
    ghost predicate Signed(c: Cell)
      reads this
    {
      c.addr + HEADER in chunks && chunks[c.addr + HEADER] + CHUNK_HEADER <= c.size
    }

    ghost predicate Valid()
      reads this
    {
      && Shape() && Coalesced(row)
      && forall c {:trigger Signed(c)} :: c in InUse(row) ==> Signed(c)
    }

    constructor ()
      ensures Valid() && freeList == 0
    {
      freeList, heapStart, heapEnd := 0, 0, 0;
      blocks, chunks := map[], map[];
      row := [];
    }

    /** Makes one free block of a region; a region that is too small is ignored. */
    method Init(start: nat, size: nat)
      requires Valid() && freeList == 0
      requires start == 0 || (KERNEL_HALF <= start && start + size < ADDRESS_RANGE)
      modifies this
      ensures Valid()
      ensures freeList == 0 <==> start == 0 || size <= HEADER + ALIGNMENT
      ensures freeList != 0 ==>
        |row| == 1 && row[0].free && row[0].addr == AlignUp(start) && End(row[0]) == start + size
      ensures freeList != 0 ==> row[0].addr % 8 == 0 && start <= row[0].addr < start + 8
    {
      if start == 0 || size <= HEADER + ALIGNMENT {
        return;
      }
      heapStart := AlignUp(start);
      heapEnd := start + size;
      freeList := heapStart;
      blocks := blocks[freeList := Block(heapEnd - heapStart - HEADER, 0, true)];
      row := [Cell(heapStart, heapEnd - heapStart - HEADER, true)];
      assert Fits(row, 0, heapEnd) && Linked(blocks, row, 0);
      assert InUse(row) == {};
    }

    /** _kmalloc: takes the first free block that is large enough, and splits it when enough is left over. */
    method AllocBlock(size: nat) returns (ptr: nat, ghost i: nat)
      requires Valid() && size < ADDRESS_RANGE
      modifies this
      ensures Shape() && Coalesced(row) && chunks == old(chunks)
      ensures freeList == old(freeList) && heapStart == old(heapStart) && heapEnd == old(heapEnd)
      ensures size != 0 ==> FirstFit(old(row), i, AlignUpWord(size))
      ensures ptr == 0 <==> size == 0 || i == |old(row)|
      ensures ptr == 0 ==> row == old(row)
      ensures ptr != 0 ==>
        i < |old(row)| && row == Taken(old(row), i, AlignUpWord(size)) && ptr == old(row)[i].addr + HEADER
    {
      ptr, i := 0, 0;
      if size == 0 {
        return;
      }
      var want := AlignUpWord(size);
      var cur := freeList;
      while cur != 0
        invariant i <= |row| && cur == AddressOf(row, i) && Valid() && row == old(row)
        invariant forall j :: 0 <= j < i ==> !(row[j].free && row[j].size >= want)
        invariant blocks == old(blocks) && chunks == old(chunks)
        invariant freeList == old(freeList) && heapStart == old(heapStart) && heapEnd == old(heapEnd)
        decreases |row| - i
      {
        assert i < |row| && Linked(blocks, row, i);
        if blocks[cur].free && blocks[cur].size >= want {
          TakeCell(cur, i, want);
          return cur + HEADER, i;
        }
        AfterCell(i);
        cur := blocks[cur].next;
        i := i + 1;
      }
      EndOfRow(i);
    }

    // A cell's address is not 0, so the list does not end early.
    lemma EndOfRow(i: nat)
      requires Shape() && i <= |row| && AddressOf(row, i) == 0
      ensures i == |row|
    {
      if i < |row| {
        Inside(row, heapStart, heapEnd, i);
      }
    }

    lemma AfterCell(i: nat)
      requires Shape() && i < |row|
      ensures Linked(blocks, row, i) && blocks[row[i].addr].next == AddressOf(row, i + 1)
    {
    }

    // split_block, and clearing the free mark.
    method TakeCell(cur: nat, ghost i: nat, size: nat)
      requires Shape() && Coalesced(row) && freeList != 0 && i < |row| && row[i].addr == cur && row[i].free
      requires size % ALIGNMENT == 0
      modifies this`blocks, this`row
      ensures Shape() && Coalesced(row) && row == Taken(old(row), i, size)
    {
      TakenLinked(blocks, row, heapStart, heapEnd, i, size);
      TakenTiles(row, heapStart, heapEnd, i, size);
      TakenCoalesced(row, i, size);
      ghost var blocks' := TakenBlocks(blocks, row, i, size);
      assert Linked(blocks, row, i);
      var block := blocks[cur];
      if block.size >= size + HEADER + ALIGNMENT {
        var rest := cur + HEADER + size;
        blocks := blocks[rest := Block(block.size - size - HEADER, block.next, true)];
        blocks := blocks[cur := Block(size, rest, block.free)];
      }
      blocks := blocks[cur := blocks[cur].(free := false)];
      assert blocks == blocks';
      row := Taken(row, i, size);
    }

    /** Memory for `size` bytes.  The block is large enough, and the heap stays in order, exactly when header and size
        do not wrap around. */
    method Kmalloc(size: nat) returns (ptr: nat, ghost c: Cell, ghost k: nat)
      requires Valid() && size < ADDRESS_RANGE
      modifies this
      ensures Shape() && Coalesced(row) && heapStart == old(heapStart) && heapEnd == old(heapEnd)
      ensures freeList == old(freeList)
      ensures ptr == 0 <==>
        (Request(size) == 0 || forall d :: d in old(row) && d.free ==> d.size < AlignUpWord(Request(size)))
      ensures ptr == 0 ==> row == old(row)
      ensures ptr != 0 ==> c !in old(row) && InUse(row) == old(InUse(row)) + {c}
      ensures ptr != 0 ==> ptr == c.addr + HEADER + CHUNK_HEADER && ptr % ALIGNMENT == 0
      ensures ptr != 0 ==>
        var want := AlignUpWord(Request(size));
        && k < |old(row)| && old(row)[k].free && old(row)[k].size >= want
        && forall j :: 0 <= j < k && old(row)[j].free ==> old(row)[j].size < want
      ensures ptr != 0 ==>
        var was, want := old(row)[k], AlignUpWord(Request(size));
        && c == Cell(was.addr, if was.size < want + 24 + 8 then was.size else want, false)
        && row == old(row)[..k]
                  + (if was.size < want + 24 + 8 then [c]
                     else [c, Cell(was.addr + 24 + want, was.size - want - 24, true)])
                  + old(row)[k + 1..]
      ensures ptr != 0 ==> (ptr + size <= End(c) <==> !Wraps(size))
      ensures Valid() <==> ptr == 0 || !Wraps(size)
    {
      var header;
      ghost var i;
      ghost var want := AlignUpWord(Request(size));
      header, i := AllocBlock(Request(size));
      c, k := Cell(0, 0, true), i;
      if header == 0 {
        forall d | d in InUse(row) ensures Signed(d) {
          assert old(Signed(d));
        }
        return 0, c, k;
      }
      ghost var row0 := old(row);
      TakenInUse(row0, heapStart, heapEnd, i, want);
      c := row[i];
      NewCell(row0, i, c);
      RequestIsRounded(size);
      assert Fits(row, i, heapEnd) && row0[i] in row0;
      Inside(row, heapStart, heapEnd, i);
      chunks := chunks[header := size];
      ptr := header + CHUNK_HEADER;
      forall d | d in InUse(row) && d != c ensures Signed(d) {
        assert d in InUse(row0) && old(Signed(d));
      }
      assert Signed(c) <==> !Wraps(size);
    }

    // The cell that was taken is new, and shares its address with no other cell in use.
    lemma NewCell(row0: Row, i: nat, c: Cell)
      requires Tiles(row0, heapStart, heapEnd) && i < |row0| && row0[i].free && c.addr == row0[i].addr && !c.free
      ensures c !in row0 && forall d :: d in InUse(row0) ==> d.addr != c.addr
    {
      forall d | d in row0 && d.addr == c.addr ensures d == row0[i] {
        SameCell(row0, heapStart, heapEnd, d, row0[i]);
      }
    }

    // The pointer was returned by Kmalloc for cell c and not freed since.
    ghost predicate Live(ptr: nat, c: Cell)
      reads this
    {
      c in InUse(row) && ptr == c.addr + HEADER + CHUNK_HEADER
    }

    /** Gives memory back: just its block goes out of use.  A pointer without a signed chunk is refused. */
    method Kfree(ptr: nat, ghost c: Cell)
      requires Valid()
      requires ptr == 0 || Live(ptr, c) || (ptr >= CHUNK_HEADER && ptr - CHUNK_HEADER !in chunks)
      modifies this
      ensures Valid() && heapStart == old(heapStart) && heapEnd == old(heapEnd) && freeList == old(freeList)
      ensures InUse(row) == if ptr != 0 && old(Live(ptr, c)) then old(InUse(row)) - {c} else old(InUse(row))
      ensures chunks == old(chunks)
    {
      if ptr == 0 {
        return;
      }
      assert Live(ptr, c) ==> Signed(c);
      var header := ptr - CHUNK_HEADER;
      if header !in chunks {
        return;
      }
      FreeBlock(header, c);
      forall d | d in InUse(row) ensures Signed(d) {
        assert old(Signed(d));
      }
    }

    /** _kfree: marks the block free and merges free neighbours in one pass over the list. */
    method FreeBlock(ptr: nat, ghost c: Cell)
      requires Valid() && c in InUse(row) && ptr == c.addr + HEADER
      modifies this`blocks, this`row
      ensures Shape() && Coalesced(row) && InUse(row) == old(InUse(row)) - {c}
    {
      ghost var i :| 0 <= i < |row| && row[i] == c;
      Inside(row, heapStart, heapEnd, i);
      assert Linked(blocks, row, i);
      if heapStart != 0 && ptr - 12 >= heapStart {
        // Twelve bytes below a chunk lies the upper half of the header's `next` pointer.
        var upper := blocks[ptr - HEADER].next / 0x1_0000_0000;
        NextIsKernelAddress(i);
        if upper == MAGIC {
          assert false;
        }
      }
      FreedLinked(blocks, row, heapStart, heapEnd, i);
      FreedTiles(row, heapStart, heapEnd, i);
      blocks := blocks[ptr - HEADER := blocks[ptr - HEADER].(free := true)];
      row := Freed(row, i);
      Coalesce();
    }

    lemma NextIsKernelAddress(i: nat)
      requires Shape() && i < |row|
      ensures Linked(blocks, row, i) && blocks[row[i].addr].next / 0x1_0000_0000 != MAGIC
    {
      assert Linked(blocks, row, i);
      if i + 1 < |row| {
        Inside(row, heapStart, heapEnd, i + 1);
      }
    }

    method Coalesce()
      requires Shape() && freeList != 0
      modifies this`blocks, this`row
      ensures Shape() && Coalesced(row) && InUse(row) == old(InUse(row))
    {
      ghost var i: nat := 0;
      var cur := freeList;
      assert Linked(blocks, row, 0);
      while blocks[cur].next != 0
        invariant i < |row| && cur == row[i].addr && Shape() && Linked(blocks, row, i)
        invariant forall j: nat {:trigger Settled(row, j)} :: j < i ==> Settled(row, j)
        invariant InUse(row) == old(InUse(row))
        decreases |row| - i
      {
        assert i + 1 < |row| && Linked(blocks, row, i + 1) && Fits(row, i, heapEnd);
        var block := blocks[cur];
        var next := blocks[block.next];
        if block.free && next.free && cur + HEADER + block.size == block.next {
          MergeCells(cur, i);
        } else {
          assert Settled(row, i);
          cur := block.next;
          i := i + 1;
        }
      }
      LastCell(i);
    }

    lemma LastCell(i: nat)
      requires Shape() && i < |row| && Linked(blocks, row, i) && blocks[row[i].addr].next == 0
      requires forall j: nat {:trigger Settled(row, j)} :: j < i ==> Settled(row, j)
      ensures Coalesced(row)
    {
      EndOfRow(i + 1);
    }

    method MergeCells(cur: nat, ghost i: nat)
      requires Shape() && freeList != 0 && i + 1 < |row| && cur == row[i].addr && row[i].free && row[i + 1].free
      requires forall j: nat {:trigger Settled(row, j)} :: j < i ==> Settled(row, j)
      requires Linked(blocks, row, i) && Linked(blocks, row, i + 1)
      modifies this`blocks, this`row
      ensures Shape() && i < |row| < |old(row)| && cur == row[i].addr && Linked(blocks, row, i)
      ensures forall j: nat {:trigger Settled(row, j)} :: j < i ==> Settled(row, j)
      ensures InUse(row) == old(InUse(row))
    {
      ghost var row0 := row;
      MergedLinked(blocks, row, heapStart, heapEnd, i);
      MergedTiles(row, heapStart, heapEnd, i);
      var block := blocks[cur];
      var next := blocks[block.next];
      blocks := blocks[cur := block.(size := block.size + HEADER + next.size, next := next.next)];
      row := Merged(row, i);
      assert Linked(blocks, row, i);
      forall j: nat | j < i ensures Settled(row, j) {
        assert Settled(row0, j);
      }
    }

    /** Memory handed out is never handed out twice: live pointers have their bytes to themselves. */
    lemma LiveDisjoint(p: nat, c: Cell, q: nat, d: Cell)
      requires Valid() && freeList != 0 && Live(p, c) && Live(q, d) && c != d
      ensures p % ALIGNMENT == 0 && p - CHUNK_HEADER in chunks && q - CHUNK_HEADER in chunks
      ensures p + chunks[p - CHUNK_HEADER] <= q - CHUNK_HEADER - HEADER
           || q + chunks[q - CHUNK_HEADER] <= p - CHUNK_HEADER - HEADER
    {
      assert Signed(c) && Signed(d);
      var i :| 0 <= i < |row| && row[i] == c;
      var j :| 0 <= j < |row| && row[j] == d;
      Disjoint(row, heapStart, heapEnd, i, j);
      assert Fits(row, i, heapEnd);
    }

    /** When every live pointer has been freed, the heap is the one free block it began as. */
    lemma EmptyHeap()
      requires Valid() && freeList != 0 && InUse(row) == {}
      ensures |row| == 1 && row[0].free && row[0].addr == heapStart && End(row[0]) == heapEnd
    {
      AllFreeIsOne(row, heapStart, heapEnd);
    }
  }

  /** On a heap of one page a second small request is granted, too: the first one leaves the rest of the page free. */
  method GrantsTwice() returns (h: Heap, p: nat, q: nat, ghost c: Cell, ghost d: Cell)
    ensures h.Valid() && p != 0 && q != 0 && h.Live(p, c) && h.Live(q, d) && c != d
  {
    h := new Heap();
    h.Init(KERNEL_HALF, 4096);
    assert h.row[0] in h.row && Fits(h.row, 0, h.heapEnd);
    RequestIsRounded(8);
    ghost var k;
    p, c, k := h.Kmalloc(8);
    assert h.row[1] in h.row && h.row[1].free;
    ghost var live := InUse(h.row);
    q, d, k := h.Kmalloc(8);
    assert c in live;
  }

  /** A heap of one page grants the largest size that a caller can name, with a block of 24 bytes. */
  method GrantsTooMuch() returns (h: Heap, ptr: nat, ghost c: Cell)
    ensures ptr != 0 && c in InUse(h.row) && ptr + (ADDRESS_RANGE - 1) > End(c) && !h.Valid()
  {
    h := new Heap();
    h.Init(KERNEL_HALF, 4096);
    assert Request(ADDRESS_RANGE - 1) == 23 && AlignUpWord(23) == 24;
    assert h.row[0] in h.row;
    assert Fits(h.row, 0, h.heapEnd);
    ghost var k;
    ptr, c, k := h.Kmalloc(ADDRESS_RANGE - 1);
  }
}
