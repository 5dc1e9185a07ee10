/** The kernel heap as a row of cells: what every operation on it keeps, and what the row looks like afterwards. */
module HeapCells {

  const HEADER: nat := 24
  const ALIGNMENT: nat := 8

  // A block: where its header is, how many bytes follow the header, and whether they are free.
  datatype Cell = Cell(addr: nat, size: nat, free: bool)

  type Row = seq<Cell>

  function End(c: Cell): nat {
    c.addr + HEADER + c.size
  }

  // Cell i ends where the next one begins, or where the heap ends, and begins at a multiple of 8.
  predicate Fits(row: Row, i: nat, end: nat)
    requires i < |row|
  {
    End(row[i]) == (if i + 1 < |row| then row[i + 1].addr else end) && row[i].addr % ALIGNMENT == 0
  }

  predicate Settled(row: Row, i: nat)
    requires i < |row|
  {
    i + 1 < |row| && row[i].free ==> !row[i + 1].free
  }

  // The cells cover the heap from start to end without a gap.
  predicate Tiles(row: Row, start: nat, end: nat) {
    && |row| > 0 && row[0].addr == start
    && forall i: nat {:trigger Fits(row, i, end)} :: i < |row| ==> Fits(row, i, end)
  }

  // No two neighbours are both free.
  predicate Coalesced(row: Row) {
    forall i: nat {:trigger Settled(row, i)} :: i < |row| ==> Settled(row, i)
  }

  function InUse(row: Row): set<Cell> {
    set c | c in row && !c.free
  }

  // ---------------------------------------------------------------- consequences

  lemma {:induction false} InOrder(row: Row, start: nat, end: nat, i: nat, j: nat)
    requires Tiles(row, start, end) && i < j < |row|
    ensures End(row[i]) <= row[j].addr
    decreases j
  {
    assert Fits(row, j - 1, end);
    if i < j - 1 {
      InOrder(row, start, end, i, j - 1);
    }
  }

  lemma {:induction false} Inside(row: Row, start: nat, end: nat, i: nat)
    requires Tiles(row, start, end) && i < |row|
    ensures start <= row[i].addr && End(row[i]) <= end
  {
    if i > 0 {
      InOrder(row, start, end, 0, i);
    }
    assert Fits(row, |row| - 1, end);
    if i < |row| - 1 {
      InOrder(row, start, end, i, |row| - 1);
    }
  }

  /** Different cells do not overlap. */
  lemma Disjoint(row: Row, start: nat, end: nat, i: nat, j: nat)
    requires Tiles(row, start, end) && i < |row| && j < |row| && i != j
    ensures End(row[i]) <= row[j].addr || End(row[j]) <= row[i].addr
  {
    if i < j {
      InOrder(row, start, end, i, j);
    } else {
      InOrder(row, start, end, j, i);
    }
  }

  /** With nothing in use, the heap is one free block again. */
  lemma AllFreeIsOne(row: Row, start: nat, end: nat)
    requires Tiles(row, start, end) && Coalesced(row) && InUse(row) == {}
    ensures |row| == 1 && row[0].addr == start && End(row[0]) == end && row[0].free
  {
    assert Settled(row, 0);
    forall i | 0 <= i < |row| ensures row[i].free {
      assert row[i] in InUse(row) || row[i].free;
    }
    assert Fits(row, 0, end);
  }

  // Cells in use with the same address are the same cell.
  lemma SameCell(row: Row, start: nat, end: nat, c: Cell, d: Cell)
    requires Tiles(row, start, end) && c in row && d in row && c.addr == d.addr
    ensures c == d
  {
    var i :| 0 <= i < |row| && row[i] == c;
    var j :| 0 <= j < |row| && row[j] == d;
    if i != j {
      Disjoint(row, start, end, i, j);
    }
  }

  // The rest of the row behind its first cell.
  lemma TailTiles(row: Row, start: nat, end: nat)
    requires Tiles(row, start, end) && Coalesced(row) && |row| > 1
    ensures Tiles(row[1..], End(row[0]), end) && Coalesced(row[1..])
    ensures InUse(row[1..]) == InUse(row) - {row[0]}
  {
    var tail := row[1..];
    assert Fits(row, 0, end);
    forall i: nat | i < |tail| ensures Fits(tail, i, end) && Settled(tail, i) {
      assert Fits(row, i + 1, end) && Settled(row, i + 1);
    }
    forall c | c in tail ensures c in row && c != row[0] {
      var i :| 0 <= i < |tail| && tail[i] == c;
      assert row[i + 1] == c;
      InOrder(row, start, end, 0, i + 1);
    }
  }

  // Two rows whose cells in use agree have the same first cell.
  lemma SameHead(a: Row, b: Row, start: nat, end: nat)
    requires Tiles(a, start, end) && Coalesced(a) && Tiles(b, start, end) && Coalesced(b) && InUse(a) == InUse(b)
    ensures a[0] == b[0]
  {
    if !a[0].free {
      assert a[0] in InUse(b);
      SameCell(b, start, end, a[0], b[0]);
    } else if !b[0].free {
      assert b[0] in InUse(a);
      SameCell(a, start, end, a[0], b[0]);
    } else {
      NotShorter(a, b, start, end);
      NotShorter(b, a, start, end);
    }
  }

  lemma NotShorter(a: Row, b: Row, start: nat, end: nat)
    requires Tiles(a, start, end) && Coalesced(a) && Tiles(b, start, end) && InUse(a) == InUse(b)
    requires a[0].free && b[0].free
    ensures a[0].size >= b[0].size
  {
    assert Fits(a, 0, end) && Settled(a, 0);
    Inside(b, start, end, 0);
    if a[0].size < b[0].size {
      assert a[1] in InUse(b);
      var j :| 0 <= j < |b| && b[j] == a[1];
      Disjoint(b, start, end, 0, j);
    }
  }

  /** The layout of the heap depends only on the blocks in use, not on the order in which others came and went. */
  lemma {:induction false} LayoutIsUnique(a: Row, b: Row, start: nat, end: nat)
    requires Tiles(a, start, end) && Coalesced(a) && Tiles(b, start, end) && Coalesced(b) && InUse(a) == InUse(b)
    ensures a == b
    decreases |a|
  {
    SameHead(a, b, start, end);
    assert Fits(a, 0, end) && Fits(b, 0, end);
    if |a| > 1 {
      InOrder(a, start, end, 0, 1);
    }
    if |b| > 1 {
      InOrder(b, start, end, 0, 1);
    }
    LastEndsRow(a, start, end);
    LastEndsRow(b, start, end);
    if |a| > 1 && |b| > 1 {
      TailTiles(a, start, end);
      TailTiles(b, start, end);
      LayoutIsUnique(a[1..], b[1..], End(a[0]), end);
      assert a == [a[0]] + a[1..] && b == [b[0]] + b[1..];
    }
  }

  // Only the last cell ends where the heap ends.
  lemma LastEndsRow(row: Row, start: nat, end: nat)
    requires Tiles(row, start, end)
    ensures End(row[0]) == end <==> |row| == 1
  {
    assert Fits(row, 0, end);
    if |row| > 1 {
      Inside(row, start, end, 1);
    }
  }

  // ---------------------------------------------------------------- taking a block

  // Cell i with its first `size` bytes taken; what is left becomes a free cell if it is large enough.
  function Taken(row: Row, i: nat, size: nat): Row
    requires i < |row|
  {
    var c := row[i];
    if c.size < size + HEADER + ALIGNMENT then row[i := c.(free := false)]
    else
      row[..i] + [Cell(c.addr, size, false), Cell(c.addr + HEADER + size, c.size - size - HEADER, true)] + row[i + 1..]
  }

  lemma TakenTiles(row: Row, start: nat, end: nat, i: nat, size: nat)
    requires Tiles(row, start, end) && i < |row| && size % ALIGNMENT == 0
    ensures Tiles(Taken(row, i, size), start, end)
  {
    var row' := Taken(row, i, size);
    assert Fits(row, i, end);
    forall j: nat | j < |row'| ensures Fits(row', j, end) {
      if j < i {
        assert Fits(row, j, end);
      } else if |row'| == |row| {
        assert Fits(row, j, end);
      } else if j > i + 1 {
        assert Fits(row, j - 1, end);
      }
    }
  }

  lemma TakenCoalesced(row: Row, i: nat, size: nat)
    requires Coalesced(row) && i < |row| && row[i].free
    ensures Coalesced(Taken(row, i, size))
  {
    var row' := Taken(row, i, size);
    assert Settled(row, i);
    forall j: nat | j < |row'| ensures Settled(row', j) {
      if j < i {
        assert Settled(row, j);
      } else if |row'| == |row| {
        assert Settled(row, j);
      } else if j > i + 1 {
        assert Settled(row, j - 1);
      }
    }
  }

  lemma TakenInUse(row: Row, start: nat, end: nat, i: nat, size: nat)
    requires Tiles(row, start, end) && i < |row| && row[i].free
    ensures InUse(Taken(row, i, size)) == InUse(row) + {Taken(row, i, size)[i]}
    ensures Taken(row, i, size)[i].addr == row[i].addr && !Taken(row, i, size)[i].free
    ensures size <= row[i].size ==> Taken(row, i, size)[i].size >= size
  {
    var row' := Taken(row, i, size);
    forall c | c in row && !c.free ensures c in row' {
      var j :| 0 <= j < |row| && row[j] == c;
      assert row'[if j < i then j else j + (|row'| - |row|)] == c;
    }
    forall c | c in row' && !c.free && c != row'[i] ensures c in row {
      var j :| 0 <= j < |row'| && row'[j] == c;
      assert row[if j < i then j else j - (|row'| - |row|)] == c;
    }
  }

  // ---------------------------------------------------------------- giving a block back

  function Freed(row: Row, i: nat): Row
    requires i < |row|
  {
    row[i := row[i].(free := true)]
  }

  // Cells i and i + 1 as one.
  function Merged(row: Row, i: nat): Row
    requires i + 1 < |row|
  {
    row[..i] + [row[i].(size := row[i].size + HEADER + row[i + 1].size)] + row[i + 2..]
  }

  lemma FreedTiles(row: Row, start: nat, end: nat, i: nat)
    requires Tiles(row, start, end) && i < |row|
    ensures Tiles(Freed(row, i), start, end)
    ensures InUse(Freed(row, i)) == InUse(row) - {row[i]}
  {
    var row' := Freed(row, i);
    forall j: nat | j < |row'| ensures Fits(row', j, end) {
      assert Fits(row, j, end);
    }
    forall c | c in row && !c.free && c != row[i] ensures c in row' {
      var j :| 0 <= j < |row| && row[j] == c;
      assert row'[j] == c;
    }
    forall c | c in row' && !c.free ensures c in row && c != row[i] {
      var j :| 0 <= j < |row'| && row'[j] == c;
      assert row[j] == c;
      if c == row[i] {
        Disjoint(row, start, end, i, j);
      }
    }
  }

  lemma MergedTiles(row: Row, start: nat, end: nat, i: nat)
    requires Tiles(row, start, end) && i + 1 < |row| && row[i].free && row[i + 1].free
    ensures Tiles(Merged(row, i), start, end)
    ensures InUse(Merged(row, i)) == InUse(row)
  {
    var row' := Merged(row, i);
    assert Fits(row, i, end) && Fits(row, i + 1, end);
    forall j: nat | j < |row'| ensures Fits(row', j, end) {
      if j < i {
        assert Fits(row, j, end);
      } else if j > i {
        assert Fits(row, j + 1, end);
      }
    }
    forall c | c in row && !c.free ensures c in row' {
      var j :| 0 <= j < |row| && row[j] == c;
      assert row'[if j < i then j else j - 1] == c;
    }
    forall c | c in row' && !c.free ensures c in row {
      var j :| 0 <= j < |row'| && row'[j] == c;
      assert row[if j < i then j else j + 1] == c;
    }
  }
}
