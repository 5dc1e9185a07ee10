/** The installer's record of overwritten bytes.  Replayed backwards it gives back the device as it was, whatever
    has become of the bytes that were written. */
module UndoLog {
  import opened PageEntry
  import opened PageTree
  import opened Words

  // What a range held before it was written.
  datatype Saved = Saved(loc: nat, data: seq<byte>)

  predicate InRange(e: Saved, size: nat) {
    e.loc + |e.data| <= size
  }

  predicate AllInRange(es: seq<Saved>, size: nat) {
    forall i :: 0 <= i < |es| ==> InRange(es[i], size)
  }

  // Byte x according to the first entry that has it.
  function FirstByte(es: seq<Saved>, x: nat): Option<byte> {
    if |es| == 0 then None
    else if es[0].loc <= x < es[0].loc + |es[0].data| then Some(es[0].data[x - es[0].loc])
    else FirstByte(es[1..], x)
  }

  // Writing the entries back, in their order.
  function Replay(flat: seq<byte>, es: seq<Saved>): (r: seq<byte>)
    requires AllInRange(es, |flat|)
    ensures |r| == |flat|
    decreases |es|
  {
    if |es| == 0 then flat
    else Patched(Replay(flat, es[..|es| - 1]), es[|es| - 1].loc, es[|es| - 1].data)
  }

  function Reversed(es: seq<Saved>): (r: seq<Saved>)
    ensures |r| == |es| && forall i :: 0 <= i < |es| ==> r[i] == es[|es| - 1 - i]
  {
    if |es| == 0 then [] else Reversed(es[1..]) + [es[0]]
  }

  lemma {:induction false} FirstByteAppend(es: seq<Saved>, e: Saved, x: nat)
    ensures FirstByte(es + [e], x) == if FirstByte(es, x).Some? then FirstByte(es, x) else FirstByte([e], x)
  {
    if |es| > 0 {
      assert (es + [e])[1..] == es[1..] + [e];
      FirstByteAppend(es[1..], e, x);
    } else {
      assert es + [e] == [e];
    }
  }

  // Backwards, the oldest entry has the last word.
  lemma {:induction false} ReplayedByte(flat: seq<byte>, es: seq<Saved>, x: nat)
    requires AllInRange(es, |flat|) && x < |flat|
    ensures AllInRange(Reversed(es), |flat|)
    ensures Replay(flat, Reversed(es))[x] == if FirstByte(es, x).Some? then FirstByte(es, x).value else flat[x]
    decreases |es|
  {
    if |es| > 0 {
      var rest := es[1..];
      ReplayedByte(flat, rest, x);
      assert Reversed(es)[..|es| - 1] == Reversed(rest);
    }
  }

  // Each byte of the original is where the first entry about it says, or, without one, still in place.
  ghost predicate Undoable(original: seq<byte>, es: seq<Saved>, flat: seq<byte>) {
    && |flat| == |original| && AllInRange(es, |original|)
    && forall x: nat {:trigger FirstByte(es, x)} :: x < |original| ==>
         original[x] == if FirstByte(es, x).Some? then FirstByte(es, x).value else flat[x]
  }

  /** Undoing: the log replayed backwards onto the device gives the original, byte for byte. */
  lemma UndoRestores(original: seq<byte>, es: seq<Saved>, flat: seq<byte>)
    requires Undoable(original, es, flat)
    ensures AllInRange(Reversed(es), |flat|) && Replay(flat, Reversed(es)) == original
  {
    var r := Reversed(es);
    forall i | 0 <= i < |r| ensures InRange(r[i], |flat|) {
      assert InRange(es[|es| - 1 - i], |original|);
    }
    forall x: nat | x < |original| ensures Replay(flat, r)[x] == original[x] {
      ReplayedByte(flat, es, x);
    }
  }

  // Logging what a range holds, and then changing at most that range, leaves everything undoable.
  lemma LoggedWrite(original: seq<byte>, es: seq<Saved>, view: seq<byte>, e: Saved, flat: seq<byte>, disk: seq<byte>)
    requires Undoable(original, es, view) && Undoable(original, es, disk)
    requires InRange(e, |original|) && e.data == view[e.loc..e.loc + |e.data|]
    requires |flat| == |view|
    requires forall x :: 0 <= x < |flat| && !(e.loc <= x < e.loc + |e.data|) ==>
      flat[x] == view[x] || flat[x] == disk[x]
    ensures Undoable(original, es + [e], flat)
  {
    forall x: nat | x < |original|
      ensures original[x] == if FirstByte(es + [e], x).Some? then FirstByte(es + [e], x).value else flat[x]
    {
      FirstByteAppend(es, e, x);
      assert [e][1..] == [];
    }
  }

  lemma UndoableMixed(original: seq<byte>, es: seq<Saved>, view: seq<byte>, disk: seq<byte>, flat: seq<byte>)
    requires Undoable(original, es, view) && Undoable(original, es, disk) && |flat| == |view|
    requires forall x :: 0 <= x < |flat| ==> flat[x] == view[x] || flat[x] == disk[x]
    ensures Undoable(original, es, flat)
  {
  }

  lemma ReplayNext(flat: seq<byte>, es: seq<Saved>, i: nat)
    requires i < |es| && AllInRange(es, |flat|)
    ensures Replay(flat, es[..i + 1]) == Patched(Replay(flat, es[..i]), es[i].loc, es[i].data)
  {
    assert es[..i + 1][..i] == es[..i];
  }

  // ---------------------------------------------------------------- the log as a file

  // One entry in the file: where, how many bytes, and the bytes.
  function Record(e: Saved): seq<byte> {
    WordBytes(e.loc, 8) + WordBytes(|e.data|, 8) + e.data
  }

  function Records(es: seq<Saved>): seq<byte>
    decreases |es|
  {
    if |es| == 0 then [] else Records(es[..|es| - 1]) + Record(es[|es| - 1])
  }

  function File(es: seq<Saved>): seq<byte> {
    WordBytes(|es|, 8) + Records(es)
  }

  const WORD_RANGE: nat := 0x1_0000_0000_0000_0000

  // An entry that can be written and read back: stdio reports an item of no bytes as a failure.
  predicate Storable(e: Saved) {
    0 < |e.data| < WORD_RANGE && e.loc < WORD_RANGE
  }

  lemma {:induction false} RecordsPart(es: seq<Saved>, i: nat)
    requires i < |es|
    ensures |Records(es[..i])| + |Record(es[i])| <= |Records(es)|
    ensures Holds(Records(es), |Records(es[..i])|, Record(es[i]))
    decreases |es|
  {
    var k := |es| - 1;
    if i == k {
      assert es[..k] == es[..i];
    } else {
      RecordsPart(es[..k], i);
      assert es[..k][..i] == es[..i];
      HoldsPrefix(Records(es[..k]), Record(es[k]), |Records(es[..i])|, Record(es[i]));
    }
  }

  lemma HoldsPrefix(a: seq<byte>, b: seq<byte>, at: nat, what: seq<byte>)
    requires Holds(a, at, what)
    ensures Holds(a + b, at, what)
  {
  }

  lemma HoldsShifted(a: seq<byte>, b: seq<byte>, at: nat, what: seq<byte>)
    requires Holds(b, at, what)
    ensures Holds(a + b, |a| + at, what)
  {
    forall k | 0 <= k < |what| ensures (a + b)[|a| + at + k] == what[k] {
      assert (a + b)[|a| + (at + k)] == b[at + k];
    }
  }

  // Where in the file entry i is, and what is there.
  lemma FileEntry(es: seq<Saved>, i: nat)
    requires i < |es|
    ensures var at := 8 + |Records(es[..i])|;
      Holds(File(es), at, Record(es[i])) && at + |Record(es[i])| == 8 + |Records(es[..i + 1])| <= |File(es)|
  {
    RecordsPart(es, i);
    HoldsShifted(WordBytes(|es|, 8), Records(es), |Records(es[..i])|, Record(es[i]));
    assert es[..i + 1][..i] == es[..i];
    if i + 1 < |es| {
      RecordsPart(es, i + 1);
    } else {
      assert es[..i + 1] == es;
    }
  }

  // Entry i begins behind the count and the entries before it, each of which has 16 bytes and its data.
  function EntryAt(es: seq<Saved>, i: nat): nat
    requires i <= |es|
  {
    if i == 0 then 8 else EntryAt(es, i - 1) + 16 + |es[i - 1].data|
  }

  lemma {:induction false} EntryOffset(es: seq<Saved>, i: nat)
    requires i <= |es|
    ensures EntryAt(es, i) == 8 + |Records(es[..i])|
    decreases i
  {
    if i > 0 {
      EntryOffset(es, i - 1);
      assert es[..i][..i - 1] == es[..i - 1];
    }
  }

  lemma WordThere(file: seq<byte>, at: nat, x: nat)
    requires Holds(file, at, WordBytes(x, 8)) && x < WORD_RANGE
    ensures at + 8 <= |file| && WordValue(file, at, 8) == x
  {
    ByteRangeOf8();
    WordRoundTrip(file, at, x, 8);
  }

  /** The file in its own terms: eight bytes for the number of entries, and for each of them eight for where, eight for
      how many, and the bytes. */
  lemma FileLayout(es: seq<Saved>, i: nat)
    requires i < |es| < WORD_RANGE && Storable(es[i])
    ensures |File(es)| == EntryAt(es, |es|) && EntryAt(es, i) + 16 + |es[i].data| <= |File(es)|
    ensures WordValue(File(es), 0, 8) == |es|
    ensures var at := EntryAt(es, i);
      && WordValue(File(es), at, 8) == es[i].loc && WordValue(File(es), at + 8, 8) == |es[i].data|
      && File(es)[at + 16..at + 16 + |es[i].data|] == es[i].data
  {
    var file, at := File(es), EntryAt(es, i);
    EntryOffset(es, i);
    EntryOffset(es, |es|);
    assert es[..|es|] == es;
    WordThere(file, 0, |es|);
    FileEntry(es, i);
    EntryParts(file, at, es[i]);
  }

  lemma EntryParts(file: seq<byte>, at: nat, e: Saved)
    requires Storable(e) && Holds(file, at, Record(e))
    ensures at + 16 + |e.data| <= |file|
    ensures WordValue(file, at, 8) == e.loc && WordValue(file, at + 8, 8) == |e.data|
    ensures file[at + 16..at + 16 + |e.data|] == e.data
  {
    var r := Record(e);
    HoldsPart(file, at, r, 0, 8);
    HoldsPart(file, at, r, 8, 16);
    HoldsPart(file, at, r, 16, |r|);
    assert r[0..8] == WordBytes(e.loc, 8) && r[8..16] == WordBytes(|e.data|, 8) && r[16..|r|] == e.data;
    WordThere(file, at, e.loc);
    WordThere(file, at + 8, |e.data|);
    assert |file[at + 16..at + 16 + |e.data|]| == |e.data|;
    forall k | 0 <= k < |e.data| ensures file[at + 16 + k] == e.data[k] {
    }
  }
}
