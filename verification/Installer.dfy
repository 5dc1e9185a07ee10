/** The installer: logged writes through the block cache, and undoing them. */
module Installer {
  import opened PageEntry
  import opened PageTree
  import opened Words
  import opened BlockCache
  import opened UndoLog

  const UNINSTALL_DATA_MAX: nat := 256

  class Session {
    const dev: Device
    const log: array<Saved>
    const rev: array<Saved>
    var logged: nat
    ghost const original: seq<byte>

    /** A new session on a device: nothing logged yet. */
    constructor (dev: Device)
      requires dev.Valid() && dev.Coherent() && !dev.dirty
      ensures Valid() && dev.Coherent() && logged == 0 && original == dev.disk
      ensures this.dev == dev && fresh(log) && fresh(rev)
    {
      this.dev := dev;
      log := new Saved[UNINSTALL_DATA_MAX](i => Saved(0, []));
      rev := new Saved[UNINSTALL_DATA_MAX](i => Saved(0, []));
      logged := 0;
      original := dev.disk;
    }

    ghost function Repr(): set<object> {
      {this, log, rev, dev, dev.cache}
    }

    ghost predicate Shape()
      reads this, dev
    {
      && log.Length == rev.Length == UNINSTALL_DATA_MAX && logged <= UNINSTALL_DATA_MAX && log != rev
      && dev.Valid() && (log as object) != dev.cache && (rev as object) != dev.cache
    }

    /** Both what readers see and what is physically on the device can be undone to the original. */
    ghost predicate Valid()
      reads this, log, dev, dev.cache
    {
      && Shape()
      && Undoable(original, log[..logged], dev.View())
      && Undoable(original, log[..logged], dev.disk)
      && AllReachable(log[..logged])
    }

    // Every entry has bytes, and lies on the device.
    ghost predicate AllReachable(es: seq<Saved>)
      reads dev
    {
      forall i {:trigger es[i]} :: 0 <= i < |es| ==> InReach(es[i])
    }

    ghost predicate InReach(e: Saved)
      reads dev
    {
      |e.data| > 0 && dev.Reachable(e.loc, |e.data|)
    }

    // Saves what a range holds, as the entry after the last.
    method Save(loc: nat, count: nat) returns (ok: bool)
      requires Valid() && dev.Coherent() && 0 < count && logged < UNINSTALL_DATA_MAX
      modifies log, dev, dev.cache
      ensures Valid() && dev.View() == old(dev.View()) && log[..logged] == old(log[..logged])
      ensures ok <==> dev.Reachable(loc, count)
      ensures ok ==>
        dev.Coherent() && loc + count <= dev.size && log[logged] == Saved(loc, dev.View()[loc..loc + count])
    {
      ghost var es := log[..logged];
      var saved;
      ok, saved := DeviceRead(loc, count);
      if ok {
        log[logged] := Saved(loc, saved);
        assert log[..logged] == es;
      }
    }

    /** Writes a range, after saving in the log what it held.  A write that fails has changed nothing that readers
        see, and undoing still gives the original. */
    method DeviceWrite(loc: nat, data: seq<byte>) returns (ok: bool)
      requires Valid() && dev.Coherent() && 0 < |data|
      modifies this`logged, log, dev, dev.cache
      ensures Valid()
      ensures ok <==> old(logged) < UNINSTALL_DATA_MAX && dev.Reachable(loc, |data|)
      ensures ok <==> old(logged) < 256 && loc + |data| <= dev.size - dev.size % dev.blockSize
      ensures ok ==> dev.Coherent() && logged == old(logged) + 1
      ensures ok ==> loc + |data| <= dev.size && dev.View() == Patched(old(dev.View()), loc, data)
      ensures ok ==> log[..logged] == old(log[..logged]) + [Saved(loc, old(dev.View())[loc..loc + |data|])]
      ensures !ok ==> dev.View() == old(dev.View()) && logged == old(logged) && log[..logged] == old(log[..logged])
    {
      dev.CapacityIs();
      if logged >= UNINSTALL_DATA_MAX {
        return false;
      }
      ok := Save(loc, |data|);
      if ok {
        WriteSaved(loc, data);
      }
    }

    // The write itself, once its range is saved.
    method WriteSaved(loc: nat, data: seq<byte>)
      requires Valid() && dev.Coherent() && 0 < |data| && logged < UNINSTALL_DATA_MAX
      requires dev.Reachable(loc, |data|) && loc + |data| <= dev.size
      requires log[logged] == Saved(loc, dev.View()[loc..loc + |data|])
      modifies this`logged, dev, dev.cache
      ensures Valid() && dev.Coherent() && logged == old(logged) + 1
      ensures dev.View() == Patched(old(dev.View()), loc, data)
      ensures log[..logged] == old(log[..logged]) + [Saved(loc, old(dev.View())[loc..loc + |data|])]
    {
      ghost var es, view, disk := log[..logged], dev.View(), dev.disk;
      ghost var e := log[logged];
      ghost var done;
      var ok;
      ok, done := dev.Write(loc, data);
      assert data[..|data|] == data;
      logged := logged + 1;
      assert log[..logged] == es + [e];
      LoggedWrite(original, es, view, e, dev.View(), disk);
      LoggedWrite(original, es, view, e, dev.disk, disk);
    }

    /** Reads a range through the cache. */
    method DeviceRead(loc: nat, count: nat) returns (ok: bool, buffer: seq<byte>)
      requires Valid() && dev.Coherent() && 0 < count
      modifies dev, dev.cache
      ensures Valid() && dev.View() == old(dev.View())
      ensures ok <==> dev.Reachable(loc, count)
      ensures ok ==> dev.Coherent() && loc + count <= dev.size && buffer == dev.View()[loc..loc + count]
    {
      ghost var es, view, disk0 := log[..logged], dev.View(), dev.disk;
      ok, buffer := dev.Read(loc, count);
      assert log[..logged] == es;
      UndoableMixed(original, es, view, disk0, dev.disk);
    }

    /** Turns the log round, in place. */
    method ReverseUninstallData()
      requires Shape()
      modifies log, rev
      ensures Shape() && log[..logged] == Reversed(old(log[..logged]))
    {
      ghost var es := log[..logged];
      var i, j := 0, logged - 1;
      while i < logged
        invariant 0 <= i <= logged && j == logged - 1 - i
        invariant log[..logged] == es
        invariant forall k :: logged - i <= k < logged ==> rev[k] == es[logged - 1 - k]
      {
        rev[j] := log[i];
        i, j := i + 1, j - 1;
      }
      assert rev[..logged] == Reversed(es);
      CopyBack();
    }

    // memcpy from the one array to the other
    method CopyBack()
      requires Shape()
      modifies log
      ensures log[..logged] == rev[..logged]
    {
      for k := 0 to logged
        invariant forall l :: 0 <= l < k ==> log[l] == rev[l]
      {
        log[k] := rev[k];
      }
    }

    /** Drops whatever the cache holds and writes the log's entries back, in their order. */
    method Uninstall()
      requires Shape() && AllInRange(log[..logged], |dev.disk|) && AllReachable(log[..logged])
      modifies dev, dev.cache
      ensures Shape() && log[..logged] == old(log[..logged]) && AllInRange(log[..logged], old(|dev.disk|))
      ensures dev.disk == Replay(old(dev.disk), log[..logged]) && !dev.dirty
    {
      ghost var disk0, es := dev.disk, log[..logged];
      dev.dirty := false;
      dev.cachedBlock := NO_BLOCK;
      var i := 0;
      while i < logged
        invariant 0 <= i <= logged && Shape() && dev.Coherent() && log[..logged] == es
        invariant dev.View() == Replay(disk0, es[..i])
      {
        assert InReach(es[i]) && InRange(es[i], |disk0|) && es[i] == log[i];
        WriteBack(es[i], log[i].loc, log[i].data);
        ReplayNext(disk0, es, i);
        i := i + 1;
      }
      assert es[..logged] == es;
      dev.FlushCache();
      assert log[..logged] == es;
    }

    method WriteBack(ghost e: Saved, loc: nat, data: seq<byte>)
      requires Shape() && dev.Coherent() && e == Saved(loc, data) && InReach(e) && InRange(e, dev.size)
      modifies dev, dev.cache
      ensures Shape() && dev.Coherent() && log[..logged] == old(log[..logged])
      ensures dev.View() == Patched(old(dev.View()), loc, data)
    {
      ghost var es := log[..logged];
      ghost var done;
      var ok;
      ok, done := dev.Write(loc, data);
      assert data[..|data|] == data;
      assert log[..logged] == es;
    }

    /** In every state of a session, turning the log round and replaying it on the physical device, without what is
        still in the cache, gives back the original device. */
    lemma AlwaysUndoable()
      requires Valid()
      ensures AllInRange(Reversed(log[..logged]), |dev.disk|) && |dev.View()| == |dev.disk|
      ensures Replay(dev.disk, Reversed(log[..logged])) == original
      ensures Replay(dev.View(), Reversed(log[..logged])) == original
    {
      UndoRestores(original, log[..logged], dev.disk);
      UndoRestores(original, log[..logged], dev.View());
    }

    /** What the installer does when a step fails: whatever was written, the device is as it was found. */
    method RollBack()
      requires Valid()
      modifies log, rev, dev, dev.cache
      ensures Shape() && dev.disk == original
    {
      AlwaysUndoable();
      ghost var es := log[..logged];
      ReverseUninstallData();
      ReversedInReach(es);
      Uninstall();
    }

    /** What the installer does when all steps have succeeded: everything is on the device, and the log is turned
        round and stored. */
    method Finish() returns (ok: bool, file: seq<byte>)
      requires Valid()
      modifies log, rev, dev, dev.cache
      ensures Shape() && dev.disk == old(dev.View())
      ensures ok && file == File(Reversed(old(log[..logged])))
    {
      ghost var es := log[..logged];
      ReversedInReach(es);
      dev.FlushCache();
      assert log[..logged] == es;
      ReverseUninstallData();
      forall i | 0 <= i < logged ensures |log[i].data| > 0 {
        assert InReach(Reversed(es)[i]) && log[i] == log[..logged][i];
      }
      ok, file := StoreUninstallData(log, logged);
    }

    lemma ReversedInReach(es: seq<Saved>)
      requires AllReachable(es)
      ensures AllReachable(Reversed(es))
    {
      var r := Reversed(es);
      forall i | 0 <= i < |r| ensures InReach(r[i]) {
        assert InReach(es[|es| - 1 - i]);
      }
    }
  }

  // ---------------------------------------------------------------- keeping the log for later

  lemma RecordsNext(es: seq<Saved>, i: nat)
    requires i < |es|
    ensures Records(es[..i + 1]) == Records(es[..i]) + Record(es[i])
  {
    assert es[..i + 1][..i] == es[..i] && es[..i + 1][i] == es[i];
  }

  method AppendRecord(file0: seq<byte>, e: Saved) returns (file: seq<byte>)
    ensures file == file0 + Record(e)
  {
    file := file0 + WordBytes(e.loc, 8);
    file := file + WordBytes(|e.data|, 8);
    file := file + e.data;
  }

  /** Writes the log to a file; it fails exactly when an entry has no bytes. */
  method StoreUninstallData(log: array<Saved>, logged: nat) returns (ok: bool, file: seq<byte>)
    requires logged <= log.Length
    ensures ok <==> forall i :: 0 <= i < logged ==> |log[i].data| > 0
    ensures ok ==> file == File(log[..logged])
  {
    ghost var es := log[..logged];
    file := WordBytes(logged, 8);
    for i := 0 to logged
      invariant file == WordBytes(logged, 8) + Records(es[..i])
      invariant forall k :: 0 <= k < i ==> |log[k].data| > 0
    {
      if |log[i].data| == 0 {
        return false, file;
      }
      RecordsNext(es, i);
      file := AppendRecord(file, log[i]);
    }
    assert es[..logged] == es;
    ok := true;
  }

  // The file was cut short, or never was a log.
  function ReadWord(file: seq<byte>, at: nat): Option<nat> {
    if at + 8 <= |file| then Some(WordValue(file, at, 8)) else None
  }

  lemma WordInFile(file: seq<byte>, at: nat, x: nat)
    requires Holds(file, at, WordBytes(x, 8)) && x < 0x1_0000_0000_0000_0000
    ensures ReadWord(file, at) == Some(x)
  {
    ByteRangeOf8();
    WordRoundTrip(file, at, x, 8);
  }

  // What reading finds where a record lies.
  lemma RecordRead(file: seq<byte>, at: nat, e: Saved)
    requires Holds(file, at, Record(e)) && Storable(e)
    ensures ReadWord(file, at) == Some(e.loc) && ReadWord(file, at + 8) == Some(|e.data|)
    ensures at + 16 + |e.data| <= |file| && file[at + 16..at + 16 + |e.data|] == e.data
  {
    var r := Record(e);
    HoldsPart(file, at, r, 0, 8);
    assert r[0..8] == WordBytes(e.loc, 8);
    WordInFile(file, at, e.loc);
    HoldsPart(file, at, r, 8, 16);
    assert r[8..16] == WordBytes(|e.data|, 8);
    WordInFile(file, at + 8, |e.data|);
    HoldsPart(file, at, r, 16, |r|);
    assert r[16..|r|] == e.data;
    HoldsSlice(file, at + 16, e.data);
  }

  lemma HoldsSlice(file: seq<byte>, at: nat, what: seq<byte>)
    requires Holds(file, at, what)
    ensures file[at..at + |what|] == what
  {
    var part := file[at..at + |what|];
    forall k | 0 <= k < |what| ensures part[k] == what[k] {
    }
  }

  // A record that was read is what the file holds there.
  lemma RecordFound(file: seq<byte>, at: nat, e: Saved)
    requires ReadWord(file, at) == Some(e.loc) && ReadWord(file, at + 8) == Some(|e.data|)
    requires at + 16 + |e.data| <= |file| && file[at + 16..at + 16 + |e.data|] == e.data
    ensures Holds(file, at, Record(e)) && e.loc < WORD_RANGE && |e.data| < WORD_RANGE
  {
    WordFound(file, at, e.loc);
    WordFound(file, at + 8, |e.data|);
    SliceHeld(file, at + 16, e.data);
    HoldsBoth(file, at, WordBytes(e.loc, 8), WordBytes(|e.data|, 8));
    HoldsBoth(file, at, WordBytes(e.loc, 8) + WordBytes(|e.data|, 8), e.data);
  }

  lemma WordFound(file: seq<byte>, at: nat, x: nat)
    requires ReadWord(file, at) == Some(x)
    ensures Holds(file, at, WordBytes(x, 8)) && x < WORD_RANGE
  {
    ByteRangeOf8();
    ValueRoundTrip(file, at, 8);
    SliceHeld(file, at, WordBytes(x, 8));
  }

  lemma HoldsBoth(file: seq<byte>, at: nat, a: seq<byte>, b: seq<byte>)
    requires Holds(file, at, a) && Holds(file, at + |a|, b)
    ensures Holds(file, at, a + b)
  {
    var both := a + b;
    forall k | 0 <= k < |both| ensures file[at + k] == both[k] {
      if k >= |a| {
        assert file[at + |a| + (k - |a|)] == b[k - |a|];
      }
    }
  }

  lemma SliceHeld(file: seq<byte>, at: nat, what: seq<byte>)
    requires at + |what| <= |file| && what == file[at..at + |what|]
    ensures Holds(file, at, what)
  {
    forall k | 0 <= k < |what| ensures file[at + k] == what[k] {
      assert file[at..at + |what|][k] == file[at + k];
    }
  }

  // One entry of the file, and where the next one begins: it is loaded just if there is one.
  method LoadEntry(file: seq<byte>, at: nat) returns (ok: bool, e: Saved, next: nat)
    ensures forall x: Saved :: Storable(x) && Holds(file, at, Record(x)) ==> ok && e == x && next == at + |Record(x)|
    ensures ok ==> Storable(e) && Holds(file, at, Record(e)) && next == at + |Record(e)|
  {
    e, next := Saved(0, []), at;
    var loc, count := ReadWord(file, at), ReadWord(file, at + 8);
    ok := loc.Some? && count.Some? && count.value > 0 && at + 16 + count.value <= |file|;
    if ok {
      next := at + 16 + count.value;
      e := Saved(loc.value, file[at + 16..next]);
      RecordFound(file, at, e);
    }
    forall x: Saved | Storable(x) && Holds(file, at, Record(x))
      ensures ok && e == x && next == at + |Record(x)|
    {
      RecordRead(file, at, x);
    }
  }

  predicate AllStorable(es: seq<Saved>) {
    forall i :: 0 <= i < |es| ==> Storable(es[i])
  }

  // The file begins with the count and the entries es.
  ghost predicate HasLog(file: seq<byte>, es: seq<Saved>) {
    |es| <= UNINSTALL_DATA_MAX && AllStorable(es) && Holds(file, 0, File(es))
  }

  /** Reads a log back: it succeeds exactly for files that begin with a log, and loads just that log. */
  method LoadUninstallData(file: seq<byte>, log: array<Saved>, ghost es: seq<Saved>) returns (ok: bool, logged: nat)
    requires log.Length == UNINSTALL_DATA_MAX
    modifies log
    ensures ok ==> logged <= UNINSTALL_DATA_MAX && HasLog(file, log[..logged])
    ensures HasLog(file, es) ==> ok && logged == |es| && log[..logged] == es
  {
    ghost var stored := HasLog(file, es);
    var count := ReadWord(file, 0);
    if stored {
      CountInFile(file, es);
    }
    if count.None? || count.value > UNINSTALL_DATA_MAX {
      return false, 0;
    }
    logged := count.value;
    var at := 8;
    CountFound(file, logged);
    for i := 0 to logged
      invariant at == 8 + |Records(log[..i])| && AllStorable(log[..i])
      invariant Holds(file, 0, WordBytes(logged, 8) + Records(log[..i]))
      invariant stored ==> log[..i] == es[..i]
    {
      if stored {
        EntryInFile(file, es, i);
      }
      var e, next;
      ok, e, next := LoadEntry(file, at);
      if !ok {
        return;
      }
      EntryFound(file, WordBytes(logged, 8), log[..i], e);
      log[i] := e;
      at := next;
      assert log[..i + 1] == log[..i] + [e];
      assert stored ==> log[..i + 1] == es[..i] + [es[i]] == es[..i + 1];
    }
    assert stored ==> es[..logged] == es;
    ok := true;
  }

  lemma CountFound(file: seq<byte>, count: nat)
    requires ReadWord(file, 0) == Some(count)
    ensures Holds(file, 0, WordBytes(count, 8) + Records([]))
  {
    ValueRoundTrip(file, 0, 8);
    assert WordBytes(count, 8) + Records([]) == file[0..8];
    SliceHeld(file, 0, WordBytes(count, 8) + Records([]));
  }

  // One more record right after those before.
  lemma EntryFound(file: seq<byte>, count: seq<byte>, es: seq<Saved>, e: Saved)
    requires Holds(file, 0, count + Records(es)) && Holds(file, |count| + |Records(es)|, Record(e))
    ensures Records(es + [e]) == Records(es) + Record(e) && Holds(file, 0, count + Records(es + [e]))
  {
    var more := es + [e];
    assert more[..|es|] == es && more[|es|] == e;
    var what, before := count + Records(more), count + Records(es);
    assert what == before + Record(e);
    forall k | 0 <= k < |what| ensures file[0 + k] == what[k] {
      if k < |before| {
        assert what[k] == before[k] && file[0 + k] == before[k];
      } else {
        assert what[k] == Record(e)[k - |before|];
        assert file[|before| + (k - |before|)] == Record(e)[k - |before|];
      }
    }
  }

  lemma CountInFile(file: seq<byte>, es: seq<Saved>)
    requires |es| <= UNINSTALL_DATA_MAX && Holds(file, 0, File(es))
    ensures ReadWord(file, 0) == Some(|es|)
  {
    HoldsPart(file, 0, File(es), 0, 8);
    assert File(es)[0..8] == WordBytes(|es|, 8);
    WordInFile(file, 0, |es|);
  }

  lemma EntryInFile(file: seq<byte>, es: seq<Saved>, i: nat)
    requires Holds(file, 0, File(es)) && i < |es|
    ensures Holds(file, 8 + |Records(es[..i])|, Record(es[i]))
  {
    FileEntry(es, i);
    var at := 8 + |Records(es[..i])|;
    var r := Record(es[i]);
    forall k | 0 <= k < |r| ensures file[at + k] == r[k] {
      assert File(es)[at + k] == r[k] && file[0 + (at + k)] == File(es)[at + k];
    }
  }

  /** Uninstalling later, from the log kept in a file and turned round before it was stored: the device is given back
      as the log's session found it. */
  method UninstallFromFile(dev: Device, file: seq<byte>, ghost original: seq<byte>,
                           ghost es: seq<Saved>) returns (ok: bool)
    requires dev.Valid() && dev.Coherent() && !dev.dirty && Undoable(original, es, dev.disk)
    requires |es| <= UNINSTALL_DATA_MAX && file == File(Reversed(es))
    requires forall i :: 0 <= i < |es| ==> Storable(es[i]) && es[i].loc + |es[i].data| <= dev.Capacity()
    modifies dev, dev.cache
    ensures ok && dev.Valid() && dev.disk == original
  {
    var session := new Session(dev);
    ghost var r := Reversed(es);
    UndoRestores(original, es, dev.disk);
    ReversedInFile(file, es, dev.Capacity());
    var logged;
    ok, logged := LoadUninstallData(file, session.log, r);
    if ok {
      session.logged := logged;
      assert session.log[..logged] == r;
      session.Uninstall();
    }
  }

  lemma ReversedInFile(file: seq<byte>, es: seq<Saved>, capacity: nat)
    requires |es| <= UNINSTALL_DATA_MAX && file == File(Reversed(es))
    requires forall i :: 0 <= i < |es| ==> Storable(es[i]) && es[i].loc + |es[i].data| <= capacity
    ensures var r := Reversed(es);
      && HasLog(file, r) && forall i :: 0 <= i < |r| ==> |r[i].data| > 0 && r[i].loc + |r[i].data| <= capacity
  {
    var r := Reversed(es);
    SliceHeld(file, 0, File(r));
    forall i | 0 <= i < |r| ensures Storable(r[i]) && |r[i].data| > 0 && r[i].loc + |r[i].data| <= capacity {
      assert r[i] == es[|es| - 1 - i];
    }
  }

  lemma SameCapacity(a: Device, b: Device)
    requires a.Valid() && b.Valid() && a.size == b.size && a.blockSize == b.blockSize
    ensures a.Capacity() == b.Capacity()
  {
    a.WholeMeans(b.blocks);
    b.WholeMeans(a.blocks);
  }

  // The entries of a session can be stored, and written back later.
  lemma EntriesStorable(session: Session)
    requires session.Valid() && session.dev.size < WORD_RANGE
    ensures var es := session.log[..session.logged];
      forall i :: 0 <= i < |es| ==> Storable(es[i]) && es[i].loc + |es[i].data| <= session.dev.Capacity()
  {
    var es := session.log[..session.logged];
    forall i | 0 <= i < |es| ensures Storable(es[i]) && es[i].loc + |es[i].data| <= session.dev.Capacity() {
      assert session.InReach(es[i]) && InRange(es[i], session.dev.size);
    }
  }

  /** An installation that succeeded, and its undoing at a later time: the log goes through the file, the device is
      opened anew, and in the end holds byte for byte what the installer found. */
  method InstallThenUninstall(session: Session) returns (later: Device)
    requires session.Valid() && session.dev.size < WORD_RANGE
    modifies session.log, session.rev, session.dev, session.dev.cache
    ensures later.Valid() && later.disk == session.original
  {
    ghost var es := session.log[..session.logged];
    EntriesStorable(session);
    var ok, file := session.Finish();
    later := new Device(session.dev.disk, session.dev.blockSize);
    SameCapacity(session.dev, later);
    ok := UninstallFromFile(later, file, session.original, es);
  }
}
