/** Open files shared between tasks: how often a file is counted, and when it is freed. */
module OpenFiles {
  import opened IntrusiveList

  const MAX_FILES_PER_TASK: nat := 32
  const ENOENT: int := 2
  const EMFILE: int := 24

  type Table = seq<Ptr>  // the descriptors of one task; 0 where there is none

  // An open file: what is open, how far it was read, and how many descriptors share it.
  datatype File = File(inode: nat, offset: nat, refCount: int)

  // Descriptor i of the table refers to f.
  function With(table: Table, i: nat, f: Ptr): (r: Table)
    requires i < |table|
  {
    table[i := f]
  }

  function EmptyTable(): Table {
    seq(MAX_FILES_PER_TASK, i => 0)
  }

  // The descriptors, over all tasks, that refer to file f.
  function Holders(tables: map<Ptr, Table>, f: Ptr): set<(Ptr, nat)> {
    set t, i: nat | t in tables && i < |tables[t]| && tables[t][i] == f :: (t, i)
  }

  ghost predicate TableOk(tables: map<Ptr, Table>, files: map<Ptr, File>, t: Ptr)
    requires t in tables
  {
    && |tables[t]| == MAX_FILES_PER_TASK
    && forall i: nat {:trigger tables[t][i]} :: i < MAX_FILES_PER_TASK && tables[t][i] != 0 ==> tables[t][i] in files
  }

  // A file is there as long as a descriptor refers to it, and counts them all.
  ghost predicate FileOk(tables: map<Ptr, Table>, files: map<Ptr, File>, f: Ptr)
    requires f in files
  {
    f != 0 && files[f].refCount == |Holders(tables, f)| > 0
  }

  ghost predicate Counted(tables: map<Ptr, Table>, files: map<Ptr, File>) {
    && (forall t {:trigger TableOk(tables, files, t)} :: t in tables ==> TableOk(tables, files, t))
    && (forall f {:trigger FileOk(tables, files, f)} :: f in files ==> FileOk(tables, files, f))
  }

  // ---------------------------------------------------------------- one descriptor changes

  lemma SetHolders(tables: map<Ptr, Table>, t: Ptr, i: nat, x: Ptr, f: Ptr)
    requires t in tables && i < |tables[t]|
    ensures var tables' := tables[t := With(tables[t], i, x)];
      Holders(tables', f) ==
        if x == f then Holders(tables, f) + {(t, i)} else Holders(tables, f) - {(t, i)}
    ensures (t, i) in Holders(tables, f) <==> tables[t][i] == f
  {
    var tables' := tables[t := With(tables[t], i, x)];
    forall u, j: nat
      ensures (u, j) in Holders(tables', f) <==>
        if (u, j) == (t, i) then x == f else (u, j) in Holders(tables, f)
    {
    }
  }

  // Descriptor i of t, free so far, refers to a file that is open already.
  lemma ShareCounted(tables: map<Ptr, Table>, files: map<Ptr, File>, t: Ptr, i: nat, f: Ptr)
    requires Counted(tables, files) && t in tables && i < MAX_FILES_PER_TASK && f in files
    requires |tables[t]| == MAX_FILES_PER_TASK && tables[t][i] == 0
    ensures Counted(tables[t := With(tables[t], i, f)], files[f := files[f].(refCount := files[f].refCount + 1)])
  {
    var tables', files' := tables[t := With(tables[t], i, f)], files[f := files[f].(refCount := files[f].refCount + 1)];
    assert FileOk(tables, files, f);
    forall u | u in tables' ensures TableOk(tables', files', u) {
      assert TableOk(tables, files, u) && TableOk(tables, files, t);
    }
    forall g | g in files' ensures FileOk(tables', files', g) {
      assert FileOk(tables, files, g);
      SetHolders(tables, t, i, f, g);
    }
  }

  // Descriptor i of t, free so far, refers to a file that was just opened.
  lemma OpenCounted(tables: map<Ptr, Table>, files: map<Ptr, File>, t: Ptr, i: nat, f: Ptr, inode: nat)
    requires Counted(tables, files) && t in tables && i < MAX_FILES_PER_TASK && f !in files && f != 0
    requires |tables[t]| == MAX_FILES_PER_TASK && tables[t][i] == 0
    ensures Counted(tables[t := With(tables[t], i, f)], files[f := File(inode, 0, 1)])
  {
    var tables', files' := tables[t := With(tables[t], i, f)], files[f := File(inode, 0, 1)];
    forall u | u in tables' ensures TableOk(tables', files', u) {
      assert TableOk(tables, files, u) && TableOk(tables, files, t);
    }
    assert Holders(tables, f) == {} by {
      forall u, j: nat | u in tables && j < |tables[u]| ensures tables[u][j] != f {
        assert TableOk(tables, files, u);
      }
    }
    forall g | g in files' ensures FileOk(tables', files', g) {
      assert g != f ==> FileOk(tables, files, g);
      SetHolders(tables, t, i, f, g);
    }
  }

  // The files after one descriptor of f was closed.
  function Released(files: map<Ptr, File>, f: Ptr): map<Ptr, File>
    requires f in files
  {
    if files[f].refCount == 1 then map g | g in files && g != f :: files[g]
    else files[f := files[f].(refCount := files[f].refCount - 1)]
  }

  lemma CloseCounted(tables: map<Ptr, Table>, files: map<Ptr, File>, t: Ptr, i: nat)
    requires Counted(tables, files) && t in tables && i < MAX_FILES_PER_TASK
    requires |tables[t]| == MAX_FILES_PER_TASK && tables[t][i] != 0
    ensures tables[t][i] in files
    ensures Counted(tables[t := With(tables[t], i, 0)], Released(files, tables[t][i]))
  {
    var f := tables[t][i];
    assert TableOk(tables, files, t) && FileOk(tables, files, f);
    var tables', files' := tables[t := With(tables[t], i, 0)], Released(files, f);
    forall u | u in tables' ensures TableOk(tables', files', u) {
      CloseTable(tables, files, t, i, u);
    }
    forall g | g in files' ensures FileOk(tables', files', g) {
      assert FileOk(tables, files, g);
      SetHolders(tables, t, i, 0, g);
    }
  }

  lemma CloseTable(tables: map<Ptr, Table>, files: map<Ptr, File>, t: Ptr, i: nat, u: Ptr)
    requires Counted(tables, files) && t in tables && i < MAX_FILES_PER_TASK && u in tables
    requires |tables[t]| == MAX_FILES_PER_TASK && tables[t][i] != 0 && tables[t][i] in files
    ensures TableOk(tables[t := With(tables[t], i, 0)], Released(files, tables[t][i]), u)
  {
    var f := tables[t][i];
    var tables', files' := tables[t := With(tables[t], i, 0)], Released(files, f);
    assert TableOk(tables, files, u) && TableOk(tables, files, t) && FileOk(tables, files, f);
    forall j: nat | j < MAX_FILES_PER_TASK && tables'[u][j] != 0 ensures tables'[u][j] in files' {
      assert tables[u][j] == tables'[u][j];
      if tables[u][j] == f && files[f].refCount == 1 {
        TwoHolders(tables, f, t, i, u, j);
      }
    }
  }

  // Two descriptors of one file are counted twice.
  lemma TwoHolders(tables: map<Ptr, Table>, f: Ptr, t: Ptr, i: nat, u: Ptr, j: nat)
    requires t in tables && i < |tables[t]| && tables[t][i] == f
    requires u in tables && j < |tables[u]| && tables[u][j] == f && (t, i) != (u, j)
    ensures |Holders(tables, f)| > 1
  {
    var both := {(t, i), (u, j)};
    assert both <= Holders(tables, f);
    assert |both| == 2;
    assert Holders(tables, f) == both + (Holders(tables, f) - both);
  }

  // A task without open files comes or goes.
  lemma EmptyTableCounted(tables: map<Ptr, Table>, files: map<Ptr, File>, t: Ptr)
    requires Counted(tables, files) && t !in tables
    ensures Counted(tables[t := EmptyTable()], files)
  {
    var tables' := tables[t := EmptyTable()];
    forall u | u in tables' ensures TableOk(tables', files, u) {
      assert u != t ==> TableOk(tables, files, u);
    }
    forall f | f in files ensures FileOk(tables', files, f) {
      assert FileOk(tables, files, f);
      assert Holders(tables', f) == Holders(tables, f);
    }
  }

  predicate AllClosed(table: Table) {
    forall i :: 0 <= i < |table| ==> table[i] == 0
  }

  lemma DropTableCounted(tables: map<Ptr, Table>, files: map<Ptr, File>, t: Ptr)
    requires Counted(tables, files) && t in tables && AllClosed(tables[t])
    ensures Counted(map u | u in tables && u != t :: tables[u], files)
  {
    var tables' := map u | u in tables && u != t :: tables[u];
    forall u | u in tables' ensures TableOk(tables', files, u) {
      assert TableOk(tables, files, u);
    }
    forall f | f in files ensures FileOk(tables', files, f) {
      assert FileOk(tables, files, f);
      assert Holders(tables', f) == Holders(tables, f);
    }
  }

  // What vfs_open does: the lowest free descriptor refers to a new open file, or nothing happens.
  ghost predicate Opened(ts: map<Ptr, Table>, fs: map<Ptr, File>, ts': map<Ptr, Table>, fs': map<Ptr, File>,
                         t: Ptr, inode: nat, file: Ptr, fd: int)
  {
    && t in ts && |ts[t]| == MAX_FILES_PER_TASK
    && (fd < 0 <==> inode == 0 || file == 0 || forall i :: 0 <= i < MAX_FILES_PER_TASK ==> ts[t][i] != 0)
    && (fd < 0 ==> (fd == -1 || fd == -ENOENT) && ts' == ts && fs' == fs)
    && (fd == -ENOENT ==> inode == 0)
    && (fd >= 0 ==>
          && fd < MAX_FILES_PER_TASK && ts[t][fd] == 0 && (forall i :: 0 <= i < fd ==> ts[t][i] != 0)
          && t in ts' && ts'[t] == ts[t][fd := file] && ts' == ts[t := ts'[t]]
          && fs' == fs[file := File(inode, 0, refCount := 1)])
  }

  // What vfs_close does: the file goes with its last descriptor.
  ghost predicate Closed(ts: map<Ptr, Table>, fs: map<Ptr, File>, ts': map<Ptr, Table>, fs': map<Ptr, File>,
                         t: Ptr, fd: int, rc: int)
  {
    && t in ts && |ts[t]| == MAX_FILES_PER_TASK
    && rc == (if !(0 <= fd < MAX_FILES_PER_TASK) then EMFILE else if ts[t][fd] == 0 then ENOENT else 0)
    && (rc != 0 ==> ts' == ts && fs' == fs)
    && (rc == 0 ==>
          && ts[t][fd] in fs && t in ts' && ts'[t] == ts[t][fd := 0] && ts' == ts[t := ts'[t]]
          && var f, file := ts[t][fd], fs[ts[t][fd]];
             fs' == if file.refCount == 1 then fs - {f} else fs[f := file.(refCount := file.refCount - 1)])
  }

  // What vfs_read and vfs_write do besides moving bytes: the offset advances for everyone who shares the file.
  ghost predicate Advanced(ts: map<Ptr, Table>, fs: map<Ptr, File>, fs': map<Ptr, File>, t: Ptr, fd: int, n: int,
                           rc: int)
  {
    && t in ts && |ts[t]| == MAX_FILES_PER_TASK
    && if !(0 <= fd < MAX_FILES_PER_TASK) || ts[t][fd] == 0 then rc == -1 && fs' == fs
       else
         && rc == n && ts[t][fd] in fs
         && var f, file := ts[t][fd], fs[ts[t][fd]];
            fs' == if n > 0 then fs[f := file.(offset := file.offset + n)] else fs
  }

  class FileTables {
    var tables: map<Ptr, Table>
    var files: map<Ptr, File>

    ghost predicate Valid()
      reads this
    {
      Counted(tables, files)
    }

    constructor ()
      ensures Valid() && tables == map[] && files == map[]
    {
      tables, files := map[], map[];
    }

    /** The zeroed table of a new task. */
    method NewTable(t: Ptr)
      requires Valid() && t !in tables
      modifies this
      ensures Valid() && tables == old(tables)[t := EmptyTable()] && files == old(files)
    {
      EmptyTableCounted(tables, files, t);
      tables := tables[t := EmptyTable()];
    }

    method DropTable(t: Ptr)
      requires Valid() && t in tables && AllClosed(tables[t])
      modifies this
      ensures Valid() && tables == (map u | u in old(tables) && u != t :: old(tables)[u]) && files == old(files)
    {
      DropTableCounted(tables, files, t);
      tables := map u | u in tables && u != t :: tables[u];
    }

    /** Opens an inode on the lowest free descriptor.  `inode` is what the path leads to, `file` the memory for the
        file, 0 when there is none. */
    method VfsOpen(t: Ptr, inode: nat, file: Ptr) returns (fd: int)
      requires Valid() && t in tables && (file != 0 ==> file !in files)
      modifies this
      ensures Valid() && Opened(old(tables), old(files), tables, files, t, inode, file, fd)
    {
      assert TableOk(tables, files, t);
      fd := -1;
      for i := 0 to MAX_FILES_PER_TASK
        invariant fd == -1 && forall j :: 0 <= j < i ==> tables[t][j] != 0
      {
        if tables[t][i] == 0 {
          fd := i;
          break;
        }
      }
      if fd == -1 {
        return;
      }
      if inode == 0 {
        return -ENOENT;
      }
      if file == 0 {
        return -1;
      }
      OpenCounted(tables, files, t, fd, file, inode);
      files := files[file := File(inode, 0, 1)];
      tables := tables[t := With(tables[t], fd, file)];
    }

    /** Closes a descriptor; the file is freed with its last one. */
    method VfsClose(t: Ptr, fd: int) returns (rc: int)
      requires Valid() && t in tables
      modifies this
      ensures Valid() && Closed(old(tables), old(files), tables, files, t, fd, rc)
    {
      assert TableOk(tables, files, t);
      if fd < 0 || fd >= MAX_FILES_PER_TASK {
        return EMFILE;
      }
      var file := tables[t][fd];
      if file == 0 {
        return ENOENT;
      }
      CloseCounted(tables, files, t, fd);
      ghost var released := Released(files, file);
      tables := tables[t := With(tables[t], fd, 0)];
      files := files[file := files[file].(refCount := files[file].refCount - 1)];
      if files[file].refCount == 0 {
        files := map g | g in files && g != file :: files[g];
      }
      assert files == released;
      rc := 0;
    }

    /** Reading moves the offset.  `n` is what the file system returns for it, -1 when its files cannot be read. */
    method VfsRead(t: Ptr, fd: int, n: int) returns (rc: int)
      requires Valid() && t in tables
      modifies this`files
      ensures Valid() && Advanced(tables, old(files), files, t, fd, n, rc)
    {
      rc := Advance(t, fd, n);
    }

    /** So does writing. */
    method VfsWrite(t: Ptr, fd: int, n: int) returns (rc: int)
      requires Valid() && t in tables
      modifies this`files
      ensures Valid() && Advanced(tables, old(files), files, t, fd, n, rc)
    {
      rc := Advance(t, fd, n);
    }

    method Advance(t: Ptr, fd: int, n: int) returns (rc: int)
      requires Valid() && t in tables
      modifies this`files
      ensures Valid() && Advanced(tables, old(files), files, t, fd, n, rc)
    {
      assert TableOk(tables, files, t);
      if fd < 0 || fd >= MAX_FILES_PER_TASK {
        return -1;
      }
      var f := tables[t][fd];
      if f == 0 {
        return -1;
      }
      if n > 0 {
        OffsetCounted(tables, files, f, files[f].offset + n);
        files := files[f := files[f].(offset := files[f].offset + n)];
      }
      rc := n;
    }

    /** Closes all descriptors of a task. */
    method CloseAll(t: Ptr)
      requires Valid() && t in tables
      modifies this
      ensures Valid() && tables.Keys == old(tables).Keys && AllClosed(tables[t])
      ensures forall u :: u in tables && u != t ==> tables[u] == old(tables)[u]
    {
      assert TableOk(tables, files, t);
      for i := 0 to MAX_FILES_PER_TASK
        invariant Valid() && tables.Keys == old(tables).Keys && |tables[t]| == MAX_FILES_PER_TASK
        invariant forall j :: 0 <= j < i ==> tables[t][j] == 0
        invariant forall u :: u in tables && u != t ==> tables[u] == old(tables)[u]
      {
        if tables[t][i] != 0 {
          var rc := VfsClose(t, i);
        }
      }
    }

    /** A new task with the parent's descriptors. */
    method Adopt(child: Ptr, parent: Ptr)
      requires Valid() && child !in tables && parent in tables
      modifies this
      ensures Valid() && tables == old(tables)[child := old(tables)[parent]]
    {
      NewTable(child);
      Inherit(child, parent);
    }

    /** Copies the parent's descriptors to the child, counting each file once more. */
    method Inherit(child: Ptr, parent: Ptr)
      requires Valid() && child in tables && parent in tables && child != parent && tables[child] == EmptyTable()
      modifies this
      ensures Valid() && tables == old(tables)[child := old(tables)[parent]]
    {
      assert TableOk(tables, files, parent) && TableOk(tables, files, child);
      for i := 0 to MAX_FILES_PER_TASK
        invariant Valid() && tables.Keys == old(tables).Keys && |tables[child]| == MAX_FILES_PER_TASK
        invariant forall u :: u in tables && u != child ==> tables[u] == old(tables)[u]
        invariant forall j :: 0 <= j < MAX_FILES_PER_TASK ==>
          tables[child][j] == if j < i then old(tables)[parent][j] else 0
      {
        assert TableOk(tables, files, parent);
        var f := tables[parent][i];
        if f != 0 {
          ShareCounted(tables, files, child, i, f);
          tables := tables[child := With(tables[child], i, f)];
          files := files[f := files[f].(refCount := files[f].refCount + 1)];
        }
      }
      assert tables[child] == old(tables)[parent];
    }
  }

  lemma OffsetCounted(tables: map<Ptr, Table>, files: map<Ptr, File>, f: Ptr, offset: nat)
    requires Counted(tables, files) && f in files
    ensures Counted(tables, files[f := files[f].(offset := offset)])
  {
    var files' := files[f := files[f].(offset := offset)];
    forall u | u in tables ensures TableOk(tables, files', u) {
      assert TableOk(tables, files, u);
    }
    forall g | g in files' ensures FileOk(tables, files', g) {
      assert FileOk(tables, files, g);
    }
  }
}
