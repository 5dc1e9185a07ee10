/** Replacing the program of a task: its arguments are copied out of the old address space and laid out in the
    new one, which then takes the old one's place. */
module Exec {
  import opened PageEntry
  import opened PageTree
  import opened World
  import opened Vmm
  import opened Growth
  import opened Layout
  import opened Words
  import opened UserStack
  import opened UserCopy
  import opened Image
  import opened NewProgram
  import Elf
  import Teardown

  const ENOENT: int := 2
  const EIO: int := 5
  const EFAULT: int := 14
  const EXEC_MAX_ARGS: nat := 32
  const EXEC_MAX_PATH: nat := 256
  const EXEC_ARG_BYTES: nat := 3584
  const EXEC_MAX_FILE: nat := 16 * 1024 * 1024
  const ADDRESS_RANGE: nat := 0x1_0000_0000_0000_0000
  const SLASH: byte := 47

  // Where the pointer to argument i is; address arithmetic wraps around.
  function PointerAt(va: nat, i: nat): nat {
    (va + 8 * i) % ADDRESS_RANGE
  }

  ghost predicate WordReadable(mem: Mem, nodes: Nodes, va: nat) {
    RangeValid(va, 8) && AllOpen(mem, nodes, va, 8, false)
  }

  // Argument i of the vector at va: a readable pointer that is not NULL, to a string that is `a`.
  ghost predicate ArgIs(mem: Mem, nodes: Nodes, va: nat, i: nat, a: Arg) {
    && WordReadable(mem, nodes, PointerAt(va, i))
    && HoldsPointer(mem, nodes, PointerAt(va, i), a)
  }

  // The word at x points to string `a`.
  ghost predicate HoldsPointer(mem: Mem, nodes: Nodes, x: nat, a: Arg) {
    IsStringAt(mem, nodes, ReadWord(mem, nodes, x, 8), a)
  }

  // The string at p is `a`.
  ghost predicate IsStringAt(mem: Mem, nodes: Nodes, p: nat, a: Arg) {
    && p >= USER_MIN_ADDR && a.Some? && StringAt(mem, nodes, p, |Text(a)|)
    && ReadBytes(mem, nodes, p, |Text(a)|) == Text(a)
  }

  ghost predicate ArgsThere(mem: Mem, nodes: Nodes, va: nat, argv: seq<Arg>) {
    forall i: nat {:trigger ArgIs(mem, nodes, va, i, argv[i])} :: i < |argv| ==> ArgIs(mem, nodes, va, i, argv[i])
  }

  ghost predicate ArgsRead(mem: Mem, nodes: Nodes, va: nat, argv: seq<Arg>) {
    ArgsThere(mem, nodes, va, argv) && ArgBytes(argv, 0) <= EXEC_ARG_BYTES
  }

  // The complete vector of a caller: at most 31 arguments, their strings within the limit, and NULL.
  ghost predicate Vector(mem: Mem, nodes: Nodes, va: nat, argv: seq<Arg>) {
    if va == 0 then argv == []
    else
      && |argv| < EXEC_MAX_ARGS && ArgsRead(mem, nodes, va, argv)
      && WordReadable(mem, nodes, PointerAt(va, |argv|))
      && ReadWord(mem, nodes, PointerAt(va, |argv|), 8) == 0
  }

  // A user address is far from where addresses wrap around.
  lemma NoWrap(va: nat, i: nat)
    requires va < ADDRESS_RANGE && RangeValid(PointerAt(va, 0), 8) && i < EXEC_MAX_ARGS
    ensures PointerAt(va, i) == va + 8 * i
  {
  }

  lemma PointerReadable(mem: Mem, nodes: Nodes, va: nat, argv: seq<Arg>, i: nat)
    requires va != 0 && Vector(mem, nodes, va, argv) && i <= |argv|
    ensures i < EXEC_MAX_ARGS && WordReadable(mem, nodes, PointerAt(va, i))
  {
    if i < |argv| {
      assert ArgIs(mem, nodes, va, i, argv[i]);
    }
  }

  lemma PointersInOrder(mem: Mem, nodes: Nodes, va: nat, argv: seq<Arg>, i: nat)
    requires 0 < va < ADDRESS_RANGE && Vector(mem, nodes, va, argv) && i <= |argv|
    ensures PointerAt(va, i) == va + 8 * i && WordReadable(mem, nodes, va + 8 * i)
  {
    PointerReadable(mem, nodes, va, argv, 0);
    PointerReadable(mem, nodes, va, argv, i);
    NoWrap(va, i);
  }

  // Bytes that can be read word by word.
  lemma WordsReadable(mem: Mem, nodes: Nodes, va: nat, n: nat)
    requires forall i: nat {:trigger WordReadable(mem, nodes, va + 8 * i)} :: i < n ==>
               WordReadable(mem, nodes, va + 8 * i)
    ensures AllOpen(mem, nodes, va, 8 * n, false)
  {
    forall x: nat | va <= x < va + 8 * n ensures Open(mem, nodes, x, false) {
      assert WordReadable(mem, nodes, va + 8 * ((x - va) / 8));
    }
  }

  // The word 8 * i bytes behind va points to string `a`.
  ghost predicate PointsToArg(mem: Mem, nodes: Nodes, va: nat, i: nat, a: Arg) {
    HoldsPointer(mem, nodes, va + 8 * i, a)
  }

  // The caller's vector as it lies in memory: 8 bytes a pointer, one after the other from va on, and a NULL pointer.
  ghost predicate LaidOut(mem: Mem, nodes: Nodes, va: nat, argv: seq<Arg>) {
    && |argv| <= 31 && 0x1000 <= va && va + 8 * (|argv| + 1) <= 0x8000_0000_0000
    && AllOpen(mem, nodes, va, 8 * (|argv| + 1), false)
    && (forall i: nat {:trigger PointsToArg(mem, nodes, va, i, argv[i])} :: i < |argv| ==>
          PointsToArg(mem, nodes, va, i, argv[i]))
    && ReadWord(mem, nodes, va + 8 * |argv|, 8) == 0
    && ArgBytes(argv, 0) <= 3584
  }

  // The pointer of argument i is at x.
  lemma ArgAt(mem: Mem, nodes: Nodes, va: nat, i: nat, x: nat, a: Arg)
    requires PointerAt(va, i) == x
    ensures ArgIs(mem, nodes, va, i, a) <==>
      WordReadable(mem, nodes, x) && HoldsPointer(mem, nodes, x, a)
  {
  }

  lemma ArgumentLiesThere(mem: Mem, nodes: Nodes, va: nat, argv: seq<Arg>, i: nat)
    requires 0 < va < ADDRESS_RANGE && Vector(mem, nodes, va, argv) && i < |argv|
    ensures PointsToArg(mem, nodes, va, i, argv[i])
  {
    PointersInOrder(mem, nodes, va, argv, i);
    assert ArgIs(mem, nodes, va, i, argv[i]);
    ArgAt(mem, nodes, va, i, va + 8 * i, argv[i]);
  }

  lemma VectorRange(mem: Mem, nodes: Nodes, va: nat, argv: seq<Arg>)
    requires 0 < va < ADDRESS_RANGE && Vector(mem, nodes, va, argv)
    ensures USER_MIN_ADDR <= va && va + 8 * (|argv| + 1) <= USER_SPACE_LIMIT
    ensures AllOpen(mem, nodes, va, 8 * (|argv| + 1), false)
  {
    PointersInOrder(mem, nodes, va, argv, 0);
    PointersInOrder(mem, nodes, va, argv, |argv|);
    forall i: nat | i < |argv| + 1 ensures WordReadable(mem, nodes, va + 8 * i) {
      PointersInOrder(mem, nodes, va, argv, i);
    }
    WordsReadable(mem, nodes, va, |argv| + 1);
  }

  lemma WordInRange(mem: Mem, nodes: Nodes, va: nat, n: nat, i: nat)
    requires USER_MIN_ADDR <= va && va + 8 * n <= USER_SPACE_LIMIT && AllOpen(mem, nodes, va, 8 * n, false) && i < n
    ensures PointerAt(va, i) == va + 8 * i && WordReadable(mem, nodes, va + 8 * i)
  {
  }

  lemma LaidOutArgument(mem: Mem, nodes: Nodes, va: nat, argv: seq<Arg>, i: nat)
    requires LaidOut(mem, nodes, va, argv) && i < |argv|
    ensures ArgIs(mem, nodes, va, i, argv[i])
  {
    WordInRange(mem, nodes, va, |argv| + 1, i);
    assert PointsToArg(mem, nodes, va, i, argv[i]);
    ArgAt(mem, nodes, va, i, va + 8 * i, argv[i]);
  }

  lemma NullLiesThere(mem: Mem, nodes: Nodes, va: nat, argv: seq<Arg>)
    requires 0 < va < ADDRESS_RANGE && Vector(mem, nodes, va, argv)
    ensures ReadWord(mem, nodes, va + 8 * |argv|, 8) == 0
  {
    PointersInOrder(mem, nodes, va, argv, |argv|);
  }

  lemma VectorLiesThere(mem: Mem, nodes: Nodes, va: nat, argv: seq<Arg>)
    requires 0 < va < ADDRESS_RANGE && Vector(mem, nodes, va, argv)
    ensures LaidOut(mem, nodes, va, argv)
  {
    VectorRange(mem, nodes, va, argv);
    NullLiesThere(mem, nodes, va, argv);
    forall i: nat | i < |argv| ensures PointsToArg(mem, nodes, va, i, argv[i]) {
      ArgumentLiesThere(mem, nodes, va, argv, i);
    }
  }

  lemma LaidOutEnds(mem: Mem, nodes: Nodes, va: nat, argv: seq<Arg>)
    requires LaidOut(mem, nodes, va, argv)
    ensures WordReadable(mem, nodes, PointerAt(va, |argv|)) && ReadWord(mem, nodes, PointerAt(va, |argv|), 8) == 0
  {
    WordInRange(mem, nodes, va, |argv| + 1, |argv|);
  }

  lemma LaidOutIsVector(mem: Mem, nodes: Nodes, va: nat, argv: seq<Arg>)
    requires LaidOut(mem, nodes, va, argv)
    ensures Vector(mem, nodes, va, argv)
  {
    LaidOutEnds(mem, nodes, va, argv);
    forall i: nat | i < |argv| ensures ArgIs(mem, nodes, va, i, argv[i]) {
      LaidOutArgument(mem, nodes, va, argv, i);
    }
  }

  /** What counts as a vector, without the kernel's address arithmetic: just what lies so in readable memory. */
  lemma VectorIsLaidOut(mem: Mem, nodes: Nodes, va: nat, argv: seq<Arg>)
    requires 0 < va < ADDRESS_RANGE
    ensures Vector(mem, nodes, va, argv) <==> LaidOut(mem, nodes, va, argv)
  {
    if Vector(mem, nodes, va, argv) {
      VectorLiesThere(mem, nodes, va, argv);
    } else if LaidOut(mem, nodes, va, argv) {
      LaidOutIsVector(mem, nodes, va, argv);
    }
  }

  // Why reading cannot go on behind `argv`.
  ghost predicate Stuck(mem: Mem, nodes: Nodes, va: nat, argv: seq<Arg>)
    requires ArgBytes(argv, 0) <= EXEC_ARG_BYTES
  {
    || |argv| == EXEC_MAX_ARGS
    || !WordReadable(mem, nodes, PointerAt(va, |argv|))
    || var p := ReadWord(mem, nodes, PointerAt(va, |argv|), 8);
       p != 0 && (p < USER_MIN_ADDR || NoneWithin(mem, nodes, p, EXEC_ARG_BYTES - ArgBytes(argv, 0)))
  }

  lemma {:induction false} BytesOfAppend(argv: seq<Arg>, a: Arg, n: nat)
    requires n <= |argv|
    ensures TailBytes(argv + [a], n + 1) == TailBytes(argv, n) + |Text(a)| + 1
  {
    var more := argv + [a];
    if n == 0 {
      assert more[|more| - 1] == a;
      assert TailBytes(more, 0) == 0;
    } else {
      BytesOfAppend(argv, a, n - 1);
      assert more[|more| - (n + 1)] == argv[|argv| - n];
    }
  }

  lemma {:induction false} BytesOfPrefix(argv: seq<Arg>, k: nat)
    requires k <= |argv|
    ensures TailBytes(argv[..k], k) <= TailBytes(argv, |argv|)
    ensures k < |argv| ==> TailBytes(argv[..k], k) + |Text(argv[k])| + 1 <= TailBytes(argv, |argv|)
    decreases |argv| - k
  {
    if k < |argv| {
      BytesOfPrefix(argv, k + 1);
      assert argv[..k + 1] == argv[..k] + [argv[k]];
      BytesOfAppend(argv[..k], argv[k], k);
    } else {
      assert argv[..k] == argv;
    }
  }

  // What memory holds determines each argument.
  lemma SameArg(mem: Mem, nodes: Nodes, va: nat, i: nat, a: Arg, b: Arg)
    requires ArgIs(mem, nodes, va, i, a) && ArgIs(mem, nodes, va, i, b)
    ensures a == b
  {
    var p := ReadWord(mem, nodes, PointerAt(va, i), 8);
    OneLength(mem, nodes, p, |Text(a)|, |Text(b)|);
    OneLength(mem, nodes, p, |Text(b)|, |Text(a)|);
  }

  lemma {:induction false} SamePrefix(mem: Mem, nodes: Nodes, va: nat, argv: seq<Arg>, b: seq<Arg>, k: nat)
    requires va != 0 && ArgsRead(mem, nodes, va, argv) && Vector(mem, nodes, va, b) && k <= |argv|
    ensures k <= |b| && b[..k] == argv[..k]
  {
    if k > 0 {
      SamePrefix(mem, nodes, va, argv, b, k - 1);
      OneMoreSame(mem, nodes, va, argv, b, k - 1);
      assert b[..k] == b[..k - 1] + [b[k - 1]];
    }
  }

  lemma OneMoreSame(mem: Mem, nodes: Nodes, va: nat, argv: seq<Arg>, b: seq<Arg>, k: nat)
    requires va != 0 && ArgsRead(mem, nodes, va, argv) && Vector(mem, nodes, va, b) && k < |argv| && k <= |b|
    ensures k < |b| && b[k] == argv[k]
  {
    assert ArgIs(mem, nodes, va, k, argv[k]);
    if k < |b| {
      assert ArgIs(mem, nodes, va, k, b[k]);
      SameArg(mem, nodes, va, k, argv[k], b[k]);
    }
  }

  // The caller has at most one vector.
  lemma OneVector(mem: Mem, nodes: Nodes, va: nat, a: seq<Arg>, b: seq<Arg>)
    requires Vector(mem, nodes, va, a) && Vector(mem, nodes, va, b)
    ensures a == b
  {
    if va != 0 {
      SamePrefix(mem, nodes, va, a, b, |a|);
      SamePrefix(mem, nodes, va, b, a, |b|);
      assert a[..|a|] == a && b[..|a|] == b;
    }
  }

  // Reading is stuck only where there is no vector.
  lemma StuckMeansNone(mem: Mem, nodes: Nodes, va: nat, argv: seq<Arg>, b: seq<Arg>)
    requires va != 0 && ArgsRead(mem, nodes, va, argv) && Stuck(mem, nodes, va, argv)
    ensures !Vector(mem, nodes, va, b)
  {
    if Vector(mem, nodes, va, b) {
      var k := |argv|;
      SamePrefix(mem, nodes, va, argv, b, k);
      assert argv[..k] == argv;
      if k < |b| {
        assert ArgIs(mem, nodes, va, k, b[k]);
        BytesOfPrefix(b, k);
      }
    }
  }

  // The caller's path: an absolute one, of at most 255 characters.
  ghost predicate PathIs(mem: Mem, nodes: Nodes, va: nat, path: seq<byte>) {
    && va >= USER_MIN_ADDR && 0 < |path| < EXEC_MAX_PATH && StringAt(mem, nodes, va, |path|)
    && path == ReadBytes(mem, nodes, va, |path|) && path[0] == SLASH
  }

  // What the system call asks for, read from the caller's memory.
  ghost predicate Request(mem: Mem, nodes: Nodes, pathVa: nat, argvVa: nat, path: seq<byte>, argv: seq<Arg>) {
    PathIs(mem, nodes, pathVa, path) && Vector(mem, nodes, argvVa, argv)
  }

  ghost predicate NoRequest(mem: Mem, nodes: Nodes, pathVa: nat, argvVa: nat) {
    forall path, argv :: !Request(mem, nodes, pathVa, argvVa, path, argv)
  }

  /** What a caller of execve or spawn asks for, in terms of its memory alone: an absolute path of at most 255
      characters, and a vector or a null pointer in its place. */
  lemma RequestInMemory(mem: Mem, nodes: Nodes, pathVa: nat, argvVa: nat, path: seq<byte>, argv: seq<Arg>)
    requires argvVa < ADDRESS_RANGE
    ensures Request(mem, nodes, pathVa, argvVa, path, argv) <==> (
      && pathVa >= 0x1000 && 1 <= |path| <= 255 && path[0] == '/' as byte
      && StringAt(mem, nodes, pathVa, |path|) && path == ReadBytes(mem, nodes, pathVa, |path|)
      && (if argvVa == 0 then argv == [] else LaidOut(mem, nodes, argvVa, argv)))
  {
    if argvVa != 0 {
      VectorIsLaidOut(mem, nodes, argvVa, argv);
    }
  }

  method CopyWord(m: Machine, r: nat, va: nat) returns (ok: bool, x: nat)
    requires m.Valid() && r in m.trees
    ensures ok <==> WordReadable(m.mem, m.trees[r], va)
    ensures ok ==> x == ReadWord(m.mem, m.trees[r], va, 8)
  {
    var rc, bytes := CopyFromUser(m, r, va, 8);
    ok, x := rc == 0, 0;
    if ok {
      x := WordValue(bytes, 0, 8);
      WordOfBytes(m.mem, m.trees[r], va, 8, 0, 8);
    }
  }

  lemma StillThere(mem: Mem, nodes: Nodes, va: nat, argv: seq<Arg>, a: Arg, i: nat)
    requires ArgsThere(mem, nodes, va, argv) && ArgIs(mem, nodes, va, |argv|, a) && i <= |argv|
    ensures ArgIs(mem, nodes, va, i, (argv + [a])[i])
  {
    if i < |argv| {
      assert ArgIs(mem, nodes, va, i, argv[i]);
    }
  }

  lemma OneMoreThere(mem: Mem, nodes: Nodes, va: nat, argv: seq<Arg>, a: Arg)
    requires ArgsThere(mem, nodes, va, argv) && ArgIs(mem, nodes, va, |argv|, a)
    ensures ArgsThere(mem, nodes, va, argv + [a])
  {
    var more := argv + [a];
    forall i: nat | i < |more| ensures ArgIs(mem, nodes, va, i, more[i]) {
      StillThere(mem, nodes, va, argv, a, i);
    }
  }

  lemma OneMoreArg(mem: Mem, nodes: Nodes, va: nat, argv: seq<Arg>, a: Arg)
    requires ArgsRead(mem, nodes, va, argv) && ArgIs(mem, nodes, va, |argv|, a)
    requires ArgBytes(argv, 0) + |Text(a)| + 1 <= EXEC_ARG_BYTES
    ensures ArgsRead(mem, nodes, va, argv + [a]) && ArgBytes(argv + [a], 0) == ArgBytes(argv, 0) + |Text(a)| + 1
  {
    OneMoreBytes(argv, a);
    OneMoreThere(mem, nodes, va, argv, a);
  }

  lemma OneMoreBytes(argv: seq<Arg>, a: Arg)
    ensures ArgBytes(argv + [a], 0) == ArgBytes(argv, 0) + |Text(a)| + 1
  {
    BytesOfAppend(argv, a, |argv|);
  }

  // The next argument; `end` when its pointer is NULL.
  method CopyArg(m: Machine, r: nat, va: nat, i: nat, used: nat) returns (rc: int, end: bool, text: seq<byte>)
    requires m.Valid() && r in m.trees && used <= EXEC_ARG_BYTES
    ensures rc == 0 || rc == -EFAULT || rc == -E2BIG
    ensures rc == -EFAULT ==> !WordReadable(m.mem, m.trees[r], PointerAt(va, i))
    ensures rc != -EFAULT ==> WordReadable(m.mem, m.trees[r], PointerAt(va, i))
    ensures rc == -E2BIG ==> var p := ReadWord(m.mem, m.trees[r], PointerAt(va, i), 8);
      p != 0 && (p < USER_MIN_ADDR || NoneWithin(m.mem, m.trees[r], p, EXEC_ARG_BYTES - used))
    ensures rc == 0 ==> (end <==> ReadWord(m.mem, m.trees[r], PointerAt(va, i), 8) == 0)
    ensures rc == 0 && !end ==> ArgIs(m.mem, m.trees[r], va, i, Some(text)) && used + |text| + 1 <= EXEC_ARG_BYTES
  {
    text := [];
    var ok, p := CopyWord(m, r, PointerAt(va, i));
    if !ok {
      return -EFAULT, false, text;
    }
    if p == 0 {
      return 0, true, text;
    }
    var len, dst := CopyStringFromUser(m, r, p, EXEC_ARG_BYTES - used);
    if len < 0 {
      return -E2BIG, false, text;
    }
    text := dst[..len];
    assert text == ReadBytes(m.mem, m.trees[r], p, len);
    rc, end := 0, false;
  }

  method CopyPath(m: Machine, r: nat, va: nat) returns (rc: int, path: seq<byte>)
    requires m.Valid() && r in m.trees
    ensures rc == 0 || rc == -EFAULT || rc == -ENOENT
    ensures rc == 0 ==> PathIs(m.mem, m.trees[r], va, path)
    ensures rc != 0 ==> forall p :: !PathIs(m.mem, m.trees[r], va, p)
  {
    path := [];
    var len, dst := CopyStringFromUser(m, r, va, EXEC_MAX_PATH);
    if len < 0 {
      return -EFAULT, path;
    }
    path := dst[..len];
    assert path == ReadBytes(m.mem, m.trees[r], va, len);
    if dst[0] != SLASH {
      forall p ensures !PathIs(m.mem, m.trees[r], va, p) {
        if PathIs(m.mem, m.trees[r], va, p) {
          PathBegins(m.mem, m.trees[r], va, p, len);
        }
      }
      return -ENOENT, path;
    }
    assert dst[0] == ReadByte(m.mem, m.trees[r], va + 0);
    rc := 0;
  }

  lemma PathBegins(mem: Mem, nodes: Nodes, va: nat, p: seq<byte>, len: nat)
    requires PathIs(mem, nodes, va, p)
    ensures ReadBytes(mem, nodes, va, len + 1)[0] == SLASH
  {
    assert ReadBytes(mem, nodes, va, len + 1)[0] == ReadByte(mem, nodes, va + 0);
    assert p[0] == ReadByte(mem, nodes, va + 0);
  }

  /** Copies path and arguments out of the caller's memory; 0 exactly when a request can be read there. */
  method CopyArgs(m: Machine, r: nat, pathVa: nat, argvVa: nat) returns (rc: int, path: seq<byte>, argv: seq<Arg>)
    requires m.Valid() && r in m.trees
    ensures rc == 0 || rc == -EFAULT || rc == -ENOENT || rc == -E2BIG
    ensures rc == 0 ==> Request(m.mem, m.trees[r], pathVa, argvVa, path, argv)
    ensures rc != 0 ==> NoRequest(m.mem, m.trees[r], pathVa, argvVa)
  {
    argv := [];
    rc, path := CopyPath(m, r, pathVa);
    if rc != 0 || argvVa == 0 {
      return;
    }
    rc, argv := CopyVector(m, r, argvVa);
  }

  method CopyVector(m: Machine, r: nat, va: nat) returns (rc: int, argv: seq<Arg>)
    requires m.Valid() && r in m.trees && va != 0
    ensures rc == 0 || rc == -EFAULT || rc == -E2BIG
    ensures rc == 0 ==> Vector(m.mem, m.trees[r], va, argv)
    ensures rc != 0 ==> forall a :: !Vector(m.mem, m.trees[r], va, a)
  {
    argv := [];
    var used: nat := 0;
    for i := 0 to EXEC_MAX_ARGS
      invariant |argv| == i && used == ArgBytes(argv, 0) && ArgsRead(m.mem, m.trees[r], va, argv)
    {
      var end, text;
      rc, end, text := CopyArg(m, r, va, i, used);
      if rc != 0 {
        AllStuck(m.mem, m.trees[r], va, argv);
        return;
      }
      if end {
        return;
      }
      OneMoreArg(m.mem, m.trees[r], va, argv, Some(text));
      argv := argv + [Some(text)];
      used := used + |text| + 1;
    }
    AllStuck(m.mem, m.trees[r], va, argv);
    rc := -E2BIG;
  }

  lemma AllStuck(mem: Mem, nodes: Nodes, va: nat, argv: seq<Arg>)
    requires va != 0 && ArgsRead(mem, nodes, va, argv) && Stuck(mem, nodes, va, argv)
    ensures forall a :: !Vector(mem, nodes, va, a)
  {
    forall a ensures !Vector(mem, nodes, va, a) {
      StuckMeansNone(mem, nodes, va, argv, a);
    }
  }

  /** Whatever exec_copy_args lets through fits the top page, so the stack builder never answers -E2BIG. */
  lemma VectorFits(mem: Mem, nodes: Nodes, va: nat, argv: seq<Arg>)
    requires Vector(mem, nodes, va, argv)
    ensures ArgsFit(argv)
  {
  }

  // A caller's argument has no NUL inside.
  lemma VectorIsText(mem: Mem, nodes: Nodes, va: nat, argv: seq<Arg>, i: nat)
    requires va != 0 && Vector(mem, nodes, va, argv) && i < |argv|
    ensures forall k :: 0 <= k < |Text(argv[i])| ==> Text(argv[i])[k] != 0
  {
    assert ArgIs(mem, nodes, va, i, argv[i]);
    var p := ReadWord(mem, nodes, PointerAt(va, i), 8);
    var text := ReadBytes(mem, nodes, p, |Text(argv[i])|);
    forall k | 0 <= k < |text| ensures text[k] != 0 {
      assert text[k] == ReadByte(mem, nodes, p + k);
    }
  }

  // ---------------------------------------------------------------- from the request to the new address space

  // What the rest of the kernel contributes: the files there are, whether a descriptor and memory for an open file can
  // be had, whether the file can be read to the end, whether the kernel heap has room for the three buffers, and
  // whether the processor has NX.
  datatype Env = Env(files: map<seq<byte>, seq<byte>>, opens: bool, readsWhole: bool, argsRoom: bool, fileRoom: bool,
                     scratchRoom: bool, nxOn: bool)

  // A file that can be opened, and is neither empty nor too large.
  predicate Opens(env: Env, path: seq<byte>) {
    path in env.files && env.opens
  }

  predicate HasSize(env: Env, path: seq<byte>)
    requires path in env.files
  {
    0 < |env.files[path]| <= EXEC_MAX_FILE
  }

  method LoadFile(env: Env, path: seq<byte>) returns (rc: int, data: seq<byte>)
    ensures rc == -ENOENT <==> !Opens(env, path)
    ensures rc == -Elf.ENOEXEC <==> Opens(env, path) && !HasSize(env, path)
    ensures rc == -UserStack.ENOMEM <==> Opens(env, path) && HasSize(env, path) && !env.fileRoom
    ensures rc == -EIO <==> Opens(env, path) && HasSize(env, path) && env.fileRoom && !env.readsWhole
    ensures rc == 0 <==> Opens(env, path) && HasSize(env, path) && env.fileRoom && env.readsWhole
    ensures rc == 0 ==> data == env.files[path]
    ensures rc <= 0
  {
    data := [];
    if path !in env.files || !env.opens {
      return -ENOENT, data;
    }
    var size := |env.files[path]|;
    if size == 0 || size > EXEC_MAX_FILE {
      return -Elf.ENOEXEC, data;
    }
    if !env.fileRoom {
      return -UserStack.ENOMEM, data;
    }
    if !env.readsWhole {
      return -EIO, data;
    }
    data := env.files[path];
    rc := 0;
  }

  // What a caller of execve asks for, and what the kernel finds around it.
  datatype Call = Call(pathVa: nat, argvVa: nat, env: Env)

  // What came of it: the path, the arguments, the program and its top stack page.
  datatype Outcome = Outcome(path: seq<byte>, argv: seq<Arg>, p: Program, top: seq<byte>)

  // A program built in w' as the caller rooted at r asked for in w.
  ghost predicate Prepared(w: World, w': World, sh: Sharing, r: nat, call: Call, o: Outcome) {
    && r in w.trees && Request(w.mem, w.trees[r], call.pathVa, call.argvVa, o.path, o.argv)
    && o.path in call.env.files && Elf.ElfOk(call.env.files[o.path])
    && Built(w, w', sh, LoadedImage(call.env.files[o.path], call.env.nxOn), o.argv, USER_STACK_PAGES, o.p, o.top)
    && o.p.entry == Elf.Entry(call.env.files[o.path])
  }

  ghost predicate BooksKept(w: World, w': World) {
    w'.owner == w.owner && w'.trees == w.trees && Preserved(w, w')
  }

  // Why no program can be made of the file that is asked for.
  ghost predicate FileRefused(w: World, sh: Sharing, total: nat, env: Env, path: seq<byte>, rc: int) {
    || (rc == -ENOENT && !Opens(env, path))
    || (rc == -Elf.ENOEXEC && Opens(env, path) && !(HasSize(env, path) && Elf.ElfOk(env.files[path])))
    || (rc == -EIO && !env.readsWhole)
    || (rc == -UserStack.ENOMEM && Opens(env, path) &&
          (!env.fileRoom || !env.scratchRoom
           || Scarce(w, total, 1 + FramesToFill(sh, Elf.Segments(env.files[path]), USER_STACK_PAGES))))
  }

  // Why a call fails: what it asks for cannot be read, or cannot be had.
  ghost predicate CallRefused(w: World, sh: Sharing, total: nat, r: nat, call: Call, rc: int)
    requires r in w.trees
  {
    || (rc == -UserStack.ENOMEM && !call.env.argsRoom)
    || ((rc == -EFAULT || rc == -ENOENT || rc == -E2BIG) && NoRequest(w.mem, w.trees[r], call.pathVa, call.argvVa))
    || exists path, argv :: Request(w.mem, w.trees[r], call.pathVa, call.argvVa, path, argv)
         && FileRefused(w, sh, total, call.env, path, rc)
  }

  /** What execve and spawn share: on failure nothing has changed and the code says why; -E2BIG is about the request
      itself. */
  method Prepare(m: Machine, r: nat, call: Call) returns (rc: int, p: Program, ghost o: Outcome)
    requires m.Valid() && r in m.trees && SharingOk(m.sh)
    modifies m.Repr()
    ensures m.Valid() && rc <= 0
    ensures rc != 0 ==> BooksKept(old(m.Now()), m.Now())
    ensures rc != 0 ==> CallRefused(old(m.Now()), m.sh, m.pmm.totalFrames, r, call, rc)
    ensures rc == 0 ==> Prepared(old(m.Now()), m.Now(), m.sh, r, call, o) && o.p == p
    ensures rc == -E2BIG ==> old(NoRequest(m.mem, m.trees[r], call.pathVa, call.argvVa))
  {
    p := Program(0, EMPTY_MM, 0, 0, 0);
    o := Outcome([], [], p, []);
    if !call.env.argsRoom {
      return -UserStack.ENOMEM, p, o;
    }
    var path, argv;
    rc, path, argv := CopyArgs(m, r, call.pathVa, call.argvVa);
    if rc == 0 {
      rc, p, o := PrepareFile(m, r, call, path, argv);
    }
  }

  method PrepareFile(m: Machine, r: nat, call: Call, path: seq<byte>, argv: seq<Arg>)
    returns (rc: int, p: Program, ghost o: Outcome)
    requires m.Valid() && r in m.trees && SharingOk(m.sh)
    requires Request(m.mem, m.trees[r], call.pathVa, call.argvVa, path, argv)
    modifies m.Repr()
    ensures m.Valid() && rc <= 0 && rc != -E2BIG
    ensures rc != 0 ==> BooksKept(old(m.Now()), m.Now())
    ensures rc != 0 ==> FileRefused(old(m.Now()), m.sh, m.pmm.totalFrames, call.env, path, rc)
    ensures rc == 0 ==> Prepared(old(m.Now()), m.Now(), m.sh, r, call, o) && o.p == p
  {
    p := Program(0, EMPTY_MM, 0, 0, 0);
    o := Outcome(path, argv, p, []);
    VectorFits(m.mem, m.trees[r], call.argvVa, argv);
    var data;
    rc, data := LoadFile(call.env, path);
    if rc != 0 {
      return;
    }
    ghost var top;
    rc, p, top := ImageBuild(m, data, argv, USER_STACK_PAGES, call.env.nxOn, call.env.scratchRoom);
    o := Outcome(path, argv, p, top);
  }

  // The string at `to` in one address space is the string at `from` in another.
  ghost predicate SameString(mem: Mem, nodes: Nodes, from: nat, mem': Mem, nodes': Nodes, to: nat) {
    exists n: nat ::
      && StringAt(mem, nodes, from, n) && StringAt(mem', nodes', to, n)
      && ReadBytes(mem', nodes', to, n) == ReadBytes(mem, nodes, from, n)
  }

  lemma SameText(mem: Mem, nodes: Nodes, from: nat, mem': Mem, nodes': Nodes, to: nat, text: seq<byte>)
    requires StringAt(mem, nodes, from, |text|) && ReadBytes(mem, nodes, from, |text|) == text
    requires StringAt(mem', nodes', to, |text|) && ReadBytes(mem', nodes', to, |text|) == text
    ensures SameString(mem, nodes, from, mem', nodes', to)
  {
  }

  lemma ArgumentCarried(mem: Mem, nodes: Nodes, va: nat, mem': Mem, nodes': Nodes, top: seq<byte>, argv: seq<Arg>,
                        rsp: nat, i: nat)
    requires 0 < va < ADDRESS_RANGE && Vector(mem, nodes, va, argv) && i < |argv|
    requires ArgsMapped(mem', nodes', top, argv, rsp)
    ensures SameString(mem, nodes, ReadWord(mem, nodes, va + 8 * i, 8), mem', nodes',
                       ReadWord(mem', nodes', rsp + 8 + 8 * i, 8))
  {
    VectorIsLaidOut(mem, nodes, va, argv);
    assert PointsToArg(mem, nodes, va, i, argv[i]);
    VectorIsText(mem, nodes, va, argv, i);
    ArgumentArrives(mem', nodes', top, argv, rsp, i);
    SameText(mem, nodes, ReadWord(mem, nodes, va + 8 * i, 8), mem', nodes', ReadWord(mem', nodes', rsp + 8 + 8 * i, 8),
             Text(argv[i]));
  }

  // The first n strings that the program finds through its stack pointer are those of the vector at va.
  ghost predicate AllCarried(mem: Mem, nodes: Nodes, va: nat, mem': Mem, nodes': Nodes, rsp: nat, n: nat) {
    forall i: nat :: i < n ==>
      SameString(mem, nodes, ReadWord(mem, nodes, va + 8 * i, 8), mem', nodes',
                 ReadWord(mem', nodes', rsp + 8 + 8 * i, 8))
  }

  lemma ArgumentsCarried(mem: Mem, nodes: Nodes, va: nat, mem': Mem, nodes': Nodes, top: seq<byte>, argv: seq<Arg>,
                         rsp: nat)
    requires 0 < va < ADDRESS_RANGE && Vector(mem, nodes, va, argv) && ArgsMapped(mem', nodes', top, argv, rsp)
    ensures AllCarried(mem, nodes, va, mem', nodes', rsp, |argv|)
  {
    forall i: nat | i < |argv|
      ensures SameString(mem, nodes, ReadWord(mem, nodes, va + 8 * i, 8), mem', nodes',
                         ReadWord(mem', nodes', rsp + 8 + 8 * i, 8))
    {
      ArgumentCarried(mem, nodes, va, mem', nodes', top, argv, rsp, i);
    }
  }

  lemma ArgsInPlace(w: World, w': World, sh: Sharing, r: nat, call: Call, o: Outcome)
    requires Prepared(w, w', sh, r, call, o)
    ensures r in w.trees && o.p.root in w'.trees && Vector(w.mem, w.trees[r], call.argvVa, o.argv)
    ensures ArgsMapped(w'.mem, w'.trees[o.p.root], o.top, o.argv, o.p.rsp)
  {
    TopPageOfImage(w, w', sh, o.p.root, LoadedImage(call.env.files[o.path], call.env.nxOn), USER_STACK_PAGES, o.top);
  }

  // n pointers that are not NULL lie one after the other from va on, and then a NULL one.
  ghost predicate CountedByNull(mem: Mem, nodes: Nodes, va: nat, n: nat) {
    && (forall i: nat :: i < n ==> ReadWord(mem, nodes, va + 8 * i, 8) != 0)
    && ReadWord(mem, nodes, va + 8 * n, 8) == 0
  }

  lemma CallerCount(mem: Mem, nodes: Nodes, va: nat, argv: seq<Arg>)
    requires 0 < va < ADDRESS_RANGE && Vector(mem, nodes, va, argv)
    ensures CountedByNull(mem, nodes, va, |argv|)
  {
    NullLiesThere(mem, nodes, va, argv);
    forall i: nat | i < |argv| ensures ReadWord(mem, nodes, va + 8 * i, 8) != 0 {
      ArgumentLiesThere(mem, nodes, va, argv, i);
    }
  }

  // At rsp is the number n, and behind it and n pointers a NULL one.
  ghost predicate CountedAt(mem: Mem, nodes: Nodes, rsp: nat, n: nat) {
    ReadWord(mem, nodes, rsp, 8) == n && ReadWord(mem, nodes, rsp + 8 + 8 * n, 8) == 0
  }

  lemma ProgramCount(mem: Mem, nodes: Nodes, top: seq<byte>, argv: seq<Arg>, rsp: nat)
    requires ArgsMapped(mem, nodes, top, argv, rsp)
    ensures CountedAt(mem, nodes, rsp, |argv|)
  {
    StackPointerShowsCount(mem, nodes, top, argv, rsp);
    PointersEndWithNull(mem, nodes, top, argv, rsp);
  }

  /** The new program finds at its stack pointer the number of pointers that its caller had before a NULL one, then as
      many pointers and a NULL one, and through each of them, byte for byte, the string that the caller passed. */
  lemma ArgumentsArrive(w: World, w': World, sh: Sharing, r: nat, call: Call, o: Outcome)
    requires Prepared(w, w', sh, r, call, o) && 0 < call.argvVa < ADDRESS_RANGE
    ensures var n, mem', nodes' := |o.argv|, w'.mem, w'.trees[o.p.root];
      && CountedByNull(w.mem, w.trees[r], call.argvVa, n)
      && CountedAt(mem', nodes', o.p.rsp, n)
      && AllCarried(w.mem, w.trees[r], call.argvVa, mem', nodes', o.p.rsp, n)
  {
    ArgsInPlace(w, w', sh, r, call, o);
    CallerCount(w.mem, w.trees[r], call.argvVa, o.argv);
    ProgramCount(w'.mem, w'.trees[o.p.root], o.top, o.argv, o.p.rsp);
    ArgumentsCarried(w.mem, w.trees[r], call.argvVa, w'.mem, w'.trees[o.p.root], o.top, o.argv, o.p.rsp);
  }

  /** Replaces the address space of the task: the new one is built first, then the old one is given up. */
  method Execve(m: Machine, r: nat, call: Call) returns (rc: int, p: Program, ghost mid: World, ghost o: Outcome)
    requires m.Valid() && r in m.trees && SharingOk(m.sh)
    modifies m.Repr()
    ensures m.Valid() && rc <= 0
    ensures rc != 0 ==> BooksKept(old(m.Now()), m.Now())
    ensures rc != 0 ==> CallRefused(old(m.Now()), m.sh, m.pmm.totalFrames, r, call, rc)
    ensures rc == 0 ==> WorldOk(mid, m.sh, m.pmm.totalFrames) && TreeGone(mid, m.Now(), r)
    ensures rc == 0 ==> Prepared(old(m.Now()), mid, m.sh, r, call, o) && o.p == p
  {
    rc, p, o := Prepare(m, r, call);
    mid := m.Now();
    if rc == 0 {
      Teardown.Free(m, r);
    }
  }
}
