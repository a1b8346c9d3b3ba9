/** Sequences of file operations, and the map from names to contents they implement. */
module FileMachine {
  import opened Bytes
  import opened Volumes
  import opened Positions
  import opened Names
  import opened Chains
  import opened Directory
  import opened Files
  import opened Writing
  import opened Appending
  import opened Reading
  import opened Lifecycle

  datatype Op =
    | Create(filename: Name)
    | Write(bytes: seq<Byte>)
    | Close
    | Open(filename: Name)
    | Read(count: Word)
    | Delete(filename: Name)

  // ----- The abstract object -----

  /** What the one descriptor is in use for. */
  datatype Use = Unused | WritingTo(name: Name, buffer: seq<Byte>) | ReadingFrom(name: Name, at: nat)

  datatype Shelf = Shelf(files: map<Name, seq<Byte>>, use: Use)

  function Least(a: nat, b: nat): nat {
    if a < b then a else b
  }

  /** What an operation does to named contents, and the bytes it delivers. */
  function Intended(a: Shelf, op: Op): (Shelf, seq<Byte>) {
    match op
    case Create(f) => (Shelf(a.files[Canonical(f) := []], WritingTo(Canonical(f), [])), [])
    case Write(bs) =>
      (if a.use.WritingTo? then a.(use := WritingTo(a.use.name, a.use.buffer + bs)) else a, [])
    case Close =>
      (Shelf(if a.use.WritingTo? then a.files[a.use.name := a.use.buffer] else a.files, Unused), [])
    case Open(f) => (a.(use := ReadingFrom(Canonical(f), 0)), [])
    case Read(n) =>
      if a.use.ReadingFrom? && a.use.name in a.files && a.use.at <= |a.files[a.use.name]| then
        var text := a.files[a.use.name];
        var to := Least(a.use.at + n, |text|);
        (a.(use := ReadingFrom(a.use.name, to)), text[a.use.at..to])
      else (a, [])
    case Delete(f) => (a.(files := a.files - {Canonical(f)}), [])
  }

  function IntendedRun(a: Shelf, ops: seq<Op>): (Shelf, seq<Byte>)
    decreases |ops|
  {
    if ops == [] then (a, [])
    else
      var (a1, out) := Intended(a, ops[0]);
      var (a2, rest) := IntendedRun(a1, ops[1..]);
      (a2, out + rest)
  }

  // ----- The driver -----

  /** The slot the descriptor refers to. */
  datatype Session = Idle | Writer(slot: nat) | Reader(slot: nat)

  datatype Machine = Machine(st: State, session: Session)

  /** The state the driver keeps between operations. */
  ghost predicate Consistent(g: Geometry, m: Machine) {
    && Sound(g, m.st.vol)
    && match m.session
       case Idle => true
       case Writer(k) => OpenForWriting(g, m.st, k)
       case Reader(k) => OpenForReading(g, m.st, k)
  }

  /** An operation that succeeds: names resolve, space suffices, and the open file is not deleted. */
  ghost predicate Enabled(g: Geometry, m: Machine, op: Op) {
    match op
    case Create(f) => CanCreate(g, m.st.vol, Canonical(f))
    case Write(bs) => m.session.Writer? && |bs| < 0x1_0000 && CanWrite(g, m.st, |bs|)
    case Close => m.session != Idle
    case Open(f) => Lookup(m.st.vol.dir, Canonical(f)).Some?
    case Read(n) => m.session.Reader? && ReadExact(m.st.file, n)
    case Delete(f) =>
      var k := Lookup(m.st.vol.dir, Canonical(f));
      k.Some? && (m.session != Idle ==> m.session.slot != k.value)
  }

  /** What the driver does, in terms of the specifications of its methods. */
  ghost function Next(g: Geometry, m: Machine, op: Op): (Machine, seq<Byte>)
    requires Consistent(g, m) && Enabled(g, m, op)
  {
    match op
    case Create(f) => (Machine(Created(g, m.st.vol, Canonical(f)), Writer(FirstUnused(m.st.vol.dir))), [])
    case Write(bs) => (m.(st := WriteBytes(g, m.st, bs)), [])
    case Close =>
      (Machine(if m.session.Writer? then ClosedSound(g, m.st, m.session.slot); Closed(g, m.st, m.session.slot) else m.st, Idle), [])
    case Open(f) =>
      var k := Lookup(m.st.vol.dir, Canonical(f)).value;
      (Machine(m.st.(file := AtStart(Canonical(f), FMODE_READ, SizeOf(m.st.vol.dir[k]), StartOf(m.st.vol.dir[k]))),
               Reader(k)), [])
    case Read(n) =>
      var (out, st') := ReadBytes(g, m.st, m.session.slot, n);
      (m.(st := st'), out)
    case Delete(f) =>
      (m.(st := m.st.(vol := Deleted(g, m.st.vol, Lookup(m.st.vol.dir, Canonical(f)).value))), [])
  }

  // ----- The correspondence -----

  /** Names and contents of the files of a volume. */
  ghost function NamedFiles(g: Geometry, v: Volume): map<Name, seq<Byte>>
    requires Sound(g, v)
  {
    map k | 0 <= k < |v.dir| && FileAt(v.dir, k) :: NameOf(v.dir[k]) := FileBytes(g, v, k)
  }

  ghost predicate Represents(g: Geometry, m: Machine, a: Shelf) {
    && Consistent(g, m)
    && a.files == NamedFiles(g, m.st.vol)
    && match m.session
       case Idle => a.use == Unused
       case Writer(k) => a.use == WritingTo(m.st.file.name, Written(g, m.st, k))
       case Reader(k) => a.use == ReadingFrom(m.st.file.name, m.st.file.fpos)
  }

  /** A name denotes the contents of the one slot that carries it. */
  lemma NamedAt(g: Geometry, v: Volume, k: nat)
    requires Sound(g, v) && FileAt(v.dir, k)
    ensures NameOf(v.dir[k]) in NamedFiles(g, v) && NamedFiles(g, v)[NameOf(v.dir[k])] == FileBytes(g, v, k)
    ensures Lookup(v.dir, NameOf(v.dir[k])) == Some(k)
  {
    LookupExact(v.dir, NameOf(v.dir[k]), k);
    assert NameOf(v.dir[k]) in NamedFiles(g, v);
    hide FileBytes, Owns, ChainAt, NameOf, IsFile;
  }

  lemma NameResolves(g: Geometry, v: Volume, name: Name)
    requires Sound(g, v)
    ensures name in NamedFiles(g, v) <==> Lookup(v.dir, name).Some?
  {
    if name in NamedFiles(g, v) {
      var k :| 0 <= k < |v.dir| && FileAt(v.dir, k) && NameOf(v.dir[k]) == name;
      LookupExact(v.dir, name, k);
    }
    if Lookup(v.dir, name).Some? {
      NamedAt(g, v, Lookup(v.dir, name).value);
    }
  }

  /** A map that agrees with every file and has no other names is the map of the volume. */
  lemma NamedUnique(g: Geometry, v: Volume, m: map<Name, seq<Byte>>)
    requires Sound(g, v)
    requires forall k :: FileAt(v.dir, k) ==> NameOf(v.dir[k]) in m && m[NameOf(v.dir[k])] == FileBytes(g, v, k)
    requires forall n :: n in m ==> exists k :: FileAt(v.dir, k) && NameOf(v.dir[k]) == n
    ensures m == NamedFiles(g, v)
  {
    hide FileBytes, Owns, ChainAt, NameOf, IsFile;
    forall n | n in m ensures n in NamedFiles(g, v) && NamedFiles(g, v)[n] == m[n] {
      var k :| FileAt(v.dir, k) && NameOf(v.dir[k]) == n;
      NamedAt(g, v, k);
    }
    forall n | n in NamedFiles(g, v) ensures n in m {
      var k :| FileAt(v.dir, k) && NameOf(v.dir[k]) == n;
    }
  }

  /** Files that keep their slots and names, but for the contents of slot `k`. */
  lemma NamedUpdate(g: Geometry, v: Volume, v': Volume, k: nat, bs: seq<Byte>)
    requires Sound(g, v) && Sound(g, v') && |v'.dir| == |v.dir| && FileAt(v.dir, k)
    requires forall j :: FileAt(v'.dir, j) <==> FileAt(v.dir, j)
    requires forall j :: FileAt(v'.dir, j) ==> NameOf(v'.dir[j]) == NameOf(v.dir[j])
    requires forall j :: FileAt(v'.dir, j) ==>
               FileBytes(g, v', j) == if j == k then bs else FileBytes(g, v, j)
    ensures NamedFiles(g, v') == NamedFiles(g, v)[NameOf(v.dir[k]) := bs]
  {
    hide FileBytes, Owns, ChainAt, NameOf, IsFile, DirectoryOk;
    var m := NamedFiles(g, v)[NameOf(v.dir[k]) := bs];
    forall j | FileAt(v'.dir, j) ensures NameOf(v'.dir[j]) in m && m[NameOf(v'.dir[j])] == FileBytes(g, v', j) {
      NamedAt(g, v, j);
      NamedAt(g, v, k);
    }
    forall n | n in m ensures exists j :: FileAt(v'.dir, j) && NameOf(v'.dir[j]) == n {
      if n == NameOf(v.dir[k]) {
        assert FileAt(v'.dir, k);
      } else {
        var j :| FileAt(v.dir, j) && NameOf(v.dir[j]) == n;
        assert FileAt(v'.dir, j);
      }
    }
    NamedUnique(g, v', m);
  }

  lemma NamedSame(g: Geometry, v: Volume, v': Volume)
    requires Sound(g, v) && Sound(g, v') && v'.dir == v.dir
    requires forall j :: FileAt(v.dir, j) ==> FileBytes(g, v', j) == FileBytes(g, v, j)
    ensures NamedFiles(g, v') == NamedFiles(g, v)
  {
    hide FileBytes, Owns, ChainAt, NameOf, IsFile, DirectoryOk;
    forall j | FileAt(v'.dir, j)
      ensures NameOf(v'.dir[j]) in NamedFiles(g, v) && NamedFiles(g, v)[NameOf(v'.dir[j])] == FileBytes(g, v', j)
    {
      NamedAt(g, v, j);
    }
    NamedUnique(g, v', NamedFiles(g, v));
  }

  lemma NamedAdded(g: Geometry, v: Volume, v': Volume, u: nat, name: Name, bs: seq<Byte>)
    requires Sound(g, v) && Sound(g, v') && |v'.dir| == |v.dir| && u < |v.dir| && !FileAt(v.dir, u)
    requires forall j :: FileAt(v'.dir, j) <==> j == u || FileAt(v.dir, j)
    requires forall j :: FileAt(v.dir, j) ==> v'.dir[j] == v.dir[j] && FileBytes(g, v', j) == FileBytes(g, v, j)
    requires NameOf(v'.dir[u]) == name && FileBytes(g, v', u) == bs && Lookup(v.dir, name) == None
    ensures NamedFiles(g, v') == NamedFiles(g, v)[name := bs]
  {
    hide FileBytes, Owns, ChainAt, NameOf, IsFile, DirectoryOk;
    var m := NamedFiles(g, v)[name := bs];
    forall j | FileAt(v'.dir, j) ensures NameOf(v'.dir[j]) in m && m[NameOf(v'.dir[j])] == FileBytes(g, v', j) {
      if j != u {
        NamedAt(g, v, j);
      }
    }
    forall n | n in m ensures exists j :: FileAt(v'.dir, j) && NameOf(v'.dir[j]) == n {
      if n == name {
        assert FileAt(v'.dir, u);
      } else {
        var j :| FileAt(v.dir, j) && NameOf(v.dir[j]) == n;
        assert FileAt(v'.dir, j);
      }
    }
    NamedUnique(g, v', m);
  }

  lemma NamedRemoved(g: Geometry, v: Volume, v': Volume, k: nat)
    requires Sound(g, v) && Sound(g, v') && |v'.dir| == |v.dir| && FileAt(v.dir, k)
    requires forall j :: FileAt(v'.dir, j) <==> FileAt(v.dir, j) && j != k
    requires forall j :: FileAt(v'.dir, j) ==> v'.dir[j] == v.dir[j] && FileBytes(g, v', j) == FileBytes(g, v, j)
    ensures NamedFiles(g, v') == NamedFiles(g, v) - {NameOf(v.dir[k])}
  {
    hide FileBytes, Owns, ChainAt, NameOf, IsFile, DirectoryOk;
    var m := NamedFiles(g, v) - {NameOf(v.dir[k])};
    forall j | FileAt(v'.dir, j) ensures NameOf(v'.dir[j]) in m && m[NameOf(v'.dir[j])] == FileBytes(g, v', j) {
      NamedAt(g, v, j);
      NamedAt(g, v, k);
    }
    forall n | n in m ensures exists j :: FileAt(v'.dir, j) && NameOf(v'.dir[j]) == n {
      var j :| FileAt(v.dir, j) && NameOf(v.dir[j]) == n;
      assert FileAt(v'.dir, j);
    }
    NamedUnique(g, v', m);
  }

  // ----- One step -----

  /** Each operation does to the named contents what is intended, and delivers the intended bytes. */
  ghost predicate StepCorrect(g: Geometry, m: Machine, a: Shelf, op: Op)
    requires Consistent(g, m) && Enabled(g, m, op)
  {
    && Represents(g, Next(g, m, op).0, Intended(a, op).0)
    && Next(g, m, op).1 == Intended(a, op).1
    && KeepsLeakless(g, m, Next(g, m, op).0)
  }

  /** No cluster is lost on the way from one state to another. */
  ghost predicate KeepsLeakless(g: Geometry, m: Machine, m': Machine)
    requires Consistent(g, m) && Consistent(g, m')
  {
    Leakless(g, m.st.vol) ==> Leakless(g, m'.st.vol)
  }

  lemma CreateCorrect(g: Geometry, m: Machine, a: Shelf, f: Name)
    requires Represents(g, m, a) && Enabled(g, m, Create(f))
    ensures StepCorrect(g, m, a, Create(f))
  {
    hide FileBytes, Owns, ChainAt, NameOf, IsFile, DirectoryOk, Written, ClusterIndex, SectorIndex, NamedFiles, Leakless;
    var v, name := m.st.vol, Canonical(f);
    CreateKeeps(g, v, name);
    CreatedSlots(g, v, name);
    NamedAdded(g, v, Created(g, v, name).vol, FirstUnused(v.dir), name, []);
  }

  lemma WriteCorrect(g: Geometry, m: Machine, a: Shelf, bs: seq<Byte>)
    requires Represents(g, m, a) && Enabled(g, m, Write(bs))
    ensures StepCorrect(g, m, a, Write(bs))
  {
    hide FileBytes, Owns, ChainAt, NameOf, IsFile, DirectoryOk, Written, ClusterIndex, SectorIndex, NamedFiles, Leakless,
         WriteBytes, CanWrite, ChainGrew;
    WriteKeeps(g, m.st, bs, m.session.slot);
    NamedSame(g, m.st.vol, WriteBytes(g, m.st, bs).vol);
  }

  lemma CloseCorrect(g: Geometry, m: Machine, a: Shelf)
    requires Represents(g, m, a) && Enabled(g, m, Close)
    ensures StepCorrect(g, m, a, Close)
  {
    hide FileBytes, Owns, ChainAt, NameOf, IsFile, DirectoryOk, Written, ClusterIndex, SectorIndex, NamedFiles, Leakless,
         Resized;
    if m.session.Writer? {
      var k := m.session.slot;
      ClosedSound(g, m.st, k);
      CloseKeeps(g, m.st, k);
      NamedUpdate(g, m.st.vol, Closed(g, m.st, k).vol, k, Written(g, m.st, k));
    }
  }

  lemma StartPlaced(g: Geometry, v: Volume, k: nat)
    requires Sound(g, v) && FileAt(v.dir, k)
    ensures OpenForReading(g, State(v, AtStart(NameOf(v.dir[k]), FMODE_READ, SizeOf(v.dir[k]), StartOf(v.dir[k]))), k)
  {
    hide DirectoryOk, NameOf, IsFile, ClusterIndex, SectorIndex;
    assert Owns(g, v, k);
    PositionJoin(g, 0, 0, 0);
  }

  lemma OpenCorrect(g: Geometry, m: Machine, a: Shelf, f: Name)
    requires Represents(g, m, a) && Enabled(g, m, Open(f))
    ensures StepCorrect(g, m, a, Open(f))
  {
    hide FileBytes, Owns, ChainAt, NameOf, IsFile, DirectoryOk, Written, ClusterIndex, SectorIndex, NamedFiles, Leakless,
         OpenForReading, OpenForWriting;
    var k := Lookup(m.st.vol.dir, Canonical(f)).value;
    StartPlaced(g, m.st.vol, k);
  }

  lemma ReadCorrect(g: Geometry, m: Machine, a: Shelf, n: Word)
    requires Represents(g, m, a) && Enabled(g, m, Read(n))
    ensures StepCorrect(g, m, a, Read(n))
  {
    hide FileBytes, Owns, ChainAt, IsFile, DirectoryOk, Written, ClusterIndex, SectorIndex, NamedFiles, Leakless,
         OpenForReading, ReadBytes, OpenForWriting;
    var k, st := m.session.slot, m.st;
    ReadingFacts(g, st, k);
    NamedAt(g, st.vol, k);
    ReadBytesExact(g, st, k, n);
    ReadingFacts(g, ReadBytes(g, st, k, n).1, k);
  }

  lemma ReadingFacts(g: Geometry, st: State, k: nat)
    requires OpenForReading(g, st, k)
    ensures Sound(g, st.vol) && FileAt(st.vol.dir, k) && NameOf(st.vol.dir[k]) == st.file.name
    ensures st.file.fpos <= st.file.size == |FileBytes(g, st.vol, k)|
  {
  }

  lemma DeleteKeepsOpen(g: Geometry, st: State, k: nat, j: nat)
    requires Sound(g, st.vol) && FileAt(st.vol.dir, k) && FileAt(st.vol.dir, j) && j != k
    ensures var st' := st.(vol := Deleted(g, st.vol, k));
            && (OpenForWriting(g, st, j) ==> OpenForWriting(g, st', j) && Written(g, st', j) == Written(g, st, j))
            && (OpenForReading(g, st, j) ==> OpenForReading(g, st', j))
  {
    hide ClusterIndex, SectorIndex, DirectoryOk, NameOf, IsFile, Owns, ChainAt, Leakless, Released;
    DeleteKeeps(g, st.vol, k);
  }

  lemma DeleteCorrect(g: Geometry, m: Machine, a: Shelf, f: Name)
    requires Represents(g, m, a) && Enabled(g, m, Delete(f))
    ensures StepCorrect(g, m, a, Delete(f))
  {
    hide FileBytes, Owns, ChainAt, IsFile, DirectoryOk, Written, ClusterIndex, SectorIndex, NamedFiles, Leakless,
         OpenForReading, OpenForWriting;
    var v, k := m.st.vol, Lookup(m.st.vol.dir, Canonical(f)).value;
    DeleteKeeps(g, v, k);
    NamedRemoved(g, v, Deleted(g, v, k), k);
    if m.session != Idle {
      SessionFile(g, m);
      DeleteKeepsOpen(g, m.st, k, m.session.slot);
    }
  }

  lemma SessionFile(g: Geometry, m: Machine)
    requires Consistent(g, m) && m.session != Idle
    ensures FileAt(m.st.vol.dir, m.session.slot)
  {
  }

  lemma StepRefines(g: Geometry, m: Machine, a: Shelf, op: Op)
    requires Represents(g, m, a) && Enabled(g, m, op)
    ensures StepCorrect(g, m, a, op)
  {
    hide Next, Intended, Represents, Enabled;
    match op
    case Create(f) => CreateCorrect(g, m, a, f);
    case Write(bs) => WriteCorrect(g, m, a, bs);
    case Close => CloseCorrect(g, m, a);
    case Open(f) => OpenCorrect(g, m, a, f);
    case Read(n) => ReadCorrect(g, m, a, n);
    case Delete(f) => DeleteCorrect(g, m, a, f);
  }

  // ----- Runs -----

  /** Every operation of the run is enabled when its turn comes. */
  ghost predicate EnabledRun(g: Geometry, m: Machine, ops: seq<Op>)
    decreases |ops|
  {
    Consistent(g, m)
    && (ops == [] || (Enabled(g, m, ops[0]) && EnabledRun(g, Next(g, m, ops[0]).0, ops[1..])))
  }

  ghost function NextRun(g: Geometry, m: Machine, ops: seq<Op>): (Machine, seq<Byte>)
    requires EnabledRun(g, m, ops)
    decreases |ops|
  {
    if ops == [] then (m, [])
    else
      var (m1, out) := Next(g, m, ops[0]);
      var (m2, rest) := NextRun(g, m1, ops[1..]);
      (m2, out + rest)
  }

  lemma RepresentsConsistent(g: Geometry, m: Machine, a: Shelf)
    requires Represents(g, m, a)
    ensures Consistent(g, m)
  {
  }

  /** Over every run of successful operations the volume stays sound, the files are what the operations
      intend, so are the bytes delivered, and no cluster is lost. */
  lemma {:induction false} RunRefines(g: Geometry, m: Machine, a: Shelf, ops: seq<Op>)
    requires Represents(g, m, a) && EnabledRun(g, m, ops)
    ensures Represents(g, NextRun(g, m, ops).0, IntendedRun(a, ops).0)
    ensures NextRun(g, m, ops).1 == IntendedRun(a, ops).1
    ensures Consistent(g, m) && Consistent(g, NextRun(g, m, ops).0) && KeepsLeakless(g, m, NextRun(g, m, ops).0)
    decreases |ops|
  {
    RepresentsConsistent(g, m, a);
    hide Next, Intended, Represents, Enabled, Consistent, Leakless;
    if ops != [] {
      StepRefines(g, m, a, ops[0]);
      RunRefines(g, Next(g, m, ops[0]).0, Intended(a, ops[0]).0, ops[1..]);
    }
  }

  /** A freshly formatted volume holds no files; so every run from one keeps all of the above. */
  lemma FreshVolume(g: Geometry, v: Volume, file: Descriptor)
    requires Fits(g, v) && 0 < |v.dir|
    requires forall k :: 0 <= k < |v.dir| ==> IsEnd(v.dir[k])
    requires forall c :: FIRST_CLUSTER <= c < g.limit ==> v.fat[c] == CLUSTER_FREE
    ensures Represents(g, Machine(State(v, file), Idle), Shelf(map[], Unused)) && Leakless(g, v)
  {
    assert IsEnd(v.dir[0]);
    assert Sound(g, v);
    NamedUnique(g, v, map[]);
  }

  // ----- What runs do to named contents -----

  function Writes(pieces: seq<seq<Byte>>): (ops: seq<Op>)
    ensures |ops| == |pieces|
  {
    seq(|pieces|, i requires 0 <= i < |pieces| => Write(pieces[i]))
  }

  function Reads(counts: seq<Word>): (ops: seq<Op>)
    ensures |ops| == |counts|
  {
    seq(|counts|, i requires 0 <= i < |counts| => Read(counts[i]))
  }

  function Joined(pieces: seq<seq<Byte>>): seq<Byte> {
    if pieces == [] then [] else pieces[0] + Joined(pieces[1..])
  }

  function Sum(counts: seq<Word>): nat {
    if counts == [] then 0 else counts[0] + Sum(counts[1..])
  }

  lemma RunNothing(a: Shelf)
    ensures IntendedRun(a, []) == (a, [])
  {
  }

  lemma RunFirst(a: Shelf, op: Op, ops: seq<Op>)
    ensures var (a1, out) := Intended(a, op);
            IntendedRun(a, [op] + ops) == (IntendedRun(a1, ops).0, out + IntendedRun(a1, ops).1)
  {
    assert ([op] + ops)[1..] == ops;
  }

  lemma {:induction false} RunAppend(a: Shelf, xs: seq<Op>, ys: seq<Op>)
    ensures var (a1, out1) := IntendedRun(a, xs);
            var (a2, out2) := IntendedRun(a1, ys);
            IntendedRun(a, xs + ys) == (a2, out1 + out2)
    decreases |xs|
  {
    hide Intended, IntendedRun;
    if xs == [] {
      RunNothing(a);
      assert xs + ys == ys;
      assert [] + IntendedRun(a, ys).1 == IntendedRun(a, ys).1;
    } else {
      var a1, out := Intended(a, xs[0]).0, Intended(a, xs[0]).1;
      RunAppend(a1, xs[1..], ys);
      var r1 := IntendedRun(a1, xs[1..]);
      var r2 := IntendedRun(r1.0, ys);
      RunFirst(a, xs[0], xs[1..]);
      assert [xs[0]] + xs[1..] == xs;
      RunFirst(a, xs[0], xs[1..] + ys);
      assert [xs[0]] + (xs[1..] + ys) == xs + ys;
      assert out + (r1.1 + r2.1) == (out + r1.1) + r2.1;
    }
  }

  lemma {:induction false} WritesBuffer(a: Shelf, pieces: seq<seq<Byte>>)
    requires a.use.WritingTo?
    ensures IntendedRun(a, Writes(pieces))
            == (a.(use := WritingTo(a.use.name, a.use.buffer + Joined(pieces))), [])
    decreases |pieces|
  {
    if pieces == [] {
      assert a.use.buffer + [] == a.use.buffer;
    } else {
      var a1 := Intended(a, Write(pieces[0])).0;
      RunFirst(a, Write(pieces[0]), Writes(pieces[1..]));
      WritesBuffer(a1, pieces[1..]);
      assert Writes(pieces) == [Write(pieces[0])] + Writes(pieces[1..]);
      assert IntendedRun(a, Writes(pieces)).1 == [];
      assert a1.use.buffer + Joined(pieces[1..]) == a.use.buffer + Joined(pieces);
    }
  }

  lemma {:induction false} ReadsDeliver(a: Shelf, counts: seq<Word>)
    requires a.use.ReadingFrom? && a.use.name in a.files && a.use.at <= |a.files[a.use.name]|
    ensures var text, p := a.files[a.use.name], a.use.at;
            var q := Least(p + Sum(counts), |text|);
            IntendedRun(a, Reads(counts)) == (a.(use := ReadingFrom(a.use.name, q)), text[p..q])
    decreases |counts|
  {
    hide IntendedRun;
    var text, p := a.files[a.use.name], a.use.at;
    if counts == [] {
      RunNothing(a);
      assert text[p..p] == [];
    } else {
      var r, q := Least(p + counts[0], |text|), Least(p + Sum(counts), |text|);
      var a1 := Intended(a, Read(counts[0])).0;
      RunFirst(a, Read(counts[0]), Reads(counts[1..]));
      ReadsDeliver(a1, counts[1..]);
      assert Reads(counts) == [Read(counts[0])] + Reads(counts[1..]);
      assert IntendedRun(a, Reads(counts)).1 == text[p..r] + text[r..q];
      assert text[p..r] + text[r..q] == text[p..q];
    }
  }

  function RoundTrip(f: Name, pieces: seq<seq<Byte>>, counts: seq<Word>): seq<Op> {
    [Create(f)] + (Writes(pieces) + ([Close] + ([Open(f)] + Reads(counts))))
  }

  lemma RoundTripIntended(a: Shelf, f: Name, pieces: seq<seq<Byte>>, counts: seq<Word>)
    ensures IntendedRun(a, RoundTrip(f, pieces, counts)).1
            == Joined(pieces)[..Least(Sum(counts), |Joined(pieces)|)]
    ensures IntendedRun(a, RoundTrip(f, pieces, counts)).0.files == a.files[Canonical(f) := Joined(pieces)]
  {
    var name, bytes := Canonical(f), Joined(pieces);
    var a1 := Shelf(a.files[name := []], WritingTo(name, []));
    var a2 := Shelf(a.files[name := []], WritingTo(name, bytes));
    var a3 := Shelf(a.files[name := bytes], Unused);
    var last := [Open(f)] + Reads(counts);
    RunFirst(a, Create(f), Writes(pieces) + ([Close] + last));
    WritesBuffer(a1, pieces);
    assert [] + bytes == bytes;
    RunAppend(a1, Writes(pieces), [Close] + last);
    RunFirst(a2, Close, last);
    assert a2.files[name := bytes] == a3.files;
    RunFirst(a3, Open(f), Reads(counts));
    ReadsDeliver(a3.(use := ReadingFrom(name, 0)), counts);
  }

  /** Which operations succeed, in terms of the named contents: a name that is there can be opened, and deleted
      unless it is open; an open file can be closed, and read unless 0 bytes are asked for inside a sector. */
  lemma EnabledExact(g: Geometry, m: Machine, a: Shelf, f: Name, n: Word)
    requires Represents(g, m, a)
    ensures Enabled(g, m, Open(f)) <==> Canonical(f) in a.files
    ensures Enabled(g, m, Delete(f)) <==> Canonical(f) in a.files && (a.use == Unused || a.use.name != Canonical(f))
    ensures Enabled(g, m, Close) <==> a.use != Unused
    ensures Enabled(g, m, Read(n)) <==>
              && a.use.ReadingFrom?
              && (0 < n || a.use.at % 512 == 0 || (a.use.name in a.files && a.use.at == |a.files[a.use.name]|))
  {
    hide FileBytes, Owns, ChainAt, IsFile, DirectoryOk, ClusterIndex, SectorIndex, NamedFiles, NameOf, Sound, Written;
    NameResolves(g, m.st.vol, Canonical(f));
    if m.session != Idle {
      SessionNamed(g, m);
      OneSlot(m.st.vol, m.session.slot, Canonical(f), g);
    }
    if a.use.ReadingFrom? {
      ReaderAt(g, m, a);
    }
  }

  lemma SessionNamed(g: Geometry, m: Machine)
    requires Consistent(g, m) && m.session != Idle
    ensures FileAt(m.st.vol.dir, m.session.slot) && NameOf(m.st.vol.dir[m.session.slot]) == m.st.file.name
  {
  }

  /** The slot that a name leads to is the one that carries it. */
  lemma OneSlot(v: Volume, k: nat, name: Name, g: Geometry)
    requires Sound(g, v) && FileAt(v.dir, k)
    ensures Lookup(v.dir, name).Some? ==> (Lookup(v.dir, name).value == k <==> NameOf(v.dir[k]) == name)
  {
    hide NameOf, IsFile, Owns, ChainAt;
    LookupExact(v.dir, name, k);
    LookupExact(v.dir, NameOf(v.dir[k]), k);
  }

  // ----- Runs that can be seen to be enabled beforehand -----

  lemma {:induction false} EnabledAppend(g: Geometry, m: Machine, xs: seq<Op>, ys: seq<Op>)
    requires EnabledRun(g, m, xs) && EnabledRun(g, NextRun(g, m, xs).0, ys)
    ensures EnabledRun(g, m, xs + ys)
    decreases |xs|
  {
    hide Next, Enabled, Consistent;
    if xs == [] {
      assert xs + ys == ys;
    } else {
      assert (xs + ys)[1..] == xs[1..] + ys;
      EnabledAppend(g, Next(g, m, xs[0]).0, xs[1..], ys);
    }
  }

  lemma EnabledFirst(g: Geometry, m: Machine, a: Shelf, op: Op, ops: seq<Op>)
    requires Represents(g, m, a) && Enabled(g, m, op) && EnabledRun(g, Next(g, m, op).0, ops)
    ensures EnabledRun(g, m, [op] + ops)
  {
    hide Next, Enabled, Sound, OpenForWriting, OpenForReading, Leakless, NamedFiles, Written;
    assert ([op] + ops)[1..] == ops;
  }

  /** Room for all pieces is room for each in its turn. */
  lemma {:induction false} WritesEnabled(g: Geometry, m: Machine, a: Shelf, pieces: seq<seq<Byte>>)
    requires Represents(g, m, a) && m.session.Writer? && CanWrite(g, m.st, |Joined(pieces)|)
    requires forall i :: 0 <= i < |pieces| ==> |pieces[i]| < 0x1_0000
    ensures EnabledRun(g, m, Writes(pieces))
    decreases |pieces|
  {
    hide CanWrite, Sound, OpenForWriting, OpenForReading, Leakless, NamedFiles, Written, WriteBytes;
    if pieces != [] {
      var op := Write(pieces[0]);
      WriteSplit(g, m.st, pieces[0], Joined(pieces[1..]));
      StepRefines(g, m, a, op);
      WritesEnabled(g, Next(g, m, op).0, Intended(a, op).0, pieces[1..]);
      EnabledFirst(g, m, a, op, Writes(pieces[1..]));
      assert Writes(pieces) == [op] + Writes(pieces[1..]);
    }
  }

  /** Reads of these counts in a row, from `at` in a file of `size` bytes, never ask for 0 bytes inside a sector. */
  predicate ReadsFit(at: nat, size: nat, counts: seq<Word>)
    decreases |counts|
  {
    counts == []
    || ((0 < counts[0] || at % SECTOR_BYTES == 0 || at == size) && ReadsFit(Least(at + counts[0], size), size, counts[1..]))
  }

  /** An open reader stands at its position in the named bytes. */
  lemma ReaderAt(g: Geometry, m: Machine, a: Shelf)
    requires Represents(g, m, a) && a.use.ReadingFrom?
    ensures m.session.Reader? && a.use.name in a.files && a.use.at <= |a.files[a.use.name]|
    ensures m.st.file.fpos == a.use.at && m.st.file.size == |a.files[a.use.name]| && m.st.file.offset == a.use.at % SECTOR_BYTES
  {
    hide FileBytes, Owns, ChainAt, IsFile, DirectoryOk, ClusterIndex, SectorIndex, NamedFiles, Leakless, NameOf;
    ReadingFacts(g, m.st, m.session.slot);
    NamedAt(g, m.st.vol, m.session.slot);
  }

  lemma {:induction false} ReadsEnabled(g: Geometry, m: Machine, a: Shelf, counts: seq<Word>)
    requires Represents(g, m, a) && a.use.ReadingFrom? && a.use.name in a.files
    requires ReadsFit(a.use.at, |a.files[a.use.name]|, counts)
    ensures EnabledRun(g, m, Reads(counts))
    decreases |counts|
  {
    hide Sound, OpenForWriting, OpenForReading, Leakless, NamedFiles, Written, ReadBytes;
    if counts != [] {
      var op := Read(counts[0]);
      ReaderAt(g, m, a);
      StepRefines(g, m, a, op);
      ReadsEnabled(g, Next(g, m, op).0, Intended(a, op).0, counts[1..]);
      EnabledFirst(g, m, a, op, Reads(counts[1..]));
      assert Reads(counts) == [op] + Reads(counts[1..]);
    }
  }

  /** A named file can be opened and read. */
  lemma OpenEnabled(g: Geometry, m: Machine, a: Shelf, f: Name, counts: seq<Word>)
    requires Represents(g, m, a) && Canonical(f) in a.files && ReadsFit(0, |a.files[Canonical(f)]|, counts)
    ensures EnabledRun(g, m, [Open(f)] + Reads(counts))
  {
    hide Sound, OpenForWriting, OpenForReading, Leakless, NamedFiles, Written, EnabledRun, ReadsFit;
    NameResolves(g, m.st.vol, Canonical(f));
    StepRefines(g, m, a, Open(f));
    ReadsEnabled(g, Next(g, m, Open(f)).0, Intended(a, Open(f)).0, counts);
    EnabledFirst(g, m, a, Open(f), Reads(counts));
  }

  /** What a caller can see before the run: the name is good and new, there is room for everything. */
  ghost predicate RoundTripFits(g: Geometry, m: Machine, f: Name, pieces: seq<seq<Byte>>, counts: seq<Word>) {
    && CanCreate(g, m.st.vol, Canonical(f))
    && CanWrite(g, Created(g, m.st.vol, Canonical(f)), |Joined(pieces)|)
    && (forall i :: 0 <= i < |pieces| ==> |pieces[i]| < 0x1_0000)
    && ReadsFit(0, |Joined(pieces)|, counts)
  }

  lemma RoundTripEnabled(g: Geometry, m: Machine, a: Shelf, f: Name, pieces: seq<seq<Byte>>, counts: seq<Word>)
    requires Represents(g, m, a) && RoundTripFits(g, m, f, pieces, counts)
    ensures EnabledRun(g, m, RoundTrip(f, pieces, counts))
  {
    hide Sound, OpenForWriting, OpenForReading, Leakless, NamedFiles, Written, EnabledRun, CanCreate, CanWrite, IntendedRun, WriteBytes, ReadsFit;
    var op, last := Create(f), [Open(f)] + Reads(counts);
    StepRefines(g, m, a, op);
    var m1, a1 := Next(g, m, op).0, Intended(a, op).0;
    WritesEnabled(g, m1, a1, pieces);
    RunRefines(g, m1, a1, Writes(pieces));
    WritesBuffer(a1, pieces);
    assert [] + Joined(pieces) == Joined(pieces);
    var m2, a2 := NextRun(g, m1, Writes(pieces)).0, IntendedRun(a1, Writes(pieces)).0;
    StepRefines(g, m2, a2, Close);
    OpenEnabled(g, Next(g, m2, Close).0, Intended(a2, Close).0, f, counts);
    EnabledFirst(g, m2, a2, Close, last);
    EnabledAppend(g, m1, Writes(pieces), [Close] + last);
    EnabledFirst(g, m, a, op, Writes(pieces) + ([Close] + last));
  }

  /** The whole-file round trip: on any volume with a new name and room, for any split of the data into
      writes and any split into reads, what is read is what was written, in order, up to the end. */
  lemma WholeFileRoundTrip(g: Geometry, m: Machine, a: Shelf, f: Name, pieces: seq<seq<Byte>>, counts: seq<Word>)
    requires Represents(g, m, a) && RoundTripFits(g, m, f, pieces, counts)
    ensures EnabledRun(g, m, RoundTrip(f, pieces, counts))
    ensures var (m', out) := NextRun(g, m, RoundTrip(f, pieces, counts));
            && out == Joined(pieces)[..Least(Sum(counts), |Joined(pieces)|)]
            && Consistent(g, m) && Consistent(g, m') && KeepsLeakless(g, m, m')
            && NamedFiles(g, m'.st.vol) == NamedFiles(g, m.st.vol)[Canonical(f) := Joined(pieces)]
  {
    hide Consistent, EnabledRun, NextRun, IntendedRun, NamedFiles, RoundTripFits;
    RoundTripEnabled(g, m, a, f, pieces, counts);
    RunRefines(g, m, a, RoundTrip(f, pieces, counts));
    RoundTripIntended(a, f, pieces, counts);
  }

  /** The operation neither creates nor deletes the name. */
  predicate LeavesAlone(op: Op, name: Name) {
    (op.Create? || op.Delete? ==> Canonical(op.filename) != name)
  }

  lemma {:induction false} OthersIntended(a: Shelf, ops: seq<Op>, name: Name)
    requires forall i :: 0 <= i < |ops| ==> LeavesAlone(ops[i], name)
    requires !(a.use.WritingTo? && a.use.name == name)
    ensures var b := IntendedRun(a, ops).0;
            (name in b.files <==> name in a.files) && (name in a.files ==> b.files[name] == a.files[name])
    decreases |ops|
  {
    if ops != [] {
      assert LeavesAlone(ops[0], name);
      OthersIntended(Intended(a, ops[0]).0, ops[1..], name);
    }
  }

  /** Isolation over whole runs: a file that no operation creates or deletes, and that is not open
      for writing, keeps its contents. */
  lemma OthersKept(g: Geometry, m: Machine, a: Shelf, ops: seq<Op>, k: nat)
    requires Represents(g, m, a) && EnabledRun(g, m, ops) && FileAt(m.st.vol.dir, k) && m.session != Writer(k)
    requires forall i :: 0 <= i < |ops| ==> LeavesAlone(ops[i], NameOf(m.st.vol.dir[k]))
    ensures var v', name := NextRun(g, m, ops).0.st.vol, NameOf(m.st.vol.dir[k]);
            Sound(g, v') && name in NamedFiles(g, v') && NamedFiles(g, v')[name] == FileBytes(g, m.st.vol, k)
  {
    hide EnabledRun, NextRun, IntendedRun, NamedFiles, FileBytes, Owns, ChainAt, NameOf, IsFile, Written, ClusterIndex,
         SectorIndex, LeavesAlone;
    NamedAt(g, m.st.vol, k);
    RunRefines(g, m, a, ops);
    OthersIntended(a, ops, NameOf(m.st.vol.dir[k]));
  }
}
