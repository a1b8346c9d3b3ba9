/** Creating, closing and deleting files. */
module Lifecycle {
  import opened Bytes
  import opened Volumes
  import opened Positions
  import opened Names
  import opened Chains
  import opened Directory
  import opened Files
  import opened Writing
  import opened Appending

  /** The descriptor of a file opened at its start. */
  function AtStart(name: Name, mode: Byte, size: nat, start: Word): Descriptor {
    Descriptor(name, mode, size, 0, start, start, 0, 0)
  }

  // ----- Creating -----

  /** A new file can be created: its name is storable and unused, and a slot and a cluster are free. */
  ghost predicate CanCreate(g: Geometry, v: Volume, name: Name) {
    && Fits(g, v)
    && Valid83(name) && 0 !in name && name[0] != FREE_MARK
    && Lookup(v.dir, name) == None
    && FirstUnused(v.dir) < |v.dir| && HasSpareSlot(v.dir)
    && LeastFree(v.fat, FIRST_CLUSTER) < SearchLimit(g)
  }

  /** The volume after a cluster is taken for a new file. */
  function Taken(g: Geometry, v: Volume): Volume
    requires Fits(g, v) && LeastFree(v.fat, FIRST_CLUSTER) < |v.fat|
  {
    v.(fat := v.fat[LeastFree(v.fat, FIRST_CLUSTER) := CLUSTER_EOF])
  }

  /** A fresh cluster, and a slot naming it. */
  function Created(g: Geometry, v: Volume, name: Name): State
    requires Fits(g, v) && DOT in name
    requires LeastFree(v.fat, FIRST_CLUSTER) < SearchLimit(g) && FirstUnused(v.dir) < |v.dir|
  {
    var n := LeastFree(v.fat, FIRST_CLUSTER);
    State(Taken(g, v).(dir := v.dir[FirstUnused(v.dir) := NewSlot(name, n)]), AtStart(name, FMODE_WRITE, 0, n))
  }

  /** Marking a free cluster as an end leaves every file as it was. */
  lemma TakenKeepsFiles(g: Geometry, v: Volume)
    requires Sound(g, v) && LeastFree(v.fat, FIRST_CLUSTER) < g.limit
    ensures Sound(g, Taken(g, v))
    ensures forall j :: FileAt(v.dir, j) ==>
              ChainAt(g, Taken(g, v), j) == ChainAt(g, v, j) && FileBytes(g, Taken(g, v), j) == FileBytes(g, v, j)
    ensures forall j :: FileAt(v.dir, j) ==> LeastFree(v.fat, FIRST_CLUSTER) !in ChainAt(g, v, j)
  {
    hide ClusterIndex, SectorIndex, SectorOf;
    var n, v' := LeastFree(v.fat, FIRST_CLUSTER), Taken(g, v);
    forall j | FileAt(v.dir, j)
      ensures n !in ChainAt(g, v, j) && Owns(g, v', j) && ChainAt(g, v', j) == ChainAt(g, v, j)
    {
      var ch := ChainAt(g, v, j);
      assert Owns(g, v, j);
      forall c | c in ch ensures c < |v.fat| && c != n {
        var i :| 0 <= i < |ch| && ch[i] == c;
        assert v.fat[c] == Link(ch, i);
      }
      FileFrame(g, v, v', j);
    }
  }

  /** When the cluster was taken but no slot filled, the cluster is lost. */
  lemma TakenLeaks(g: Geometry, v: Volume)
    requires Sound(g, v) && LeastFree(v.fat, FIRST_CLUSTER) < g.limit
    ensures !Leakless(g, Taken(g, v))
  {
    TakenKeepsFiles(g, v);
    var n := LeastFree(v.fat, FIRST_CLUSTER);
    assert !InSomeFile(g, Taken(g, v), n);
  }

  lemma CreatedSlots(g: Geometry, v: Volume, name: Name)
    requires Sound(g, v) && CanCreate(g, v, name)
    ensures !FileAt(v.dir, FirstUnused(v.dir))
    ensures var v', u := Created(g, v, name).vol, FirstUnused(v.dir);
            && DirectoryOk(v'.dir) && NameOf(v'.dir[u]) == name
            && (forall j :: FileAt(v'.dir, j) <==> j == u || FileAt(v.dir, j))
  {
    var n := LeastFree(v.fat, FIRST_CLUSTER);
    NewSlotIsFile(name, n);
    AddKeepsDirectory(v.dir, NewSlot(name, n));
    forall j | FileAt(v.dir, j) ensures NameOf(v.dir[j]) != name {
      LookupExact(v.dir, name, j);
    }
  }

  lemma CreatedChains(g: Geometry, v: Volume, name: Name)
    requires Sound(g, v) && CanCreate(g, v, name)
    ensures var v', u := Created(g, v, name).vol, FirstUnused(v.dir);
            && ChainAt(g, v', u) == [LeastFree(v.fat, FIRST_CLUSTER)] && Owns(g, v', u)
            && (forall j :: FileAt(v.dir, j) ==> ChainAt(g, v', j) == ChainAt(g, v, j) && Owns(g, v', j))
  {
    hide ClusterIndex, SectorIndex, SectorOf;
    TakenKeepsFiles(g, v);
    CreatedSlots(g, v, name);
    ChainStart(v.fat, g.limit, LeastFree(v.fat, FIRST_CLUSTER));
    forall j | FileAt(v.dir, j)
      ensures ChainAt(g, Created(g, v, name).vol, j) == ChainAt(g, v, j) && Owns(g, Created(g, v, name).vol, j)
    {
      assert Owns(g, Taken(g, v), j);
    }
  }

  lemma CreatedSound(g: Geometry, v: Volume, name: Name)
    requires Sound(g, v) && CanCreate(g, v, name)
    ensures Sound(g, Created(g, v, name).vol)
    ensures OpenForWriting(g, Created(g, v, name), FirstUnused(v.dir))
  {
    hide SectorOf, Owns, ChainAt, DirectoryOk;
    var v', u, n := Created(g, v, name).vol, FirstUnused(v.dir), LeastFree(v.fat, FIRST_CLUSTER);
    CreatedSlots(g, v, name);
    CreatedChains(g, v, name);
    TakenKeepsFiles(g, v);
    assert Elements([n]) == {n};
  }

  lemma CreatedBytes(g: Geometry, v: Volume, name: Name, j: nat)
    requires Sound(g, v) && CanCreate(g, v, name) && FileAt(v.dir, j)
    ensures Sound(g, Created(g, v, name).vol) && FileAt(Created(g, v, name).vol.dir, j)
    ensures FileBytes(g, Created(g, v, name).vol, j) == FileBytes(g, v, j)
  {
    hide ClusterIndex, SectorIndex, SectorOf, ChainAt;
    CreatedSound(g, v, name);
    CreatedSlots(g, v, name);
    CreatedChains(g, v, name);
    assert Owns(g, v, j);
  }

  lemma CreatedLeakless(g: Geometry, v: Volume, name: Name)
    requires Sound(g, v) && CanCreate(g, v, name) && Leakless(g, v)
    ensures Leakless(g, Created(g, v, name).vol)
  {
    hide ClusterIndex, SectorIndex, SectorOf, ChainAt;
    var v', n := Created(g, v, name).vol, LeastFree(v.fat, FIRST_CLUSTER);
    CreatedSlots(g, v, name);
    CreatedChains(g, v, name);
    forall c | FIRST_CLUSTER <= c < g.limit && v'.fat[c] != CLUSTER_FREE ensures InSomeFile(g, v', c) {
      if c == n {
        assert c in ChainAt(g, v', FirstUnused(v.dir));
      } else {
        assert InSomeFile(g, v, c);
        var j :| FileAt(v.dir, j) && c in ChainAt(g, v, j);
        assert c in ChainAt(g, v', j);
      }
    }
  }

  /** Creating a file adds an empty one, open for writing, and keeps every other file. */
  lemma CreateKeeps(g: Geometry, v: Volume, name: Name)
    requires Sound(g, v) && CanCreate(g, v, name)
    ensures !FileAt(v.dir, FirstUnused(v.dir))
    ensures var st, u := Created(g, v, name), FirstUnused(v.dir);
            && OpenForWriting(g, st, u) && Written(g, st, u) == [] && FileBytes(g, st.vol, u) == []
            && (forall j :: FileAt(st.vol.dir, j) <==> j == u || FileAt(v.dir, j))
            && (forall j :: FileAt(v.dir, j) ==> FileBytes(g, st.vol, j) == FileBytes(g, v, j))
            && (forall j :: FileAt(v.dir, j) ==> st.vol.dir[j] == v.dir[j])
            && (Leakless(g, v) ==> Leakless(g, st.vol))
  {
    hide ClusterIndex, SectorIndex, SectorOf, Owns, ChainAt, Leakless, DirectoryOk, Sound, OpenForWriting;
    CreatedSlots(g, v, name);
    CreatedSound(g, v, name);
    forall j | FileAt(v.dir, j) ensures FileBytes(g, Created(g, v, name).vol, j) == FileBytes(g, v, j) {
      CreatedBytes(g, v, name, j);
    }
    if Leakless(g, v) {
      CreatedLeakless(g, v, name);
    }
  }

  /** The volume after a file is opened for writing, whatever comes of it. */
  function AfterCreate(g: Geometry, v: Volume, name: Name): (v': Volume)
    requires Fits(g, v) && (Lookup(v.dir, name).None? ==> FirstUnused(v.dir) < |v.dir|)
    requires LeastFree(v.fat, FIRST_CLUSTER) < SearchLimit(g) || LeastFree(v.fat, FIRST_CLUSTER) == |v.fat|
    ensures Fits(g, v')
  {
    if Lookup(v.dir, name).Some? || LeastFree(v.fat, FIRST_CLUSTER) == |v.fat| then v
    else if DOT !in name then Taken(g, v)
    else Created(g, v, name).vol
  }

  /** The taken cluster is on the new file's chain if and only if the new slot reads as a file. */
  lemma CreatedLeakExact(g: Geometry, v: Volume, name: Name)
    requires Sound(g, v) && Leakless(g, v) && DOT in name && 0 !in name
    requires LeastFree(v.fat, FIRST_CLUSTER) < SearchLimit(g) && FirstUnused(v.dir) < |v.dir|
    ensures Fits(g, Created(g, v, name).vol)
    ensures Leakless(g, Created(g, v, name).vol) <==> name[0] != FREE_MARK
  {
    hide ClusterIndex, SectorIndex, SectorOf, ChainAt, Lookup;
    var v', n, u := Created(g, v, name).vol, LeastFree(v.fat, FIRST_CLUSTER), FirstUnused(v.dir);
    NewSlotIsLive(name, n);
    TakenKeepsFiles(g, v);
    forall j | FileAt(v.dir, j) ensures j != u && FileAt(v'.dir, j) && ChainAt(g, v', j) == ChainAt(g, v, j) {
      FileFrame(g, v, v', j);
    }
    if name[0] == FREE_MARK {
      assert !InSomeFile(g, v', n);
    } else {
      ChainStart(v.fat, g.limit, n);
      forall c | FIRST_CLUSTER <= c < g.limit && v'.fat[c] != CLUSTER_FREE ensures InSomeFile(g, v', c) {
        if c == n {
          NewChain(g, v', u, n);
        } else {
          assert InSomeFile(g, v, c);
        }
      }
    }
  }

  lemma NewChain(g: Geometry, v: Volume, u: nat, n: nat)
    requires Fits(g, v) && u < |v.dir| && StartOf(v.dir[u]) == n && ChainFrom(v.fat, g.limit, n, g.limit) == [n]
    ensures n in ChainAt(g, v, u)
  {
  }

  /** Opening a file for writing loses no cluster if and only if it fails before it takes one, or its
      name has a dot and does not start with the mark of a free slot. */
  lemma CreateLeakExact(g: Geometry, v: Volume, name: Name)
    requires Sound(g, v) && Leakless(g, v) && 0 !in name
    requires LeastFree(v.fat, FIRST_CLUSTER) < SearchLimit(g) || LeastFree(v.fat, FIRST_CLUSTER) == |v.fat|
    ensures FirstUnused(v.dir) < |v.dir|
    ensures Leakless(g, AfterCreate(g, v, name)) <==>
              || Lookup(v.dir, name).Some? || LeastFree(v.fat, FIRST_CLUSTER) == |v.fat|
              || (DOT in name && name[0] != FREE_MARK)
  {
    hide Leakless, Created, Taken;
    if Lookup(v.dir, name).None? && LeastFree(v.fat, FIRST_CLUSTER) < |v.fat| {
      if DOT in name {
        CreatedLeakExact(g, v, name);
      } else {
        TakenLeaks(g, v);
      }
    }
  }

  /** Such a name: storable, created without an error, and lost with its cluster. */
  lemma MarkedNameLeaks(g: Geometry, v: Volume)
    requires Sound(g, v) && Leakless(g, v) && LeastFree(v.fat, FIRST_CLUSTER) < SearchLimit(g)
    ensures var name := [FREE_MARK, DOT];
            && Valid83(name) && FirstUnused(v.dir) < |v.dir|
            && Lookup(v.dir, name) == None && !Leakless(g, AfterCreate(g, v, name))
            && Lookup(AfterCreate(g, v, name).dir, name) == None
  {
    var name := [FREE_MARK, DOT];
    NoMarkedFile(v.dir, name, 0);
    CreateLeakExact(g, v, name);
    NoMarkedFile(AfterCreate(g, v, name).dir, name, 0);
  }

  lemma UnpackStarts(s: Slot)
    requires !IsFree(s)
    ensures NameOf(s) != [FREE_MARK, DOT]
  {
    var base, ext := UpTo(s[..BASE_MAX], SPACE), UpTo(s[BASE_MAX..RAW_BYTES], SPACE);
    var dotted := base + [DOT] + ext;
    assert dotted[0] == if base == [] then DOT else s[0];
  }

  /** No file is found under a name that starts with the free mark. */
  lemma {:induction false} NoMarkedFile(dir: seq<Slot>, name: Name, k: nat)
    requires k <= |dir| && name == [FREE_MARK, DOT]
    ensures LookupFrom(dir, name, k) == None
    decreases |dir| - k
  {
    if k < |dir| {
      if !IsFree(dir[k]) {
        UnpackStarts(dir[k]);
      }
      NoMarkedFile(dir, name, k + 1);
    }
  }

  // ----- Closing -----

  /** The size recorded in the slot of the open file. */
  function Closed(g: Geometry, st: State, k: nat): State
    requires k < |st.vol.dir| && st.file.size < 0x1_0000_0000
  {
    st.(vol := st.vol.(dir := st.vol.dir[k := Resized(st.vol.dir[k], st.file.size)]))
  }

  lemma ClosedSound(g: Geometry, st: State, k: nat)
    requires OpenForWriting(g, st, k)
    ensures st.file.size < 0x1_0000_0000
    ensures var v' := Closed(g, st, k).vol;
            && Sound(g, v') && OpenForWriting(g, Closed(g, st, k), k)
            && (forall j :: FileAt(v'.dir, j) <==> FileAt(st.vol.dir, j))
            && (forall j :: FileAt(v'.dir, j) ==> NameOf(v'.dir[j]) == NameOf(st.vol.dir[j]))
            && (forall j :: FileAt(v'.dir, j) ==> ChainAt(g, v', j) == ChainAt(g, st.vol, j))
  {
    hide ClusterIndex, SectorIndex, SectorOf, NameOf, DirectoryOk, Resized, IsFile, SizeOf, StartOf, IsChain;
    ClustersOwned(g, st, k);
    ResizeKeepsDirectory(st.vol.dir, k, st.file.size);
    WrittenFits(g, st, k);
    var v' := Closed(g, st, k).vol;
    forall j | FileAt(v'.dir, j) ensures Owns(g, v', j) && ChainAt(g, v', j) == ChainAt(g, st.vol, j) {
      assert FileAt(st.vol.dir, j) && Owns(g, st.vol, j);
    }
    assert Sound(g, v');
  }

  /** The bytes of file `j` on a volume that differs only in recorded sizes. */
  lemma BytesResized(g: Geometry, v: Volume, v': Volume, j: nat, n: nat)
    requires Sound(g, v) && Sound(g, v') && FileAt(v.dir, j) && FileAt(v'.dir, j)
    requires v'.fat == v.fat && v'.data == v.data && StartOf(v'.dir[j]) == StartOf(v.dir[j]) && SizeOf(v'.dir[j]) == n
    ensures OnDisk(g, ChainAt(g, v, j)) && Holds(g, ChainAt(g, v, j), n)
    ensures FileBytes(g, v', j) == Contents(g, v.data, ChainAt(g, v, j), n)
  {
    hide ClusterIndex, SectorIndex, SectorOf, IsFile, DirectoryOk, NameOf;
    assert Owns(g, v, j) && Owns(g, v', j);
  }

  lemma WrittenContents(g: Geometry, st: State, k: nat)
    requires OpenForWriting(g, st, k)
    ensures OnDisk(g, ChainAt(g, st.vol, k)) && Holds(g, ChainAt(g, st.vol, k), st.file.size)
    ensures Written(g, st, k) == Contents(g, st.vol.data, ChainAt(g, st.vol, k), st.file.size)
  {
    hide ClusterIndex, SectorIndex, SectorOf, IsFile, DirectoryOk, NameOf;
    assert Owns(g, st.vol, k);
    WrittenFits(g, st, k);
  }

  /** Closing records exactly what was written and keeps every other file. */
  lemma CloseKeeps(g: Geometry, st: State, k: nat)
    requires OpenForWriting(g, st, k)
    ensures st.file.size < 0x1_0000_0000
    ensures var v' := Closed(g, st, k).vol;
            && Sound(g, v')
            && (forall j :: FileAt(v'.dir, j) <==> FileAt(st.vol.dir, j))
            && (forall j :: FileAt(v'.dir, j) ==> NameOf(v'.dir[j]) == NameOf(st.vol.dir[j]))
            && FileBytes(g, v', k) == Written(g, st, k)
            && (forall j :: FileAt(v'.dir, j) && j != k ==> FileBytes(g, v', j) == FileBytes(g, st.vol, j))
            && (Leakless(g, st.vol) ==> Leakless(g, v'))
  {
    hide ClusterIndex, SectorIndex, SectorOf, ChainAt, IsFile, DirectoryOk, FileBytes, Written, IsChain, NameOf, Owns, Resized;
    ClosedSound(g, st, k);
    var v' := Closed(g, st, k).vol;
    forall j | FileAt(st.vol.dir, j)
      ensures FileBytes(g, v', j) == if j == k then Written(g, st, k) else FileBytes(g, st.vol, j)
    {
      BytesResized(g, st.vol, v', j, if j == k then st.file.size else SizeOf(st.vol.dir[j]));
      BytesResized(g, st.vol, st.vol, j, SizeOf(st.vol.dir[j]));
      WrittenContents(g, st, k);
    }
    if Leakless(g, st.vol) {
      forall c | FIRST_CLUSTER <= c < g.limit && v'.fat[c] != CLUSTER_FREE ensures InSomeFile(g, v', c) {
        assert InSomeFile(g, st.vol, c);
        var j :| FileAt(st.vol.dir, j) && c in ChainAt(g, st.vol, j);
        assert FileAt(v'.dir, j);
      }
    }
  }

  // ----- Deleting -----

  /** The table with the entries of a chain made free. */
  function Released(fat: seq<Word>, ch: seq<nat>): (r: seq<Word>)
    ensures |r| == |fat|
    ensures forall c :: 0 <= c < |fat| ==> r[c] == if c in ch then CLUSTER_FREE else fat[c]
  {
    seq(|fat|, c requires 0 <= c < |fat| => if c in ch then CLUSTER_FREE else fat[c])
  }

  function Deleted(g: Geometry, v: Volume, k: nat): Volume
    requires Fits(g, v) && FileAt(v.dir, k)
  {
    v.(fat := Released(v.fat, ChainAt(g, v, k)), dir := v.dir[k := Freed(v.dir[k])])
  }

  lemma DeletedOthers(g: Geometry, v: Volume, k: nat, j: nat)
    requires Sound(g, v) && FileAt(v.dir, k) && FileAt(v.dir, j) && j != k
    ensures var v' := Deleted(g, v, k);
            ChainAt(g, v', j) == ChainAt(g, v, j) && Owns(g, v', j)
  {
    hide ClusterIndex, SectorIndex, SectorOf;
    assert Owns(g, v, j) && Owns(g, v, k);
    assert Elements(ChainAt(g, v, j)) !! Elements(ChainAt(g, v, k));
    forall c | c in ChainAt(g, v, j) ensures c < |v.fat| && c !in ChainAt(g, v, k) {
      assert c in Elements(ChainAt(g, v, j)) && c !in Elements(ChainAt(g, v, k));
    }
    FileFrame(g, v, Deleted(g, v, k), j);
  }

  /** Deleting a file frees exactly its own chain and keeps every other file. */
  lemma DeleteKeeps(g: Geometry, v: Volume, k: nat)
    requires Sound(g, v) && FileAt(v.dir, k)
    ensures var v' := Deleted(g, v, k);
            && Sound(g, v')
            && (forall j :: FileAt(v'.dir, j) <==> FileAt(v.dir, j) && j != k)
            && (forall j :: FileAt(v'.dir, j) ==> v'.dir[j] == v.dir[j] && ChainAt(g, v', j) == ChainAt(g, v, j))
            && (forall j :: FileAt(v'.dir, j) ==> FileBytes(g, v', j) == FileBytes(g, v, j))
            && (Leakless(g, v) ==> Leakless(g, v'))
  {
    hide ClusterIndex, SectorIndex, SectorOf, ChainAt, DirectoryOk;
    var v' := Deleted(g, v, k);
    RemoveKeepsDirectory(v.dir, k);
    forall j | FileAt(v'.dir, j) ensures Owns(g, v', j) && ChainAt(g, v', j) == ChainAt(g, v, j) {
      DeletedOthers(g, v, k, j);
    }
    assert Sound(g, v');
    if Leakless(g, v) {
      forall c | FIRST_CLUSTER <= c < g.limit && v'.fat[c] != CLUSTER_FREE ensures InSomeFile(g, v', c) {
        assert InSomeFile(g, v, c);
        var j :| FileAt(v.dir, j) && c in ChainAt(g, v, j);
        assert FileAt(v'.dir, j);
      }
    }
  }

  /** Everything on a new file's chain was free before it was created; the rest of the table is as it was. */
  lemma NewChainWasFree(g: Geometry, v: Volume, name: Name, bs: seq<Byte>, c: nat)
    requires Sound(g, v) && CanCreate(g, v, name) && c < |v.fat|
    requires CanWrite(g, Created(g, v, name), |bs|)
    ensures var k, st := FirstUnused(v.dir), WriteBytes(g, Created(g, v, name), bs);
            && OpenForWriting(g, st, k)
            && v.fat[c] == if c in ChainAt(g, st.vol, k) then CLUSTER_FREE else st.vol.fat[c]
  {
    hide ClusterIndex, SectorIndex, SectorOf, ChainAt, Sound, CanWrite, Written, FileBytes, Leakless, WriteBytes, OpenForWriting, Owns;
    var k, n, st0 := FirstUnused(v.dir), LeastFree(v.fat, FIRST_CLUSTER), Created(g, v, name);
    CreatedSound(g, v, name);
    CreatedChains(g, v, name);
    WriteKeeps(g, st0, bs, k);
    assert n in ChainAt(g, st0.vol, k);
  }

  lemma ReleaseRestores(g: Geometry, fat: seq<Word>, st: State, k: nat)
    requires OpenForWriting(g, st, k) && |fat| == |st.vol.fat|
    requires forall c :: 0 <= c < |fat| ==>
               fat[c] == if c in ChainAt(g, st.vol, k) then CLUSTER_FREE else st.vol.fat[c]
    ensures st.file.size < 0x1_0000_0000 && FileAt(Closed(g, st, k).vol.dir, k)
    ensures Deleted(g, Closed(g, st, k).vol, k).fat == fat
  {
    hide ClusterIndex, SectorIndex, SectorOf, ChainAt, Resized, IsFile, DirectoryOk;
    ClosedSound(g, st, k);
    assert Released(st.vol.fat, ChainAt(g, st.vol, k)) == fat;
  }

  /** Creating, writing, closing and deleting a file restores the allocation table. */
  lemma DeleteRestoresTable(g: Geometry, v: Volume, name: Name, bs: seq<Byte>)
    requires Sound(g, v) && CanCreate(g, v, name)
    requires CanWrite(g, Created(g, v, name), |bs|)
    ensures var k, st := FirstUnused(v.dir), WriteBytes(g, Created(g, v, name), bs);
            && OpenForWriting(g, st, k) && st.file.size < 0x1_0000_0000
            && FileAt(Closed(g, st, k).vol.dir, k)
            && Deleted(g, Closed(g, st, k).vol, k).fat == v.fat
  {
    hide ClusterIndex, SectorIndex, SectorOf, ChainAt, CanWrite, Resized, WriteBytes, Deleted, Closed, Created;
    var k, st := FirstUnused(v.dir), WriteBytes(g, Created(g, v, name), bs);
    forall c | 0 <= c < |v.fat|
      ensures OpenForWriting(g, st, k)
      ensures v.fat[c] == if c in ChainAt(g, st.vol, k) then CLUSTER_FREE else st.vol.fat[c]
    {
      NewChainWasFree(g, v, name, bs, c);
    }
    NewChainWasFree(g, v, name, bs, 0);
    ReleaseRestores(g, v.fat, st, k);
  }

  // ----- Conservation -----

  ghost function FreeClusters(g: Geometry, v: Volume): set<nat>
    requires Fits(g, v)
  {
    set c: nat | FIRST_CLUSTER <= c < g.limit && v.fat[c] == CLUSTER_FREE
  }

  ghost function FileClusters(g: Geometry, v: Volume): set<nat>
    requires Fits(g, v)
  {
    set c: nat | FIRST_CLUSTER <= c < g.limit && InSomeFile(g, v, c)
  }

  /** Clusters are conserved: each is free or on exactly one file's chain. */
  lemma ClustersConserved(g: Geometry, v: Volume)
    requires Sound(g, v) && Leakless(g, v)
    ensures |FreeClusters(g, v)| + |FileClusters(g, v)| == g.limit - FIRST_CLUSTER
  {
    var all := Below(g.limit) - Below(FIRST_CLUSTER);
    assert Below(g.limit) == all + Below(FIRST_CLUSTER);
    forall c: nat | FIRST_CLUSTER <= c < g.limit
      ensures c in FreeClusters(g, v) <==> c !in FileClusters(g, v)
    {
      InUseExactly(g, v, c);
    }
    assert FreeClusters(g, v) + FileClusters(g, v) == all;
    assert FreeClusters(g, v) !! FileClusters(g, v);
  }
}
