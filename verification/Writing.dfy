/** Appending to the open file: the sector-sized step of the driver and its byte-by-byte meaning. */
module Writing {
  import opened Bytes
  import opened Volumes
  import opened Positions
  import opened Names
  import opened Chains
  import opened Directory
  import opened Files

  const FMODE_READ: Byte := 1
  const FMODE_WRITE: Byte := 2

  /** The open file. `fpos` counts bytes; the position itself is (current, sector, offset). */
  datatype Descriptor = Descriptor(name: Name, mode: Byte, size: nat, fpos: nat,
                                   start: Word, current: Word, sector: nat, offset: nat)

  datatype State = State(vol: Volume, file: Descriptor)

  /** The search for a free cluster is exact below this cluster number. */
  function SearchLimit(g: Geometry): nat
    requires g.Valid()
  {
    if g.limit < ENTRIES_PER_SECTOR then g.limit else ENTRIES_PER_SECTOR
  }

  /** The position is inside the last cluster of a chain. */
  predicate Ready(g: Geometry, st: State) {
    && Fits(g, st.vol)
    && FIRST_CLUSTER <= st.file.current < g.limit
    && st.vol.fat[st.file.current] == CLUSTER_EOF
    && st.file.sector < g.spc && st.file.offset < SECTOR_BYTES
  }

  /** Bytes of the last cluster that lie before the position. */
  function Used(file: Descriptor): nat {
    file.sector * SECTOR_BYTES + file.offset
  }

  /** Appending `n` bytes finds enough free clusters. */
  predicate CanWrite(g: Geometry, st: State, n: nat) {
    Ready(g, st) && ClusterIndex(g, Used(st.file) + n) <= FreeBelow(st.vol.fat, SearchLimit(g))
  }

  /** The data sector under the position. */
  function CurrentSector(g: Geometry, st: State): (s: nat)
    requires Ready(g, st)
    ensures s == SectorOf(g, st.file.current, st.file.sector) < |st.vol.data|
  {
    SectorInData(g, st.file.current, st.file.sector);
    StartSector(g, st.file.current) + st.file.sector
  }

  /** Bytes copied into the sector under the position. */
  function Store(g: Geometry, st: State, bs: seq<Byte>): State
    requires Ready(g, st) && st.file.offset + |bs| <= SECTOR_BYTES
  {
    var s := CurrentSector(g, st);
    State(st.vol.(data := st.vol.data[s := Overwrite(st.vol.data[s], st.file.offset, bs)]),
          st.file.(fpos := st.file.fpos + |bs|, size := st.file.size + |bs|, offset := st.file.offset + |bs|))
  }

  predicate AtClusterEnd(g: Geometry, file: Descriptor) {
    file.offset == SECTOR_BYTES && file.sector + 1 == g.spc
  }

  /** A full sector moves the position on, taking the least free cluster after the last sector. */
  function Advance(g: Geometry, st: State): State
    requires Fits(g, st.vol) && st.file.current < g.limit
    requires AtClusterEnd(g, st.file) ==> LeastFree(st.vol.fat, FIRST_CLUSTER) < g.limit
  {
    if st.file.offset != SECTOR_BYTES then st
    else if st.file.sector + 1 != g.spc then st.(file := st.file.(offset := 0, sector := st.file.sector + 1))
    else
      var n := LeastFree(st.vol.fat, FIRST_CLUSTER);
      State(st.vol.(fat := st.vol.fat[st.file.current := n][n := CLUSTER_EOF]),
            st.file.(offset := 0, sector := 0, current := n))
  }

  lemma RoomToAdvance(g: Geometry, st: State, n: nat)
    requires CanWrite(g, st, n) && st.file.offset + n <= SECTOR_BYTES
    ensures st.file.offset + n == SECTOR_BYTES && st.file.sector + 1 == g.spc ==>
              LeastFree(st.vol.fat, FIRST_CLUSTER) < SearchLimit(g)
  {
    if st.file.offset + n == SECTOR_BYTES && st.file.sector + 1 == g.spc {
      ClusterShift(g, 0);
      assert Used(st.file) + n == ClusterBytes(g) + 0;
      FreeExists(st.vol.fat, SearchLimit(g));
    }
  }

  /** One call of the sector write: at most the rest of the sector. */
  function PutChunk(g: Geometry, st: State, bs: seq<Byte>): State
    requires CanWrite(g, st, |bs|) && st.file.offset + |bs| <= SECTOR_BYTES
  {
    RoomToAdvance(g, st, |bs|);
    Advance(g, Store(g, st, bs))
  }

  function PutByte(g: Geometry, st: State, b: Byte): State
    requires CanWrite(g, st, 1)
  {
    PutChunk(g, st, [b])
  }

  /** Room for `n` bytes is room for one and then for the others. */
  lemma RoomForNext(g: Geometry, st: State, b: Byte, n: nat)
    requires CanWrite(g, st, n) && 0 < n
    ensures CanWrite(g, st, 1) && CanWrite(g, PutByte(g, st, b), n - 1)
  {
    hide ClusterIndex, SectorOf;
    ClusterIndexMonotone(g, Used(st.file) + 1, Used(st.file) + n);
    var st' := PutByte(g, st, b);
    if st.file.offset + 1 == SECTOR_BYTES && st.file.sector + 1 == g.spc {
      RoomToAdvance(g, st, 1);
      var fat, c, m := st.vol.fat, st.file.current, LeastFree(st.vol.fat, FIRST_CLUSTER);
      FreeUpdate(fat, SearchLimit(g), c, m);
      FreeUpdate(fat[c := m], SearchLimit(g), m, CLUSTER_EOF);
      assert Used(st.file) + n == ClusterBytes(g) + (n - 1);
      ClusterShift(g, n - 1);
      assert st'.vol.fat[m] == CLUSTER_EOF;
    }
  }

  /** A byte can be written exactly where it does not complete a cluster, or there is a free cluster that the
      search finds. */
  lemma RoomForOne(g: Geometry, st: State)
    requires Ready(g, st)
    ensures CanWrite(g, st, 1) <==>
              (st.file.offset + 1 == SECTOR_BYTES && st.file.sector + 1 == g.spc ==>
                 LeastFree(st.vol.fat, FIRST_CLUSTER) < SearchLimit(g))
  {
    var used := Used(st.file) + 1;
    FreeExists(st.vol.fat, SearchLimit(g));
    if st.file.offset + 1 == SECTOR_BYTES && st.file.sector + 1 == g.spc {
      assert used == ClusterBytes(g) + 0;
      ClusterShift(g, 0);
      PositionJoin(g, 0, 0, 0);
    } else if st.file.offset + 1 == SECTOR_BYTES {
      PositionJoin(g, 0, st.file.sector + 1, 0);
    } else {
      PositionJoin(g, 0, st.file.sector, st.file.offset + 1);
    }
  }

  /** So room for more bytes is exactly room for the first and then for the others, and room for none is no
      condition: enough clusters are asked for, and no more. */
  lemma RoomExact(g: Geometry, st: State, b: Byte, n: nat)
    requires Ready(g, st)
    ensures CanWrite(g, st, 0)
    ensures 0 < n ==> (CanWrite(g, st, n) <==> CanWrite(g, st, 1) && CanWrite(g, PutByte(g, st, b), n - 1))
  {
    hide SectorOf;
    PositionJoin(g, 0, st.file.sector, st.file.offset);
    hide ClusterIndex;
    if 0 < n && CanWrite(g, st, n) {
      RoomForNext(g, st, b, n);
    } else if 0 < n && CanWrite(g, st, 1) && st.file.offset + 1 == SECTOR_BYTES && st.file.sector + 1 == g.spc {
      RoomToAdvance(g, st, 1);
      var fat, c, m := st.vol.fat, st.file.current, LeastFree(st.vol.fat, FIRST_CLUSTER);
      FreeUpdate(fat, SearchLimit(g), c, m);
      FreeUpdate(fat[c := m], SearchLimit(g), m, CLUSTER_EOF);
      assert Used(st.file) + n == ClusterBytes(g) + (n - 1);
      ClusterShift(g, n - 1);
    }
  }

  /** Appending bytes one at a time. */
  function WriteBytes(g: Geometry, st: State, bs: seq<Byte>): (r: State)
    requires CanWrite(g, st, |bs|)
    decreases |bs|
  {
    if bs == [] then st
    else
      RoomForNext(g, st, bs[0], |bs|);
      WriteBytes(g, PutByte(g, st, bs[0]), bs[1..])
  }

  /** Room for two stretches is room for the first, and then for the second; and writing them in
      two calls is writing them in one. */
  lemma {:induction false} WriteSplit(g: Geometry, st: State, a: seq<Byte>, b: seq<Byte>)
    requires CanWrite(g, st, |a| + |b|)
    ensures CanWrite(g, st, |a|) && CanWrite(g, WriteBytes(g, st, a), |b|)
    ensures WriteBytes(g, st, a + b) == WriteBytes(g, WriteBytes(g, st, a), b)
    decreases |a|
  {
    hide ClusterIndex;
    ClusterIndexMonotone(g, Used(st.file) + |a|, Used(st.file) + |a| + |b|);
    if a == [] {
      assert a + b == b;
    } else {
      RoomForNext(g, st, a[0], |a| + |b|);
      RoomForNext(g, st, a[0], |a|);
      assert (a + b)[1..] == a[1..] + b;
      WriteSplit(g, PutByte(g, st, a[0]), a[1..], b);
    }
  }

  lemma StoreSplit(g: Geometry, st: State, b: Byte, bs: seq<Byte>)
    requires Ready(g, st) && bs != [] && st.file.offset + 1 + |bs| <= SECTOR_BYTES
    ensures Store(g, st, [b] + bs) == Store(g, Store(g, st, [b]), bs)
  {
    var s := CurrentSector(g, st);
    var sector, at := st.vol.data[s], st.file.offset;
    assert Overwrite(sector, at, [b] + bs) == Overwrite(Overwrite(sector, at, [b]), at + 1, bs);
    assert Store(g, st, [b] + bs).vol.data == Store(g, Store(g, st, [b]), bs).vol.data;
  }

  lemma ChunkFromByte(g: Geometry, st: State, b: Byte, bs: seq<Byte>)
    requires CanWrite(g, st, 1 + |bs|) && st.file.offset + 1 + |bs| <= SECTOR_BYTES
    requires CanWrite(g, st, 1) && CanWrite(g, PutByte(g, st, b), |bs|)
    ensures bs != [] ==> st.file.offset + 1 < SECTOR_BYTES
    ensures PutByte(g, st, b).file.offset + |bs| <= SECTOR_BYTES
    ensures PutChunk(g, st, [b] + bs) == PutChunk(g, PutByte(g, st, b), bs)
  {
    hide ClusterIndex, SectorOf;
    if bs == [] {
      EmptyChunk(g, PutByte(g, st, b));
      assert [b] + bs == [b];
    } else {
      StoreSplit(g, st, b, bs);
    }
  }

  lemma EmptyChunk(g: Geometry, st: State)
    requires CanWrite(g, st, 0)
    ensures PutChunk(g, st, []) == st
  {
    var s := CurrentSector(g, st);
    assert Overwrite(st.vol.data[s], st.file.offset, []) == st.vol.data[s];
    assert st.vol.data[s := st.vol.data[s]] == st.vol.data;
  }

  /** A sector-sized step is its bytes written one at a time. */
  lemma {:induction false} ChunkIsBytes(g: Geometry, st: State, bs: seq<Byte>)
    requires CanWrite(g, st, |bs|) && st.file.offset + |bs| <= SECTOR_BYTES
    ensures PutChunk(g, st, bs) == WriteBytes(g, st, bs)
    decreases |bs|
  {
    hide ClusterIndex, SectorOf;
    if bs == [] {
      EmptyChunk(g, st);
    } else {
      RoomForNext(g, st, bs[0], |bs|);
      var st', rest := PutByte(g, st, bs[0]), bs[1..];
      ChunkFromByte(g, st, bs[0], rest);
      assert bs == [bs[0]] + rest;
      ChunkIsBytes(g, st', rest);
    }
  }
}
