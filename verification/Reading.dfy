/** Reading from the open file: one byte at a time, and what any number of bytes amounts to. */
module Reading {
  import opened Bytes
  import opened Volumes
  import opened Positions
  import opened Names
  import opened Chains
  import opened Directory
  import opened Files
  import opened Writing

  /** The position fields agree with `fpos` along a chain; past its last cluster they hold the end mark. */
  ghost predicate Placed(g: Geometry, ch: seq<nat>, d: Descriptor)
    requires 0 < g.spc
  {
    && ClusterIndex(g, d.fpos) <= |ch|
    && d.offset == d.fpos % SECTOR_BYTES
    && d.sector == SectorIndex(g, d.fpos)
    && d.current == if ClusterIndex(g, d.fpos) < |ch| then ch[ClusterIndex(g, d.fpos)] else CLUSTER_EOF
  }

  /** The descriptor moved to byte `p` of the file stored along `ch`. */
  ghost function Seek(g: Geometry, ch: seq<nat>, d: Descriptor, p: nat): Descriptor
    requires g.Valid() && OnDisk(g, ch)
  {
    var i := ClusterIndex(g, p);
    d.(fpos := p, offset := p % SECTOR_BYTES, sector := SectorIndex(g, p),
       current := if i < |ch| then ch[i] else CLUSTER_EOF)
  }

  /** The file in slot `k` is open for reading at `fpos`. */
  ghost predicate OpenForReading(g: Geometry, st: State, k: int) {
    && Sound(g, st.vol)
    && FileAt(st.vol.dir, k)
    && NameOf(st.vol.dir[k]) == st.file.name
    && st.file.mode == FMODE_READ
    && st.file.size == SizeOf(st.vol.dir[k])
    && st.file.fpos <= st.file.size
    && Placed(g, ChainAt(g, st.vol, k), st.file)
  }

  /** The position lies in a cluster of the disk. */
  predicate InCluster(g: Geometry, v: Volume, d: Descriptor) {
    Fits(g, v) && FIRST_CLUSTER <= d.current < g.limit && d.sector < g.spc && d.offset < SECTOR_BYTES
  }

  /** Moving on by `n` bytes that end at or before the end of the sector. */
  function Moved(g: Geometry, v: Volume, d: Descriptor, n: nat): Descriptor
    requires InCluster(g, v, d) && d.offset + n <= SECTOR_BYTES
  {
    if d.offset + n < SECTOR_BYTES then d.(fpos := d.fpos + n, offset := d.offset + n)
    else if d.sector + 1 < g.spc then d.(fpos := d.fpos + n, offset := 0, sector := d.sector + 1)
    else d.(fpos := d.fpos + n, offset := 0, sector := 0, current := v.fat[d.current])
  }

  /** The sector under the position. */
  function SectorUnder(g: Geometry, v: Volume, d: Descriptor): Sector
    requires InCluster(g, v, d)
  {
    SectorInData(g, d.current, d.sector);
    v.data[StartSector(g, d.current) + d.sector]
  }

  /** One byte and the descriptor after it; None at the end of the file. */
  function GetByte(g: Geometry, v: Volume, d: Descriptor): (Option<Byte>, Descriptor)
    requires d.fpos != d.size && d.current != CLUSTER_EOF ==> InCluster(g, v, d)
  {
    if d.fpos == d.size || d.current == CLUSTER_EOF then (None, d)
    else (Some(SectorUnder(g, v, d)[d.offset]), Moved(g, v, d, 1))
  }

  /** A placed descriptor before the end of its chain is in the chain's cluster. */
  lemma PlacedInCluster(g: Geometry, v: Volume, ch: seq<nat>, d: Descriptor)
    requires Fits(g, v) && IsChain(v.fat, g.limit, ch) && Placed(g, ch, d)
    ensures d.current == CLUSTER_EOF <==> ClusterIndex(g, d.fpos) == |ch|
    ensures d.current != CLUSTER_EOF ==> InCluster(g, v, d) && d.current == ch[ClusterIndex(g, d.fpos)]
  {
  }

  /** Positions inside one sector. */
  lemma {:induction false} PositionAhead(g: Geometry, p: nat, m: nat)
    requires 0 < g.spc && p % SECTOR_BYTES + m < SECTOR_BYTES
    ensures ClusterIndex(g, p + m) == ClusterIndex(g, p) && SectorIndex(g, p + m) == SectorIndex(g, p)
    ensures (p + m) % SECTOR_BYTES == p % SECTOR_BYTES + m
    decreases m
  {
    hide ClusterIndex, SectorIndex;
    if 0 < m {
      PositionAhead(g, p, m - 1);
      PositionStep(g, p + (m - 1));
    }
  }

  /** Moving on inside a sector, or to its end, is seeking. */
  lemma MovedIsSeek(g: Geometry, v: Volume, ch: seq<nat>, d: Descriptor, n: nat)
    requires Fits(g, v) && IsChain(v.fat, g.limit, ch) && Placed(g, ch, d) && d.current != CLUSTER_EOF
    requires InCluster(g, v, d) && d.offset + n <= SECTOR_BYTES
    ensures Moved(g, v, d, n) == Seek(g, ch, d, d.fpos + n) && Placed(g, ch, Moved(g, v, d, n))
  {
    hide ClusterIndex, SectorIndex, SectorOf;
    if 0 < n {
      PlacedInCluster(g, v, ch, d);
      assert v.fat[d.current] == Link(ch, ClusterIndex(g, d.fpos));
      hide IsChain;
      PositionAhead(g, d.fpos, n - 1);
      PositionStep(g, d.fpos + (n - 1));
    }
  }

  lemma GetByteAt(g: Geometry, v: Volume, ch: seq<nat>, d: Descriptor)
    requires Fits(g, v) && IsChain(v.fat, g.limit, ch) && Placed(g, ch, d)
    requires d.fpos < d.size && ClusterIndex(g, d.fpos) < |ch|
    ensures InCluster(g, v, d)
    ensures GetByte(g, v, d) == (Some(ByteAt(g, v.data, ch, d.fpos)), Seek(g, ch, d, d.fpos + 1))
    ensures Placed(g, ch, Seek(g, ch, d, d.fpos + 1))
  {
    hide ClusterIndex, SectorIndex;
    PlacedInCluster(g, v, ch, d);
    MovedIsSeek(g, v, ch, d, 1);
    SectorInData(g, d.current, d.sector);
  }

  /** A whole sector is the next 512 bytes of the contents. */
  lemma SectorIsSlice(g: Geometry, data: seq<Sector>, ch: seq<nat>, n: nat, p: nat)
    requires g.Valid() && OnDisk(g, ch) && Holds(g, ch, n) && |data| == g.numSectors - g.dataRegion
    requires p % SECTOR_BYTES == 0 && p + SECTOR_BYTES <= n
    ensures ClusterIndex(g, p) < |ch|
    ensures data[SectorAt(g, ch, p)] == Contents(g, data, ch, n)[p..p + SECTOR_BYTES]
  {
    hide ClusterIndex, SectorIndex, SectorOf;
    HoldsAt(g, ch, n, p);
    forall i | 0 <= i < SECTOR_BYTES
      ensures data[SectorAt(g, ch, p)][i] == Contents(g, data, ch, n)[p + i]
    {
      ContentsAt(g, data, ch, n, p + i);
      PositionWithin(g, p, i);
    }
  }

  lemma ReadingPlaced(g: Geometry, st: State, k: nat)
    requires OpenForReading(g, st, k)
    ensures IsChain(st.vol.fat, g.limit, ChainAt(g, st.vol, k))
    ensures st.file.fpos < st.file.size ==> ClusterIndex(g, st.file.fpos) < |ChainAt(g, st.vol, k)|
    ensures st.file.fpos < st.file.size ==> st.file.current != CLUSTER_EOF && InCluster(g, st.vol, st.file)
  {
    assert Owns(g, st.vol, k);
    if st.file.fpos < st.file.size {
      HoldsAt(g, ChainAt(g, st.vol, k), st.file.size, st.file.fpos);
    }
    PlacedInCluster(g, st.vol, ChainAt(g, st.vol, k), st.file);
  }

  /** Before the end of the file, a read gets the byte at `fpos` and moves one on. */
  lemma GetNext(g: Geometry, st: State, k: nat)
    requires OpenForReading(g, st, k) && st.file.fpos < st.file.size
    ensures InCluster(g, st.vol, st.file) && OnDisk(g, ChainAt(g, st.vol, k))
    ensures var (b, d) := GetByte(g, st.vol, st.file);
            && b == Some(FileBytes(g, st.vol, k)[st.file.fpos])
            && d == Seek(g, ChainAt(g, st.vol, k), st.file, st.file.fpos + 1)
            && OpenForReading(g, st.(file := d), k)
  {
    hide ClusterIndex, SectorIndex, SectorOf, DirectoryOk;
    var ch := ChainAt(g, st.vol, k);
    assert Owns(g, st.vol, k);
    ReadingPlaced(g, st, k);
    GetByteAt(g, st.vol, ch, st.file);
    ContentsAt(g, st.vol.data, ch, st.file.size, st.file.fpos);
  }

  /** The descriptor, moved on to `p` in its file. */
  lemma SoughtOpen(g: Geometry, st: State, k: nat, p: nat)
    requires OpenForReading(g, st, k) && p <= st.file.size
    requires Placed(g, ChainAt(g, st.vol, k), Seek(g, ChainAt(g, st.vol, k), st.file, p))
    ensures OpenForReading(g, st.(file := Seek(g, ChainAt(g, st.vol, k), st.file, p)), k)
  {
    hide ClusterIndex, SectorIndex, NameOf, IsFile, Sound, Placed;
  }

  lemma SectorHeld(g: Geometry, st: State, k: nat)
    requires OpenForReading(g, st, k) && st.file.offset == 0 && st.file.fpos + SECTOR_BYTES <= st.file.size
    ensures InCluster(g, st.vol, st.file) && OnDisk(g, ChainAt(g, st.vol, k))
    ensures SectorUnder(g, st.vol, st.file)
            == FileBytes(g, st.vol, k)[st.file.fpos..st.file.fpos + SECTOR_BYTES]
  {
    hide ClusterIndex, SectorIndex, SectorOf, DirectoryOk, NameOf, IsFile, ChainAt;
    assert Owns(g, st.vol, k);
    ReadingPlaced(g, st, k);
    SectorIsSlice(g, st.vol.data, ChainAt(g, st.vol, k), st.file.size, st.file.fpos);
    SectorInData(g, st.file.current, st.file.sector);
  }

  /** A sector before the end of the file is its next 512 bytes. */
  lemma GetSector(g: Geometry, st: State, k: nat)
    requires OpenForReading(g, st, k) && st.file.offset == 0 && st.file.fpos + SECTOR_BYTES <= st.file.size
    ensures st.file.current != CLUSTER_EOF && InCluster(g, st.vol, st.file) && OnDisk(g, ChainAt(g, st.vol, k))
    ensures SectorUnder(g, st.vol, st.file)
            == FileBytes(g, st.vol, k)[st.file.fpos..st.file.fpos + SECTOR_BYTES]
    ensures var d := Moved(g, st.vol, st.file, SECTOR_BYTES);
            && d == Seek(g, ChainAt(g, st.vol, k), st.file, st.file.fpos + SECTOR_BYTES)
            && OpenForReading(g, st.(file := d), k)
  {
    var ch := ChainAt(g, st.vol, k);
    ReadingPlaced(g, st, k);
    SectorHeld(g, st, k);
    hide ClusterIndex, SectorIndex, Sound, NameOf, IsFile, Moved, Seek, ChainAt, IsChain, SectorOf, FileBytes, SectorUnder;
    MovedIsSeek(g, st.vol, ch, st.file, SECTOR_BYTES);
    SoughtOpen(g, st, k, st.file.fpos + SECTOR_BYTES);
  }

  /** At most `n` bytes, one at a time, stopping at the end of the file. */
  ghost function ReadBytes(g: Geometry, st: State, k: nat, n: nat): (r: (seq<Byte>, State))
    requires OpenForReading(g, st, k)
    ensures OpenForReading(g, r.1, k) && r.1.vol == st.vol
    decreases n
  {
    ReadingPlaced(g, st, k);
    var (b, d) := GetByte(g, st.vol, st.file);
    if n == 0 || b.None? then ([], st)
    else
      GetNext(g, st, k);
      var (rest, st') := ReadBytes(g, st.(file := d), k, n - 1);
      ([b.value] + rest, st')
  }

  /** How many bytes a read of `n` delivers. */
  function Available(d: Descriptor, n: nat): nat
    requires d.fpos <= d.size
  {
    if n < d.size - d.fpos then n else d.size - d.fpos
  }

  /** Reading one byte at a time delivers the next bytes of the file, the smaller of `n` and what
      is left, and moves the position by as many. */
  lemma {:induction false} ReadBytesExact(g: Geometry, st: State, k: nat, n: nat)
    requires OpenForReading(g, st, k)
    ensures var m := Available(st.file, n);
            && st.file.fpos + m <= |FileBytes(g, st.vol, k)|
            && ReadBytes(g, st, k, n).0 == FileBytes(g, st.vol, k)[st.file.fpos..st.file.fpos + m]
            && OnDisk(g, ChainAt(g, st.vol, k))
            && ReadBytes(g, st, k, n).1.file == Seek(g, ChainAt(g, st.vol, k), st.file, st.file.fpos + m)
    decreases n
  {
    hide ClusterIndex, SectorIndex, GetByte, FileBytes, IsChain, Sound, ChainAt, Placed, Seek;
    var F, p, m := FileBytes(g, st.vol, k), st.file.fpos, Available(st.file, n);
    if 0 < n && p < st.file.size {
      GetNext(g, st, k);
      var st' := st.(file := GetByte(g, st.vol, st.file).1);
      ReadBytesExact(g, st', k, n - 1);
      SeekSeek(g, ChainAt(g, st.vol, k), st.file, p + 1, p + m);
      assert F[p..p + m] == [F[p]] + F[p + 1..p + m];
    } else {
      SeekHere(g, st, k);
    }
  }

  lemma SeekHere(g: Geometry, st: State, k: nat)
    requires OpenForReading(g, st, k)
    ensures OnDisk(g, ChainAt(g, st.vol, k))
    ensures Seek(g, ChainAt(g, st.vol, k), st.file, st.file.fpos) == st.file
    ensures st.file.fpos == st.file.size ==> GetByte(g, st.vol, st.file) == (None, st.file)
  {
    assert Owns(g, st.vol, k);
  }

  /** Two reads in a row deliver what one read of the sum delivers. */
  lemma ReadSplit(g: Geometry, st: State, k: nat, m: nat, n: nat)
    requires OpenForReading(g, st, k)
    ensures var (a, st1) := ReadBytes(g, st, k, m);
            var (b, st2) := ReadBytes(g, st1, k, n);
            ReadBytes(g, st, k, m + n) == (a + b, st2)
  {
    hide ClusterIndex, SectorIndex, ReadBytes, FileBytes, OpenForReading, Seek, Sound, FileAt, ChainAt;
    var (a, st1) := ReadBytes(g, st, k, m);
    ReadBytesExact(g, st, k, m);
    ReadBytesExact(g, st1, k, n);
    ReadBytesExact(g, st, k, m + n);
    ReadingBounds(g, st, k);
    var ch := ChainAt(g, st.vol, k);
    var F, p := FileBytes(g, st.vol, k), st.file.fpos;
    var q := p + Available(st.file, m);
    SeekSeek(g, ch, st.file, q, q);
    var r := q + Available(st1.file, n);
    SeekSeek(g, ch, st.file, q, r);
    assert F[p..r] == F[p..q] + F[q..r];
  }

  lemma SeekSeek(g: Geometry, ch: seq<nat>, d: Descriptor, p: nat, q: nat)
    requires g.Valid() && OnDisk(g, ch)
    ensures Seek(g, ch, d, p).fpos == p && Seek(g, ch, d, p).size == d.size
    ensures Seek(g, ch, Seek(g, ch, d, p), q) == Seek(g, ch, d, q)
  {
  }

  lemma ReadingBounds(g: Geometry, st: State, k: nat)
    requires OpenForReading(g, st, k)
    ensures Sound(g, st.vol) && FileAt(st.vol.dir, k)
    ensures st.file.fpos <= st.file.size == |FileBytes(g, st.vol, k)|
  {
  }

  /** A read that started at `d` with `m` bytes to deliver stands at `st` with `n` of them left. */
  ghost predicate Delivered(g: Geometry, st: State, k: nat, d: Descriptor, m: nat, n: int, bytes: seq<Byte>) {
    && OpenForReading(g, st, k)
    && 0 <= n <= m && d.fpos + m <= d.size == st.file.size
    && st.file.fpos == d.fpos + (m - n)
    && bytes == FileBytes(g, st.vol, k)[d.fpos..st.file.fpos]
    && OnDisk(g, ChainAt(g, st.vol, k))
    && st.file == Seek(g, ChainAt(g, st.vol, k), d, st.file.fpos)
  }

  lemma DeliverNothing(g: Geometry, st: State, k: nat, n: nat)
    requires OpenForReading(g, st, k)
    ensures st.file.fpos <= st.file.size
    ensures Fits(g, st.vol) && k < |st.vol.dir| && IsChain(st.vol.fat, g.limit, ChainAt(g, st.vol, k))
    ensures Placed(g, ChainAt(g, st.vol, k), st.file)
    ensures st.file.fpos < st.file.size ==> st.file.current != CLUSTER_EOF
    ensures Delivered(g, st, k, st.file, Available(st.file, n), Available(st.file, n), [])
  {
    hide ClusterIndex, SectorIndex, FileBytes;
    SeekHere(g, st, k);
    ReadingPlaced(g, st, k);
  }

  lemma DeliverByte(g: Geometry, st: State, k: nat, d: Descriptor, m: nat, n: int, bytes: seq<Byte>)
    requires Delivered(g, st, k, d, m, n, bytes) && 0 < n
    ensures InCluster(g, st.vol, st.file)
    ensures var (b, d') := GetByte(g, st.vol, st.file);
            b.Some? && Delivered(g, st.(file := d'), k, d, m, n - 1, bytes + [b.value])
  {
    hide ClusterIndex, SectorIndex, FileBytes, GetByte, Sound, ChainAt, Placed, Seek;
    GetNext(g, st, k);
    SeekSeek(g, ChainAt(g, st.vol, k), d, st.file.fpos, st.file.fpos + 1);
    SeekSeek(g, ChainAt(g, st.vol, k), d, st.file.fpos + 1, 0);
    var F, p, q := FileBytes(g, st.vol, k), d.fpos, st.file.fpos;
    assert F[p..q + 1] == F[p..q] + [F[q]];
  }

  lemma DeliverSector(g: Geometry, st: State, k: nat, d: Descriptor, m: nat, n: int, bytes: seq<Byte>)
    requires Delivered(g, st, k, d, m, n, bytes) && SECTOR_BYTES <= n && st.file.offset == 0
    ensures st.file.current != CLUSTER_EOF && InCluster(g, st.vol, st.file)
    ensures Delivered(g, st.(file := Moved(g, st.vol, st.file, SECTOR_BYTES)), k, d, m, n - SECTOR_BYTES,
                      bytes + SectorUnder(g, st.vol, st.file))
  {
    hide ClusterIndex, SectorIndex, FileBytes, SectorUnder, Sound, ChainAt, Placed, Seek, Moved;
    GetSector(g, st, k);
    SeekSeek(g, ChainAt(g, st.vol, k), d, st.file.fpos, st.file.fpos + SECTOR_BYTES);
    SeekSeek(g, ChainAt(g, st.vol, k), d, st.file.fpos + SECTOR_BYTES, 0);
    var F, p, q := FileBytes(g, st.vol, k), d.fpos, st.file.fpos;
    assert F[p..q + SECTOR_BYTES] == F[p..q] + F[q..q + SECTOR_BYTES];
  }

  /** A read of `n` bytes delivers as many as it should: all but a request for none in mid-sector. */
  predicate ReadExact(d: Descriptor, n: nat) {
    0 < n || d.offset == 0 || d.fpos == d.size
  }

  /** What a read that started at `st0` keeps: the volume, and a position on the chain. Either the
      bytes so far are the next ones of the file with `n` left, or something was read against a
      request for nothing. */
  ghost predicate Underway(g: Geometry, st0: State, st: State, k: nat, m: nat, n: int, bytes: seq<Byte>, exact: bool) {
    && st.vol == st0.vol && st.file.size == st0.file.size
    && Fits(g, st.vol) && k < |st.vol.dir|
    && IsChain(st.vol.fat, g.limit, ChainAt(g, st.vol, k))
    && Placed(g, ChainAt(g, st.vol, k), st.file)
    && if exact then Delivered(g, st, k, st0.file, m, n, bytes) else StartsWith(g, st0, bytes)
  }

  /** At least the byte at the position was delivered. */
  ghost predicate StartsWith(g: Geometry, st0: State, bytes: seq<Byte>) {
    InCluster(g, st0.vol, st0.file) && bytes != [] && GetByte(g, st0.vol, st0.file).0 == Some(bytes[0])
  }

  lemma StartsSomehow(g: Geometry, st0: State, bytes: seq<Byte>)
    requires StartsWith(g, st0, bytes)
    ensures bytes != []
  {
  }

  /** A read of 0 bytes inside a sector and before the end of the file delivers at least the file's byte at the position. */
  lemma NothingAsked(g: Geometry, st: State, k: nat, bytes: seq<Byte>)
    requires OpenForReading(g, st, k) && st.file.offset != 0 && st.file.fpos < st.file.size
    ensures !ReadExact(st.file, 0) && Available(st.file, 0) == 0
    ensures StartsWith(g, st, bytes) <==> bytes != [] && bytes[0] == FileBytes(g, st.vol, k)[st.file.fpos]
  {
    hide ClusterIndex, SectorIndex, FileBytes, Sound, ChainAt, Placed, Seek;
    GetNext(g, st, k);
  }

  lemma UnderwayStart(g: Geometry, st: State, k: nat, n: nat)
    requires OpenForReading(g, st, k)
    ensures st.file.fpos <= st.file.size && st.file.offset < SECTOR_BYTES
    ensures ReadExact(st.file, n) ==>
              Underway(g, st, st, k, Available(st.file, n), Available(st.file, n), [], true)
    ensures !ReadExact(st.file, n) ==> n == 0 && st.file.fpos < st.file.size && InCluster(g, st.vol, st.file)
    ensures !ReadExact(st.file, n) ==>
              var (b, d) := GetByte(g, st.vol, st.file);
              b.Some? && Underway(g, st, st.(file := d), k, 0, 0, [b.value], false)
              && d.offset == (st.file.offset + 1) % SECTOR_BYTES
  {
    hide ClusterIndex, SectorIndex, FileBytes, Sound, Delivered;
    ReadingPlaced(g, st, k);
    DeliverNothing(g, st, k, n);
    StaysPlaced(g, st.vol, ChainAt(g, st.vol, k), st.file);
  }

  lemma Recount(g: Geometry, st0: State, st: State, k: nat, m: nat, n: int, m': nat, n': int, bytes: seq<Byte>)
    requires Underway(g, st0, st, k, m, n, bytes, false)
    ensures Underway(g, st0, st, k, m', n', bytes, false)
  {
  }

  /** A byte taken during a read: none only when nothing was owed. */
  lemma UnderwayByte(g: Geometry, st0: State, st: State, k: nat, m: nat, n: int, bytes: seq<Byte>, exact: bool)
    requires Underway(g, st0, st, k, m, n, bytes, exact)
    ensures st.file.current != CLUSTER_EOF ==> InCluster(g, st.vol, st.file)
    ensures var (b, d) := GetByte(g, st.vol, st.file);
            && (exact && 0 < n ==> b.Some?)
            && (exact && n == 0 && st.file.fpos == st.file.size ==> b.None?)
            && if b.None? then d == st.file else
               && d.offset == (st.file.offset + 1) % SECTOR_BYTES
               && (!exact || 0 < n ==> Underway(g, st0, st.(file := d), k, m, n - 1, bytes + [b.value], exact))
  {
    hide ClusterIndex, SectorIndex, FileBytes, Sound, Delivered, IsChain, ChainAt, Placed;
    StaysPlaced(g, st.vol, ChainAt(g, st.vol, k), st.file);
    if exact && 0 < n {
      DeliverByte(g, st, k, st0.file, m, n, bytes);
    }
  }

  /** A sector taken during a read. */
  lemma UnderwaySector(g: Geometry, st0: State, st: State, k: nat, m: nat, n: int, bytes: seq<Byte>, exact: bool)
    requires Underway(g, st0, st, k, m, n, bytes, exact) && st.file.offset == 0
    requires exact ==> SECTOR_BYTES <= n
    ensures st.file.current != CLUSTER_EOF ==> InCluster(g, st.vol, st.file)
    ensures exact ==> st.file.fpos != st.file.size && st.file.current != CLUSTER_EOF
    ensures st.file.current != CLUSTER_EOF ==>
              && Moved(g, st.vol, st.file, SECTOR_BYTES).offset == 0
              && Underway(g, st0, st.(file := Moved(g, st.vol, st.file, SECTOR_BYTES)), k, m, n - SECTOR_BYTES,
                          bytes + SectorUnder(g, st.vol, st.file), exact)
  {
    hide ClusterIndex, SectorIndex, FileBytes, Sound, IsChain, ChainAt, Placed, SectorUnder, OpenForReading;
    StaysPlaced(g, st.vol, ChainAt(g, st.vol, k), st.file);
    if exact {
      DeliverSector(g, st, k, st0.file, m, n, bytes);
    }
  }

  /** When nothing is left, the read delivered what reading byte by byte delivers; a request for
      nothing in mid-sector delivered something. */
  lemma UnderwayEnd(g: Geometry, st0: State, st: State, k: nat, n: nat, left: int, bytes: seq<Byte>, exact: bool)
    requires OpenForReading(g, st0, k) && exact == ReadExact(st0.file, n) && (exact ==> left == 0)
    requires Underway(g, st0, st, k, Available(st0.file, n), left, bytes, exact)
    ensures exact ==> (bytes, st) == ReadBytes(g, st0, k, n)
    ensures |bytes| == Available(st0.file, n) <==> exact
    ensures !exact ==> StartsWith(g, st0, bytes)
  {
    hide ClusterIndex, SectorIndex, FileBytes, Sound, ChainAt, Placed, Seek, ReadBytes, IsChain, StartsWith;
    if exact {
      ReadBytesExact(g, st0, k, n);
    } else {
      StartsSomehow(g, st0, bytes);
    }
  }

  /** Wherever a placed descriptor stands, a read of a byte or a sector leaves it placed. */
  lemma StaysPlaced(g: Geometry, v: Volume, ch: seq<nat>, d: Descriptor)
    requires Fits(g, v) && IsChain(v.fat, g.limit, ch) && Placed(g, ch, d)
    ensures d.offset < SECTOR_BYTES
    ensures d.current != CLUSTER_EOF ==>
              && InCluster(g, v, d) && Placed(g, ch, Moved(g, v, d, 1))
              && Moved(g, v, d, 1).offset == (d.offset + 1) % SECTOR_BYTES
              && (d.offset == 0 ==> Placed(g, ch, Moved(g, v, d, SECTOR_BYTES)))
  {
    hide ClusterIndex, SectorIndex;
    PlacedInCluster(g, v, ch, d);
    if d.current != CLUSTER_EOF {
      MovedIsSeek(g, v, ch, d, 1);
      if d.offset == 0 {
        MovedIsSeek(g, v, ch, d, SECTOR_BYTES);
      }
    }
  }
}
