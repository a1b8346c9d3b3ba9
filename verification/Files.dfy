/** Well-formed volumes and what their files contain. */
module Files {
  import opened Bytes
  import opened Volumes
  import opened Positions
  import opened Names
  import opened Chains
  import opened Directory

  /** The chain starting at the cluster recorded in slot `k`. */
  function ChainAt(g: Geometry, v: Volume, k: nat): seq<nat>
    requires Fits(g, v) && k < |v.dir|
  {
    ChainFrom(v.fat, g.limit, StartOf(v.dir[k]), g.limit)
  }

  /** All members are clusters of the disk. */
  ghost predicate OnDisk(g: Geometry, ch: seq<nat>)
    requires g.Valid()
  {
    forall i :: 0 <= i < |ch| ==> FIRST_CLUSTER <= ch[i] < g.limit
  }

  /** A chain is long enough to hold `n` bytes. */
  predicate Holds(g: Geometry, ch: seq<nat>, n: nat)
    requires g.Valid()
  {
    n == 0 || ClusterIndex(g, n - 1) < |ch|
  }

  lemma HoldsAt(g: Geometry, ch: seq<nat>, n: nat, p: nat)
    requires g.Valid() && Holds(g, ch, n) && p < n
    ensures ClusterIndex(g, p) < |ch|
  {
    ClusterIndexMonotone(g, p, n - 1);
  }

  function SectorAt(g: Geometry, ch: seq<nat>, p: nat): (s: nat)
    requires g.Valid() && OnDisk(g, ch) && ClusterIndex(g, p) < |ch|
    ensures s < g.numSectors - g.dataRegion
  {
    SectorInData(g, ch[ClusterIndex(g, p)], SectorIndex(g, p));
    SectorOf(g, ch[ClusterIndex(g, p)], SectorIndex(g, p))
  }

  function ByteAt(g: Geometry, data: seq<Sector>, ch: seq<nat>, p: nat): Byte
    requires g.Valid() && OnDisk(g, ch) && ClusterIndex(g, p) < |ch|
    requires |data| == g.numSectors - g.dataRegion
  {
    data[SectorAt(g, ch, p)][p % SECTOR_BYTES]
  }

  /** The first `n` bytes stored along a chain. */
  ghost function Contents(g: Geometry, data: seq<Sector>, ch: seq<nat>, n: nat): (r: seq<Byte>)
    requires g.Valid() && OnDisk(g, ch) && Holds(g, ch, n)
    requires |data| == g.numSectors - g.dataRegion
    ensures |r| == n
  {
    seq(n, p requires 0 <= p < n => HoldsAt(g, ch, n, p); ByteAt(g, data, ch, p))
  }

  lemma ContentsAt(g: Geometry, data: seq<Sector>, ch: seq<nat>, n: nat, p: nat)
    requires g.Valid() && OnDisk(g, ch) && Holds(g, ch, n) && p < n
    requires |data| == g.numSectors - g.dataRegion
    ensures ClusterIndex(g, p) < |ch|
    ensures Contents(g, data, ch, n)[p] == ByteAt(g, data, ch, p)
  {
    HoldsAt(g, ch, n, p);
  }

  /** Slot `k` heads a complete chain long enough for the recorded size. */
  ghost predicate Owns(g: Geometry, v: Volume, k: nat)
    requires Fits(g, v) && k < |v.dir|
  {
    && IsChain(v.fat, g.limit, ChainAt(g, v, k))
    && Holds(g, ChainAt(g, v, k), SizeOf(v.dir[k]))
  }

  /** The invariant of every volume: names are distinct, every file has a complete chain, and
      no two files share a cluster. */
  ghost predicate Sound(g: Geometry, v: Volume) {
    && Fits(g, v)
    && DirectoryOk(v.dir)
    && (forall k :: FileAt(v.dir, k) ==> Owns(g, v, k))
    && (forall j, k :: FileAt(v.dir, j) && FileAt(v.dir, k) && j != k ==>
          Elements(ChainAt(g, v, j)) !! Elements(ChainAt(g, v, k)))
  }

  /** Every cluster in use belongs to a file. */
  ghost predicate Leakless(g: Geometry, v: Volume)
    requires Fits(g, v)
  {
    forall c :: FIRST_CLUSTER <= c < g.limit && v.fat[c] != CLUSTER_FREE ==> InSomeFile(g, v, c)
  }

  ghost predicate InSomeFile(g: Geometry, v: Volume, c: nat)
    requires Fits(g, v)
  {
    exists k :: FileAt(v.dir, k) && c in ChainAt(g, v, k)
  }

  /** On a sound, leakless volume an entry is nonzero exactly when its cluster lies on a file's chain. */
  lemma InUseExactly(g: Geometry, v: Volume, c: nat)
    requires Sound(g, v) && Leakless(g, v) && FIRST_CLUSTER <= c < g.limit
    ensures v.fat[c] != CLUSTER_FREE <==> InSomeFile(g, v, c)
  {
    if k :| FileAt(v.dir, k) && c in ChainAt(g, v, k) {
      assert Owns(g, v, k);
      var i :| 0 <= i < |ChainAt(g, v, k)| && ChainAt(g, v, k)[i] == c;
      assert v.fat[c] == Link(ChainAt(g, v, k), i);
    }
  }

  /** The bytes of the file in slot `k`, up to its recorded size. */
  ghost function FileBytes(g: Geometry, v: Volume, k: nat): (r: seq<Byte>)
    requires Sound(g, v) && FileAt(v.dir, k)
    ensures |r| == SizeOf(v.dir[k])
  {
    assert Owns(g, v, k);
    Contents(g, v.data, ChainAt(g, v, k), SizeOf(v.dir[k]))
  }

  /** A file's chain and bytes depend only on its slot, its own FAT entries and its own sectors. */
  lemma FileFrame(g: Geometry, v: Volume, v': Volume, k: nat)
    requires Sound(g, v) && FileAt(v.dir, k) && Fits(g, v')
    requires StartOf(v'.dir[k]) == StartOf(v.dir[k])
    requires forall c :: c in ChainAt(g, v, k) ==> c < |v.fat| && v'.fat[c] == v.fat[c]
    ensures ChainAt(g, v', k) == ChainAt(g, v, k) && IsChain(v'.fat, g.limit, ChainAt(g, v', k))
  {
    assert Owns(g, v, k);
    ChainFrame(v.fat, v'.fat, g.limit, ChainAt(g, v, k));
  }

  /** Changing one sector of another cluster leaves a chain's bytes alone. */
  lemma ContentsFrame(g: Geometry, data: seq<Sector>, ch: seq<nat>, n: nat, c: nat, s: nat, sector: Sector)
    requires g.Valid() && OnDisk(g, ch) && Holds(g, ch, n) && |data| == g.numSectors - g.dataRegion
    requires FIRST_CLUSTER <= c < g.limit && s < g.spc && c !in ch
    requires SectorOf(g, c, s) < |data|
    ensures Contents(g, data[SectorOf(g, c, s) := sector], ch, n) == Contents(g, data, ch, n)
  {
    hide ClusterIndex, SectorIndex, SectorOf;
    var data' := data[SectorOf(g, c, s) := sector];
    forall p | 0 <= p < n
      ensures Contents(g, data', ch, n)[p] == Contents(g, data, ch, n)[p]
    {
      ContentsAt(g, data, ch, n, p);
      ContentsAt(g, data', ch, n, p);
      SectorInjective(g, ch[ClusterIndex(g, p)], SectorIndex(g, p), c, s);
    }
  }

  /** Contents along a chain are unaffected by clusters appended to it. */
  lemma ContentsExtend(g: Geometry, data: seq<Sector>, ch: seq<nat>, more: seq<nat>, n: nat)
    requires g.Valid() && OnDisk(g, ch + more) && OnDisk(g, ch) && Holds(g, ch, n)
    requires |data| == g.numSectors - g.dataRegion
    ensures Holds(g, ch + more, n)
    ensures Contents(g, data, ch + more, n) == Contents(g, data, ch, n)
  {
    hide ClusterIndex, SectorIndex, SectorOf;
    forall p | 0 <= p < n
      ensures Contents(g, data, ch + more, n)[p] == Contents(g, data, ch, n)[p]
    {
      ContentsAt(g, data, ch, n, p);
      ContentsAt(g, data, ch + more, n, p);
    }
  }

  /** Within one chain, different positions are stored in different places. */
  lemma PlaceDistinct(g: Geometry, fat: seq<Word>, ch: seq<nat>, p: nat, q: nat)
    requires g.Valid() && IsChain(fat, g.limit, ch)
    requires ClusterIndex(g, p) < |ch| && ClusterIndex(g, q) < |ch|
    ensures SectorAt(g, ch, p) == SectorAt(g, ch, q) && p % SECTOR_BYTES == q % SECTOR_BYTES <==> p == q
  {
    var i, j := ClusterIndex(g, p), ClusterIndex(g, q);
    if i < j {
      ChainDistinct(fat, g.limit, ch, i, j);
    } else if j < i {
      ChainDistinct(fat, g.limit, ch, j, i);
    }
    PositionSplit(g, p);
    PositionSplit(g, q);
    SectorInjective(g, ch[i], SectorIndex(g, p), ch[j], SectorIndex(g, q));
    hide ClusterIndex, SectorIndex, SectorOf;
  }

  /** Storing a byte at the end of the first `n` appends it to the contents. */
  lemma ContentsAppend(g: Geometry, data: seq<Sector>, fat: seq<Word>, ch: seq<nat>, n: nat, b: Byte)
    requires g.Valid() && IsChain(fat, g.limit, ch) && ClusterIndex(g, n) < |ch|
    requires |data| == g.numSectors - g.dataRegion
    ensures Holds(g, ch, n) && Holds(g, ch, n + 1)
    ensures var s := SectorAt(g, ch, n);
            var data' := data[s := Overwrite(data[s], n % SECTOR_BYTES, [b])];
            Contents(g, data', ch, n + 1) == Contents(g, data, ch, n) + [b]
  {
    hide ClusterIndex, SectorIndex, SectorOf;
    var s := SectorAt(g, ch, n);
    var data' := data[s := Overwrite(data[s], n % SECTOR_BYTES, [b])];
    if n > 0 {
      ClusterIndexMonotone(g, n - 1, n);
    }
    ContentsAt(g, data', ch, n + 1, n);
    forall p | 0 <= p < n
      ensures Contents(g, data', ch, n + 1)[p] == Contents(g, data, ch, n)[p]
    {
      ContentsAt(g, data, ch, n, p);
      ContentsAt(g, data', ch, n + 1, p);
      PlaceDistinct(g, fat, ch, p, n);
    }
  }
}
