/** What writing to the open file keeps: the volume stays sound, only the open file changes, and
    the bytes arrive in order. */
module Appending {
  import opened Bytes
  import opened Volumes
  import opened Positions
  import opened Names
  import opened Chains
  import opened Directory
  import opened Files
  import opened Writing

  /** The descriptor is at the end of the file in slot `k`: the position invariant of writing. */
  ghost predicate OpenForWriting(g: Geometry, st: State, k: int) {
    && Sound(g, st.vol)
    && FileAt(st.vol.dir, k)
    && NameOf(st.vol.dir[k]) == st.file.name
    && st.file.mode == FMODE_WRITE
    && SizeOf(st.vol.dir[k]) <= st.file.size == st.file.fpos
    && var ch := ChainAt(g, st.vol, k);
    && |ch| == ClusterIndex(g, st.file.fpos) + 1
    && st.file.current == ch[|ch| - 1]
    && st.file.sector == SectorIndex(g, st.file.fpos)
    && st.file.offset == st.file.fpos % SECTOR_BYTES
  }

  /** Everything written so far, including what the directory does not record yet. */
  ghost function Written(g: Geometry, st: State, k: nat): (r: seq<Byte>)
    requires OpenForWriting(g, st, k)
    ensures |r| == st.file.size
  {
    assert Owns(g, st.vol, k);
    WrittenFits(g, st, k);
    Contents(g, st.vol.data, ChainAt(g, st.vol, k), st.file.size)
  }

  lemma WrittenFits(g: Geometry, st: State, k: nat)
    requires OpenForWriting(g, st, k)
    ensures Holds(g, ChainAt(g, st.vol, k), st.file.size)
    ensures Ready(g, st)
  {
    assert Owns(g, st.vol, k);
    var ch := ChainAt(g, st.vol, k);
    assert st.vol.fat[ch[|ch| - 1]] == Link(ch, |ch| - 1);
    if st.file.size > 0 {
      ClusterIndexMonotone(g, st.file.size - 1, st.file.size);
    }
  }

  /** A file of n bytes owns n / cluster size + 1 clusters: the next one is taken eagerly. */
  lemma ClustersOwned(g: Geometry, st: State, k: nat)
    requires OpenForWriting(g, st, k)
    ensures ClusterBytes(g) > 0 && |ChainAt(g, st.vol, k)| == st.file.size / ClusterBytes(g) + 1
    ensures st.file.size < 0x1_0000_0000
  {
    assert Owns(g, st.vol, k);
    var ch := ChainAt(g, st.vol, k);
    ClusterIndexIsDivision(g, st.file.size);
    ChainShort(st.vol.fat, g.limit, ch);
    PositionSplit(g, st.file.size);
    var i := ClusterIndex(g, st.file.size);
    MulGap(i, 0x8000, g.spc);
    assert i * g.spc + g.spc <= 0x8000 * 255;
  }

  lemma ContentsPrefix(g: Geometry, data: seq<Sector>, ch: seq<nat>, m: nat, n: nat)
    requires g.Valid() && OnDisk(g, ch) && Holds(g, ch, n) && m <= n && |data| == g.numSectors - g.dataRegion
    ensures Holds(g, ch, m) && Contents(g, data, ch, m) == Contents(g, data, ch, n)[..m]
  {
    hide ClusterIndex, SectorIndex, SectorOf;
    if 0 < m {
      HoldsAt(g, ch, n, m - 1);
    }
    forall p | 0 <= p < m ensures Contents(g, data, ch, m)[p] == Contents(g, data, ch, n)[p] {
      ContentsAt(g, data, ch, m, p);
      ContentsAt(g, data, ch, n, p);
    }
  }

  // ----- Storing one byte -----

  lemma StoreOthers(g: Geometry, st: State, b: Byte, k: nat, j: nat)
    requires OpenForWriting(g, st, k) && Ready(g, st) && FileAt(st.vol.dir, j) && j != k
    ensures var v' := Store(g, st, [b]).vol;
            Sound(g, v') && FileBytes(g, v', j) == FileBytes(g, st.vol, j)
  {
    hide ClusterIndex, SectorIndex, SectorOf;
    var v, v', ch := st.vol, Store(g, st, [b]).vol, ChainAt(g, st.vol, j);
    SoundAnyData(g, v, v');
    assert Owns(g, v, j) && Owns(g, v, k);
    assert st.file.current in Elements(ChainAt(g, v, k));
    var s := CurrentSector(g, st);
    assert st.file.current !in ch by {
      assert Elements(ch) !! Elements(ChainAt(g, v, k));
      assert st.file.current in ch ==> st.file.current in Elements(ch);
    }
    ContentsFrame(g, v.data, ch, SizeOf(v.dir[j]), st.file.current, st.file.sector, v'.data[s]);
  }

  /** Soundness speaks of the tables only. */
  lemma SoundAnyData(g: Geometry, v: Volume, v': Volume)
    requires Sound(g, v) && v'.fat == v.fat && v'.dir == v.dir && |v'.data| == |v.data|
    ensures Sound(g, v')
    ensures forall k :: FileAt(v.dir, k) ==> ChainAt(g, v', k) == ChainAt(g, v, k)
    ensures Leakless(g, v) ==> Leakless(g, v')
  {
    assert forall k :: FileAt(v.dir, k) ==> Owns(g, v, k) && Owns(g, v', k);
    if Leakless(g, v) {
      forall c | FIRST_CLUSTER <= c < g.limit && v'.fat[c] != CLUSTER_FREE ensures InSomeFile(g, v', c) {
        assert InSomeFile(g, v, c);
        var k :| FileAt(v.dir, k) && c in ChainAt(g, v, k);
        assert c in ChainAt(g, v', k);
      }
    }
  }

  lemma StoreOwn(g: Geometry, st: State, b: Byte, k: nat)
    requires OpenForWriting(g, st, k) && Ready(g, st)
    ensures var v' := Store(g, st, [b]).vol;
            var ch := ChainAt(g, st.vol, k);
            Sound(g, v') && ChainAt(g, v', k) == ch && OnDisk(g, ch) && Holds(g, ch, st.file.size + 1)
            && Contents(g, v'.data, ch, st.file.size + 1) == Written(g, st, k) + [b]
  {
    hide ClusterIndex, SectorIndex, SectorOf;
    var v' := Store(g, st, [b]).vol;
    SoundAnyData(g, st.vol, v');
    assert Owns(g, st.vol, k);
    ContentsAppend(g, st.vol.data, st.vol.fat, ChainAt(g, st.vol, k), st.file.size, b);
    assert SectorAt(g, ChainAt(g, st.vol, k), st.file.size) == CurrentSector(g, st);
  }

  // ----- Taking a cluster -----

  /** The table after linking the least free cluster to the end of the chain in slot `k`. */
  function Extended(fat: seq<Word>, last: nat, n: Word): seq<Word>
    requires last < |fat| && n < |fat|
  {
    fat[last := n][n := CLUSTER_EOF]
  }

  lemma ExtendOthers(g: Geometry, v: Volume, k: nat, n: Word, j: nat)
    requires Sound(g, v) && FileAt(v.dir, k) && FileAt(v.dir, j) && j != k
    requires FIRST_CLUSTER <= n < g.limit && v.fat[n] == CLUSTER_FREE
    ensures Owns(g, v, k)
    ensures var v' := v.(fat := Extended(v.fat, ChainAt(g, v, k)[|ChainAt(g, v, k)| - 1], n));
            ChainAt(g, v', j) == ChainAt(g, v, j) && Owns(g, v', j) && n !in ChainAt(g, v, j)
  {
    hide ClusterIndex;
    assert Owns(g, v, k) && Owns(g, v, j);
    var chk, chj := ChainAt(g, v, k), ChainAt(g, v, j);
    var v' := v.(fat := Extended(v.fat, chk[|chk| - 1], n));
    assert Elements(chj) !! Elements(chk);
    forall c | c in chj ensures c < |v.fat| && v'.fat[c] == v.fat[c] && c != n {
      var i :| 0 <= i < |chj| && chj[i] == c;
      assert v.fat[c] == Link(chj, i);
      assert c in Elements(chj) && chk[|chk| - 1] in Elements(chk);
    }
    FileFrame(g, v, v', j);
  }

  lemma ExtendOwn(g: Geometry, v: Volume, k: nat, n: Word)
    requires Sound(g, v) && FileAt(v.dir, k)
    requires FIRST_CLUSTER <= n < g.limit && v.fat[n] == CLUSTER_FREE
    ensures Owns(g, v, k)
    ensures var v' := v.(fat := Extended(v.fat, ChainAt(g, v, k)[|ChainAt(g, v, k)| - 1], n));
            ChainAt(g, v', k) == ChainAt(g, v, k) + [n] && Owns(g, v', k) && n !in ChainAt(g, v, k)
  {
    hide ClusterIndex;
    assert Owns(g, v, k);
    ChainExtend(v.fat, g.limit, ChainAt(g, v, k), n);
  }

  lemma ExtendKeepsSound(g: Geometry, v: Volume, k: nat, n: Word)
    requires Sound(g, v) && FileAt(v.dir, k)
    requires FIRST_CLUSTER <= n < g.limit && v.fat[n] == CLUSTER_FREE
    ensures Owns(g, v, k)
    ensures var v' := v.(fat := Extended(v.fat, ChainAt(g, v, k)[|ChainAt(g, v, k)| - 1], n));
            && Sound(g, v') && (Leakless(g, v) ==> Leakless(g, v'))
            && ChainAt(g, v', k) == ChainAt(g, v, k) + [n]
            && (forall j :: FileAt(v.dir, j) && j != k ==> ChainAt(g, v', j) == ChainAt(g, v, j))
  {
    hide ClusterIndex;
    ExtendOwn(g, v, k, n);
    var last := ChainAt(g, v, k)[|ChainAt(g, v, k)| - 1];
    var v' := v.(fat := Extended(v.fat, last, n));
    forall j | FileAt(v.dir, j) && j != k
      ensures ChainAt(g, v', j) == ChainAt(g, v, j) && Owns(g, v', j) && n !in ChainAt(g, v, j)
    {
      ExtendOthers(g, v, k, n, j);
    }
    assert Elements(ChainAt(g, v, k) + [n]) == Elements(ChainAt(g, v, k)) + {n as nat};
    if Leakless(g, v) {
      forall c | FIRST_CLUSTER <= c < g.limit && v'.fat[c] != CLUSTER_FREE ensures InSomeFile(g, v', c) {
        if c == n {
          assert c in ChainAt(g, v', k);
        } else {
          assert c != last ==> v.fat[c] != CLUSTER_FREE;
          assert c == last ==> c in ChainAt(g, v, k);
          assert InSomeFile(g, v, c);
          var j :| FileAt(v.dir, j) && c in ChainAt(g, v, j);
          assert c in ChainAt(g, v', j);
        }
      }
    }
  }

  // ----- The effect of a write -----

  /** The FAT changed only by appending free clusters to the chain in slot `k`. */
  ghost predicate ChainGrew(g: Geometry, v: Volume, v': Volume, k: nat)
    requires Fits(g, v) && Fits(g, v') && k < |v.dir| && k < |v'.dir|
  {
    && ChainAt(g, v, k) <= ChainAt(g, v', k)
    && (forall c :: 0 <= c < |v.fat| && c !in ChainAt(g, v', k) ==> v'.fat[c] == v.fat[c])
    && (forall c :: c in ChainAt(g, v', k) ==>
          c in ChainAt(g, v, k) || (c < |v.fat| && v.fat[c] == CLUSTER_FREE))
  }

  /** What writing `bs` to the file in slot `k` may do: its contents gain `bs`, its chain may grow
      into free clusters, and nothing else changes, not even what the directory says of it. */
  ghost predicate Grew(g: Geometry, st: State, st': State, k: nat, bs: seq<Byte>)
    requires OpenForWriting(g, st, k)
  {
    && OpenForWriting(g, st', k)
    && st'.vol.dir == st.vol.dir
    && Written(g, st', k) == Written(g, st, k) + bs
    && (forall j :: FileAt(st.vol.dir, j) ==> FileBytes(g, st'.vol, j) == FileBytes(g, st.vol, j))
    && (forall j :: FileAt(st.vol.dir, j) && j != k ==> ChainAt(g, st'.vol, j) == ChainAt(g, st.vol, j))
    && ChainGrew(g, st.vol, st'.vol, k)
    && (Leakless(g, st.vol) ==> Leakless(g, st'.vol))
    && st'.file.name == st.file.name && st'.file.start == st.file.start
  }

  lemma ChainGrewTwice(g: Geometry, v: Volume, v1: Volume, v2: Volume, k: nat)
    requires Fits(g, v) && Fits(g, v1) && Fits(g, v2) && k < |v.dir|
    requires ChainGrew(g, v, v1, k) && ChainGrew(g, v1, v2, k)
    ensures ChainGrew(g, v, v2, k)
  {
    hide ChainAt;
    forall c | c in ChainAt(g, v2, k)
      ensures c in ChainAt(g, v, k) || (c < |v.fat| && v.fat[c] == CLUSTER_FREE)
    {
      assert c !in ChainAt(g, v1, k) ==> v1.fat[c] == v.fat[c];
    }
  }

  lemma GrewThenGrew(g: Geometry, st: State, st1: State, st2: State, k: nat, a: seq<Byte>, b: seq<Byte>)
    requires OpenForWriting(g, st, k) && Grew(g, st, st1, k, a) && Grew(g, st1, st2, k, b)
    ensures Grew(g, st, st2, k, a + b)
  {
    hide ClusterIndex, SectorIndex, SectorOf, IsChain, Owns, ChainAt, ChainGrew, DirectoryOk, Written, FileBytes, Leakless;
    assert Written(g, st, k) + a + b == Written(g, st, k) + (a + b);
    ChainGrewTwice(g, st.vol, st1.vol, st2.vol, k);
  }

  lemma GrewNothing(g: Geometry, st: State, k: nat)
    requires OpenForWriting(g, st, k)
    ensures Grew(g, st, st, k, [])
  {
    hide ClusterIndex, SectorIndex, SectorOf;
    assert Written(g, st, k) + [] == Written(g, st, k);
  }

  /** Contents along an unchanged chain prefix, with unchanged data, stay the same. */
  lemma FileBytesSameData(g: Geometry, v: Volume, v': Volume, j: nat, more: seq<nat>)
    requires Sound(g, v) && Sound(g, v') && FileAt(v.dir, j) && v'.dir == v.dir && v'.data == v.data
    requires ChainAt(g, v', j) == ChainAt(g, v, j) + more
    ensures FileBytes(g, v', j) == FileBytes(g, v, j)
  {
    hide ClusterIndex, SectorIndex, SectorOf;
    assert Owns(g, v, j) && Owns(g, v', j);
    ContentsExtend(g, v.data, ChainAt(g, v, j), more, SizeOf(v.dir[j]));
  }

  /** The recorded prefix of the open file is not touched by storing past its end. */
  lemma StoreKeepsRecorded(g: Geometry, st: State, b: Byte, k: nat)
    requires OpenForWriting(g, st, k) && Ready(g, st)
    ensures var v' := Store(g, st, [b]).vol;
            Sound(g, v') && FileBytes(g, v', k) == FileBytes(g, st.vol, k)
  {
    hide ClusterIndex, SectorIndex, SectorOf;
    var v, v', ch, n := st.vol, Store(g, st, [b]).vol, ChainAt(g, st.vol, k), SizeOf(st.vol.dir[k]);
    StoreOwn(g, st, b, k);
    assert Owns(g, v, k) && Owns(g, v', k);
    WrittenFits(g, st, k);
    ContentsPrefix(g, v.data, ch, n, st.file.size);
    ContentsPrefix(g, v'.data, ch, n, st.file.size + 1);
    assert (Written(g, st, k) + [b])[..n] == Written(g, st, k)[..n];
  }

  lemma StoreKeeps(g: Geometry, st: State, b: Byte, k: nat)
    requires OpenForWriting(g, st, k) && Ready(g, st)
    ensures var v' := Store(g, st, [b]).vol;
            && Sound(g, v') && (Leakless(g, st.vol) ==> Leakless(g, v'))
            && (forall j :: FileAt(st.vol.dir, j) ==> FileBytes(g, v', j) == FileBytes(g, st.vol, j))
            && (forall j :: FileAt(st.vol.dir, j) ==> ChainAt(g, v', j) == ChainAt(g, st.vol, j))
  {
    hide ClusterIndex, SectorIndex, SectorOf;
    SoundAnyData(g, st.vol, Store(g, st, [b]).vol);
    forall j | FileAt(st.vol.dir, j)
      ensures FileBytes(g, Store(g, st, [b]).vol, j) == FileBytes(g, st.vol, j)
    {
      if j == k {
        StoreKeepsRecorded(g, st, b, k);
      } else {
        StoreOthers(g, st, b, k, j);
      }
    }
  }

  /** Not at a cluster end: the chain stays, the position moves inside the last cluster. */
  lemma PutByteWithin(g: Geometry, st: State, b: Byte, k: nat)
    requires OpenForWriting(g, st, k) && CanWrite(g, st, 1)
    requires !(st.file.offset + 1 == SECTOR_BYTES && st.file.sector + 1 == g.spc)
    ensures Grew(g, st, PutByte(g, st, b), k, [b])
  {
    hide ClusterIndex, SectorIndex, SectorOf;
    var st' := PutByte(g, st, b);
    StoreKeeps(g, st, b, k);
    StoreOwn(g, st, b, k);
    PositionStep(g, st.file.fpos);
    assert OpenForWriting(g, st', k);
  }

  lemma AdvanceVolume(g: Geometry, st: State, b: Byte, k: nat)
    requires OpenForWriting(g, st, k) && CanWrite(g, st, 1)
    requires st.file.offset + 1 == SECTOR_BYTES && st.file.sector + 1 == g.spc
    ensures var ch, n, v' := ChainAt(g, st.vol, k), LeastFree(st.vol.fat, FIRST_CLUSTER), PutByte(g, st, b).vol;
            && FIRST_CLUSTER <= n < g.limit && st.vol.fat[n] == CLUSTER_FREE
            && Sound(g, v') && (Leakless(g, st.vol) ==> Leakless(g, v'))
            && v' == Store(g, st, [b]).vol.(fat := Extended(st.vol.fat, ch[|ch| - 1], n))
            && ChainAt(g, v', k) == ch + [n]
            && (forall j :: FileAt(st.vol.dir, j) && j != k ==> ChainAt(g, v', j) == ChainAt(g, st.vol, j))
  {
    hide ClusterIndex, SectorIndex, SectorOf, DirectoryOk, ChainAt, FileBytes, Leakless, NameOf, SizeOf, IsFile;
    RoomToAdvance(g, st, 1);
    StoreKeeps(g, st, b, k);
    ExtendKeepsSound(g, Store(g, st, [b]).vol, k, LeastFree(st.vol.fat, FIRST_CLUSTER));
  }

  lemma AdvanceBytes(g: Geometry, st: State, b: Byte, k: nat, j: nat)
    requires OpenForWriting(g, st, k) && CanWrite(g, st, 1) && FileAt(st.vol.dir, j)
    requires st.file.offset + 1 == SECTOR_BYTES && st.file.sector + 1 == g.spc
    ensures Sound(g, PutByte(g, st, b).vol)
    ensures FileBytes(g, PutByte(g, st, b).vol, j) == FileBytes(g, st.vol, j)
  {
    hide ClusterIndex, SectorIndex, SectorOf;
    var st1, n := Store(g, st, [b]), LeastFree(st.vol.fat, FIRST_CLUSTER);
    AdvanceVolume(g, st, b, k);
    StoreKeeps(g, st, b, k);
    FileBytesSameData(g, st1.vol, PutByte(g, st, b).vol, j, if j == k then [n] else []);
  }

  lemma AdvanceFile(g: Geometry, st: State, b: Byte)
    requires CanWrite(g, st, 1)
    requires st.file.offset + 1 == SECTOR_BYTES && st.file.sector + 1 == g.spc
    ensures PutByte(g, st, b).file
            == st.file.(fpos := st.file.fpos + 1, size := st.file.size + 1, offset := 0, sector := 0,
                        current := LeastFree(st.vol.fat, FIRST_CLUSTER))
  {
    hide ClusterIndex, SectorOf;
  }

  lemma AdvancePosition(g: Geometry, st: State, b: Byte, k: nat)
    requires OpenForWriting(g, st, k) && CanWrite(g, st, 1)
    requires st.file.offset + 1 == SECTOR_BYTES && st.file.sector + 1 == g.spc
    ensures OpenForWriting(g, PutByte(g, st, b), k)
  {
    hide ClusterIndex, SectorIndex, SectorOf, PutByte, Sound, ChainAt, NameOf, SizeOf, CanWrite, IsFile, Extended;
    AdvanceVolume(g, st, b, k);
    AdvanceFile(g, st, b);
    PositionStep(g, st.file.fpos);
  }

  lemma AdvanceWritten(g: Geometry, st: State, b: Byte, k: nat)
    requires OpenForWriting(g, st, k) && CanWrite(g, st, 1)
    requires st.file.offset + 1 == SECTOR_BYTES && st.file.sector + 1 == g.spc
    ensures OpenForWriting(g, PutByte(g, st, b), k)
    ensures Written(g, PutByte(g, st, b), k) == Written(g, st, k) + [b]
  {
    hide ClusterIndex, SectorIndex, SectorOf, PutByte, DirectoryOk, ChainAt, NameOf, SizeOf, CanWrite, IsFile, Extended;
    var st1, n := Store(g, st, [b]), LeastFree(st.vol.fat, FIRST_CLUSTER);
    AdvanceVolume(g, st, b, k);
    AdvanceFile(g, st, b);
    AdvancePosition(g, st, b, k);
    StoreOwn(g, st, b, k);
    assert Owns(g, PutByte(g, st, b).vol, k);
    ContentsExtend(g, st1.vol.data, ChainAt(g, st.vol, k), [n], st.file.size + 1);
  }

  /** At a cluster end: the chain grows by the least free cluster and the position starts there. */
  lemma PutByteAcross(g: Geometry, st: State, b: Byte, k: nat)
    requires OpenForWriting(g, st, k) && CanWrite(g, st, 1)
    requires st.file.offset + 1 == SECTOR_BYTES && st.file.sector + 1 == g.spc
    ensures Grew(g, st, PutByte(g, st, b), k, [b])
  {
    hide ClusterIndex, SectorIndex, SectorOf, Owns, IsChain, DirectoryOk, Leakless, FileBytes, Written;
    var st' := PutByte(g, st, b);
    AdvanceVolume(g, st, b, k);
    AdvanceWritten(g, st, b, k);
    forall j | FileAt(st.vol.dir, j) ensures FileBytes(g, st'.vol, j) == FileBytes(g, st.vol, j) {
      AdvanceBytes(g, st, b, k, j);
    }
    var ch := ChainAt(g, st.vol, k);
    assert ch[|ch| - 1] in ch;
  }

  lemma PutByteKeeps(g: Geometry, st: State, b: Byte, k: nat)
    requires OpenForWriting(g, st, k) && CanWrite(g, st, 1)
    ensures Grew(g, st, PutByte(g, st, b), k, [b])
  {
    if st.file.offset + 1 == SECTOR_BYTES && st.file.sector + 1 == g.spc {
      PutByteAcross(g, st, b, k);
    } else {
      PutByteWithin(g, st, b, k);
    }
  }

  /** Writing bytes one at a time appends them, grows only the open file's chain, and keeps
      every other file and the whole directory as they were. */
  lemma {:induction false} WriteKeeps(g: Geometry, st: State, bs: seq<Byte>, k: nat)
    requires OpenForWriting(g, st, k) && CanWrite(g, st, |bs|)
    ensures Grew(g, st, WriteBytes(g, st, bs), k, bs)
    decreases |bs|
  {
    hide ClusterIndex, SectorIndex, SectorOf, PutByte, Written, FileBytes, ChainGrew, Sound, Leakless, ChainAt;
    if bs == [] {
      GrewNothing(g, st, k);
    } else {
      RoomForNext(g, st, bs[0], |bs|);
      var st' := PutByte(g, st, bs[0]);
      PutByteKeeps(g, st, bs[0], k);
      WriteKeeps(g, st', bs[1..], k);
      GrewThenGrew(g, st, st', WriteBytes(g, st', bs[1..]), k, [bs[0]], bs[1..]);
      assert [bs[0]] + bs[1..] == bs;
    }
  }
}
