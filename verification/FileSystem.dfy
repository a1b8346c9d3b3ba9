/** The file system driver: one cached sector, one descriptor, and a disk. */
module FileSystems {
  import opened Bytes
  import opened Volumes
  import opened Positions
  import opened Names
  import opened Chains
  import opened Directory
  import opened Files
  import opened Writing
  import opened Appending
  import opened Reading
  import opened Lifecycle

  const E_FILENOTFOUND := -1
  const E_INVALIDFILENAME := -4
  const E_DISKFULL := -6
  const E_FILEEXIST := -7
  const E_INVALIDMODE := -9
  const E_SECTOREND := 1
  const KERNEL_EOF := -1
  const FILE_LIMIT := 1

  /** The layout recorded in the boot sector, computed in the widths the driver uses. */
  function BootGeometry(boot: Sector): Geometry {
    var fat := WordAt(boot, 0x0e);
    var root := fat + WordAt(boot, 0x16) * boot[0x10] % 0x1_0000;
    var data := root + WordAt(boot, 0x11) / SLOTS_PER_SECTOR;
    var small := WordAt(boot, 0x13);
    var sectors := if small == 0 then DWordAt(boot, 0x20) else small;
    Geometry(fat, root, data, boot[0x0d], ClusterLimit(sectors, data, root - fat, boot[0x0d]), sectors)
  }

  function Min(a: nat, b: nat): nat {
    if a < b then a else b
  }

  /** One past the last cluster that lies wholly on the disk, has an entry in the table, and is within the
      reach of the driver's 16-bit arithmetic. */
  function ClusterLimit(sectors: nat, data: nat, fatSectors: nat, spc: nat): nat {
    if spc == 0 || sectors < data then 0
    else Min(FIRST_CLUSTER + Min(sectors - data, 0x1_0000) / spc, Min(0x8000, ENTRIES_PER_SECTOR * fatSectors))
  }

  /** So a layout can be mounted if and only if its regions are in order and small enough, and there is a
      cluster to use. */
  lemma LayoutValid(boot: Sector)
    ensures var g := BootGeometry(boot);
            g.Valid() <==>
              && g.fatRegion < g.rootRegion < g.dataRegion <= g.numSectors && g.rootRegion - g.fatRegion < 0x1_0000
              && 0 < g.spc <= g.numSectors - g.dataRegion
  {
    var g := BootGeometry(boot);
    if 0 < g.spc && g.fatRegion < g.rootRegion < g.dataRegion <= g.numSectors && FIRST_CLUSTER <= g.limit {
      LimitReached(g.limit - FIRST_CLUSTER, Min(g.numSectors - g.dataRegion, 0x1_0000), g.spc);
    }
  }

  lemma LimitReached(n: nat, sectors: nat, spc: nat)
    requires 0 < spc && n <= sectors / spc
    ensures Times(n, spc) <= sectors
  {
    var q := sectors / spc;
    TimesGap(n, q, spc);
    TimesIsProduct(q, spc);
    QuotientTimes(sectors, spc);
  }

  lemma QuotientTimes(n: nat, d: nat)
    requires 0 < d
    ensures n / d * d <= n
  {
    assert n == n / d * d + n % d;
  }

  /** The free-cluster search gives the least free cluster, or 0 when there is none, exactly under
      this condition: a free cluster below 256, or none at all with the word after the buffer
      nonzero, or cluster 256 being the least free one with that word zero. */
  predicate SearchExact(fat: seq<Word>, overrun: Word)
    requires FIRST_CLUSTER <= |fat|
  {
    var least := LeastFree(fat, FIRST_CLUSTER);
    || least < ENTRIES_PER_SECTOR
    || (least == |fat| && overrun != 0)
    || (least == ENTRIES_PER_SECTOR < |fat| && overrun == 0)
  }

  /** The search is exact and its result is a cluster of the disk. */
  predicate SearchSafe(g: Geometry, fat: seq<Word>, overrun: Word)
    requires g.Valid() && FIRST_CLUSTER <= |fat|
  {
    var least := LeastFree(fat, FIRST_CLUSTER);
    least < SearchLimit(g) || (least == |fat| && overrun != 0)
  }

  /** Writing `n` bytes completes the last sector of the cluster. */
  predicate CompletesCluster(g: Geometry, file: Descriptor, n: nat) {
    file.offset + n == SECTOR_BYTES && file.sector + 1 == g.spc
  }

  /** memcpy into the buffer. */
  method CopyBytes(buf: array<Byte>, at: nat, bytes: seq<Byte>)
    requires at + |bytes| <= buf.Length
    modifies buf
    ensures buf[..] == Overwrite(old(buf[..]), at, bytes)
  {
    forall i | 0 <= i < |bytes| {
      buf[at + i] := bytes[i];
    }
  }

  method PutWord(buf: array<Byte>, at: nat, w: Word)
    requires at + 2 <= buf.Length
    modifies buf
    ensures buf[..] == Overwrite(old(buf[..]), at, WordBytes(w))
  {
    buf[at], buf[at + 1] := w % 0x100, w / 0x100;
  }

  /** The first space of a stretch of the buffer, or its end. */
  method FindSpace(buf: array<Byte>, from: nat, to: nat) returns (i: nat)
    requires from <= to <= buf.Length
    ensures from <= i <= to && i == from + IndexOf(buf[from..to], SPACE)
  {
    i := from;
    while i < to
      invariant from <= i <= to && forall j :: from <= j < i ==> buf[j] != SPACE
    {
      if buf[i] == SPACE { break; }
      i := i + 1;
    }
    IndexOfUnique(buf[from..to], SPACE, i - from);
  }

  /** The name part up to its first space, then the dot. */
  method PutBase(base: seq<Byte>, buf: array<Byte>) returns (end: nat)
    requires |base| == BASE_MAX && buf.Length == NAME_BUF
    modifies buf
    ensures end <= BASE_MAX + 1 && buf[..end] == UpTo(base, SPACE) + [DOT]
  {
    hide IndexOf;
    CopyBytes(buf, 0, base);
    assert buf[0..BASE_MAX] == base;
    var i := FindSpace(buf, 0, BASE_MAX);
    assert buf[..i] == base[..i];
    buf[i] := DOT;
    return i + 1;
  }

  /** The extension up to its first space, then the terminating NUL. */
  method PutExtension(ext: seq<Byte>, buf: array<Byte>, at: nat)
    requires |ext| == EXT_MAX && buf.Length == NAME_BUF && at <= BASE_MAX + 1
    modifies buf
    ensures CString(buf[..]) == CString(old(buf[..at]) + UpTo(ext, SPACE))
  {
    hide IndexOf, CString;
    ghost var front := buf[..at];
    CopyBytes(buf, at, ext);
    assert buf[..at] == front && buf[at..at + EXT_MAX] == ext;
    var i := FindSpace(buf, at, at + EXT_MAX);
    assert buf[..i] == front + ext[..i - at];
    buf[i] := 0;
    assert buf[..] == front + ext[..i - at] + [0] + buf[i + 1..];
    CStringEnds(front + ext[..i - at], buf[i + 1..]);
  }

  /** The dotted name of a directory slot, as a NUL-terminated string. */
  method Filename(entry: Slot, buf: array<Byte>)
    requires buf.Length == NAME_BUF
    modifies buf
    ensures CString(buf[..]) == NameOf(entry)
  {
    var end := PutBase(entry[..BASE_MAX], buf);
    PutExtension(entry[BASE_MAX..RAW_BYTES], buf, end);
  }

  /** Copies text into a field of an entry and pads it with spaces. Longer text spills over. */
  method PutField(entry: array<Byte>, at: nat, width: nat, text: seq<Byte>)
    requires at + width <= entry.Length && at + |text| <= entry.Length
    modifies entry
    ensures entry[..at] == old(entry[..at])
    ensures entry[at..at + width] == Pad(text, width)
  {
    CopyBytes(entry, at, text);
    assert entry[..at] == old(entry[..at]) && entry[at..at + |text|] == text;
    var i := |text|;
    while i < width
      invariant |text| <= i && (i <= width || i == |text|)
      invariant entry[..at] == old(entry[..at]) && entry[at..at + |text|] == text
      invariant forall j :: at + |text| <= j < at + i ==> entry[j] == SPACE
    {
      entry[at + i] := SPACE;
      i := i + 1;
    }
    if width <= |text| {
      SliceFront(entry[..], at, text, width);
    }
  }

  lemma SliceFront(s: seq<Byte>, at: nat, text: seq<Byte>, width: nat)
    requires at + |text| <= |s| && s[at..at + |text|] == text && width <= |text|
    ensures s[at..at + width] == text[..width]
  {
    assert s[at..at + width] == s[at..at + |text|][..width];
  }

  /** A 32-byte entry, its fields set as the driver sets them: names longer than their fields spill
      into the following ones, which are set afterwards. */
  method MakeEntry(name: Name, start: Word) returns (slot: Slot)
    requires DOT in name && |name| <= NAME_MAX
    ensures slot == NewSlot(name, start)
  {
    hide Pad, IndexOf;
    var entry := new Byte[SLOT_BYTES];
    PutField(entry, 0, BASE_MAX, Base(name));
    ghost var base := entry[0..BASE_MAX];
    PutField(entry, BASE_MAX, EXT_MAX, Extension(name));
    ghost var ext := entry[BASE_MAX..RAW_BYTES];
    assert entry[..BASE_MAX] == base && base + ext == Pack(name);
    var fields := [0, 0, 0, 0, 0] + WordBytes(EPOCH_DATE) + seq(8, _ => 0) + WordBytes(start) + seq(4, _ => 0);
    CopyBytes(entry, ATTRIBUTES_AT, fields);
    assert entry[..] == base + ext + fields;
    return entry[..];
  }

  class FileSystem {
    const geo: Geometry
    /** The sector buffer. */
    const temp: array<Byte>
    /** The word that lies in memory right after the sector buffer. */
    const overrun: Word
    var disk: seq<Sector>
    var cached: nat
    var file: Descriptor

    /** The cache always holds the sector it claims to hold. */
    ghost predicate Valid()
      reads this, temp
    {
      && geo.Valid()
      && |disk| == geo.numSectors
      && temp.Length == SECTOR_BYTES
      && cached < |disk|
      && temp[..] == disk[cached]
    }

    ghost function Vol(): (v: Volume)
      reads this
      requires geo.Valid() && |disk| == geo.numSectors
      ensures Fits(geo, v)
    {
      View(geo, disk)
    }

    ghost function St(): (st: State)
      reads this
      requires geo.Valid() && |disk| == geo.numSectors
      ensures Fits(geo, st.vol)
    {
      State(Vol(), file)
    }

    /** Reads the layout from the boot sector, which is then the cached one. */
    constructor Mount(disk0: seq<Sector>, overrun: Word)
      requires 0 < |disk0| && WordAt(disk0[0], 0x0b) == SECTOR_BYTES
      requires var g := BootGeometry(disk0[0]); g.Valid() && g.numSectors == |disk0|
      ensures Valid() && disk == disk0 && geo == BootGeometry(disk0[0]) && this.overrun == overrun
      ensures file.mode != FMODE_READ && file.mode != FMODE_WRITE
      ensures fresh(temp)
    {
      geo := BootGeometry(disk0[0]);
      this.overrun := overrun;
      disk := disk0;
      cached := 0;
      file := Descriptor([], 0, 0, 0, 0, 0, 0, 0);
      var boot := disk0[0];
      temp := new Byte[SECTOR_BYTES](i requires 0 <= i < SECTOR_BYTES => boot[i]);
      new;
      assert temp[..] == boot;
    }

    // ----- The sector cache -----

    method ReadSectorCached(sector: nat, force: bool)
      requires Valid() && sector < |disk|
      modifies this`cached, temp
      ensures Valid() && cached == sector
    {
      if force || cached != sector {
        forall i | 0 <= i < SECTOR_BYTES {
          temp[i] := disk[sector][i];
        }
        cached := sector;
        assert temp[..] == disk[sector];
      }
    }

    // ----- The allocation table -----

    method FatNextCluster(cluster: Word) returns (next: Word)
      requires Valid() && cluster < geo.limit
      modifies this`cached, temp
      ensures Valid() && next == Vol().fat[cluster]
    {
      var clusterBytes := cluster * 2 % 0x1_0000;
      var fatSector := geo.fatRegion + clusterBytes / SECTOR_BYTES;
      var entry := clusterBytes % SECTOR_BYTES;
      ReadSectorCached(fatSector, false);
      next := WordAt(temp[..], entry);
      FatAddressExact(cluster);
      assert next == FatEntry(geo, disk, cluster);
    }

    method FatSetCluster(cluster: Word, next: Word)
      requires Valid() && cluster < geo.limit
      modifies this`cached, this`disk, temp
      ensures Valid() && Vol() == old(Vol()).(fat := old(Vol()).fat[cluster := next])
    {
      hide ToWord, WordBytes, Overwrite, View;
      var clusterBytes := cluster * 2 % 0x1_0000;
      var fatSector := geo.fatRegion + clusterBytes / SECTOR_BYTES;
      var entry := clusterBytes % SECTOR_BYTES;
      ReadSectorCached(fatSector, false);
      PutWord(temp, entry, next);
      FatAddressExact(cluster);
      FatWrite(geo, disk, cluster, next);
      disk := disk[fatSector := temp[..]];
    }

    /** Entry `within` of a sector of the table. */
    method FatEntryIn(sector: nat, within: nat) returns (entry: Word)
      requires Valid() && geo.fatRegion <= sector < geo.rootRegion && within < ENTRIES_PER_SECTOR
      modifies this`cached, temp
      ensures Valid() && entry == Vol().fat[(sector - geo.fatRegion) * ENTRIES_PER_SECTOR + within]
    {
      ReadSectorCached(sector, false);
      entry := WordAt(temp[..], within * 2);
      ghost var c := (sector - geo.fatRegion) * ENTRIES_PER_SECTOR + within;
      assert c / ENTRIES_PER_SECTOR == sector - geo.fatRegion && c % ENTRIES_PER_SECTOR == within;
      assert entry == FatEntry(geo, disk, c);
    }

    /** The first free entry as the driver counts: 257 entries to a sector, the last of them past
        the end of the buffer. */
    method FatFindFreeCluster() returns (cluster: Word)
      requires Valid()
      modifies this`cached, temp
      ensures Valid() && |Vol().fat| % ENTRIES_PER_SECTOR == 0
      ensures cluster == SearchGives(Vol().fat, overrun)
      ensures var least := LeastFree(Vol().fat, FIRST_CLUSTER);
              cluster == (if least < |Vol().fat| then least else 0) <==> SearchExact(Vol().fat, overrun)
    {
      hide View, LeastFree, SearchFrom, SearchExact;
      var candidate: Word, within, sector := FIRST_CLUSTER, FIRST_CLUSTER, geo.fatRegion;
      var entry: Word := CLUSTER_EOF;
      ghost var fat, i: nat := Vol().fat, 0;
      SearchFromExact(fat, overrun);
      while true
        invariant Valid() && Vol().fat == fat
        invariant sector == geo.fatRegion + i < geo.rootRegion && 0 <= within <= ENTRIES_PER_SECTOR
        invariant candidate == (i * (ENTRIES_PER_SECTOR + 1) + within) % 0x1_0000
        invariant SearchFrom(fat, overrun, ENTRIES_PER_SECTOR, i, within)
               == SearchFrom(fat, overrun, ENTRIES_PER_SECTOR, 0, FIRST_CLUSTER)
        decreases geo.rootRegion - sector, ENTRIES_PER_SECTOR + 1 - within
      {
        SearchStep(fat, overrun, i, within);
        if within < ENTRIES_PER_SECTOR {
          entry := FatEntryIn(sector, within);
        } else {
          ReadSectorCached(sector, false);
          entry := overrun;
        }
        if entry == CLUSTER_FREE { return candidate; }
        WrapNext(i * (ENTRIES_PER_SECTOR + 1) + within);
        candidate := (candidate + 1) % 0x1_0000;
        within := within + 1;
        if within > ENTRIES_PER_SECTOR {
          within := 0;
          sector := sector + 1;
          i := i + 1;
        }
        if sector == geo.rootRegion { break; }
      }
      SearchPast(fat, overrun, i);
      return 0;
    }

    method FatAllocateStartCluster() returns (cluster: Word)
      requires Valid() && SearchGives(Vol().fat, overrun) < geo.limit
      modifies this`cached, this`disk, temp
      ensures Valid() && cluster == SearchGives(old(Vol()).fat, overrun)
      ensures var v := old(Vol()); Vol() == if cluster == 0 then v else v.(fat := v.fat[cluster := CLUSTER_EOF])
      ensures var v, least := old(Vol()), LeastFree(old(Vol()).fat, FIRST_CLUSTER);
              SearchSafe(geo, v.fat, overrun) ==>
                if least < |v.fat| then cluster == least && Vol() == Taken(geo, v)
                else cluster == 0 && Vol() == v
    {
      hide View;
      cluster := FatFindFreeCluster();
      if cluster != 0 {
        FatSetCluster(cluster, CLUSTER_EOF);
      }
    }

    method FatAllocateCluster(cluster: Word) returns (next: Word)
      requires Valid() && cluster < geo.limit && SearchGives(Vol().fat, overrun) < geo.limit
      modifies this`cached, this`disk, temp
      ensures Valid() && next == SearchGives(old(Vol()).fat, overrun)
      ensures var v := old(Vol()); Vol() == if next == 0 then v else v.(fat := Extended(v.fat, cluster, next))
      ensures var v, least := old(Vol()), LeastFree(old(Vol()).fat, FIRST_CLUSTER);
              SearchSafe(geo, v.fat, overrun) ==>
                if least < |v.fat| then next == least && Vol() == v.(fat := Extended(v.fat, cluster, least))
                else next == 0 && Vol() == v
    {
      hide View;
      next := FatFindFreeCluster();
      if next != 0 {
        FatSetCluster(cluster, next);
        FatSetCluster(next, CLUSTER_EOF);
      }
    }

    // ----- Writing -----

    /** Copies bytes into the data sector under the position and writes it back. */
    method StoreInSector(bytes: seq<Byte>, offset: nat)
      requires Valid() && Ready(geo, St()) && offset == file.offset && offset + |bytes| <= SECTOR_BYTES
      modifies this`cached, this`disk, this`file, temp
      ensures Valid() && St() == Store(geo, old(St()), bytes)
    {
      hide SectorOf, FatEntry, DirSlot;
      var sector := geo.dataRegion + StartSector(geo, file.current) + file.sector;
      ghost var s := CurrentSector(geo, St());
      ReadSectorCached(sector, false);
      CopyBytes(temp, offset, bytes);
      DataWrite(geo, disk, s, temp[..]);
      disk := disk[sector := temp[..]];
      file := file.(fpos := file.fpos + |bytes|, size := file.size + |bytes|, offset := file.offset + |bytes|);
    }

    /** Appends bytes inside one sector. A completed sector moves the position on, and a completed
        cluster takes another one; with none left the position stays past the cluster. */
    method WriteSector(bytes: seq<Byte>, offset: nat) returns (e: int)
      requires Valid() && Ready(geo, St()) && offset == file.offset
      requires CompletesCluster(geo, file, |bytes|) ==> SearchSafe(geo, Vol().fat, overrun)
      modifies this`cached, this`disk, this`file, temp
      ensures Valid()
      ensures var st := old(St());
              if offset + |bytes| > SECTOR_BYTES then e == E_SECTOREND && St() == st
              else if CompletesCluster(geo, st.file, |bytes|)
                      && LeastFree(st.vol.fat, FIRST_CLUSTER) == |st.vol.fat| then
                e == E_DISKFULL && Vol() == Store(geo, st, bytes).vol
                && file == Store(geo, st, bytes).file.(offset := 0, sector := geo.spc)
              else e == 0 && St() == Advance(geo, Store(geo, st, bytes))
    {
      hide View, SectorOf;
      if offset + |bytes| > SECTOR_BYTES { return E_SECTOREND; }
      StoreInSector(bytes, offset);
      if file.offset == SECTOR_BYTES {
        file := file.(offset := 0, sector := file.sector + 1);
        if file.sector == geo.spc {
          var next := FatNextCluster(file.current);
          if next == CLUSTER_EOF {
            next := FatAllocateCluster(file.current);
            if next == 0 { return E_DISKFULL; }
          }
          file := file.(current := next, sector := 0);
        }
      }
      return 0;
    }

    /** Of `bytes`, the first `n` are written and there is room for the others. */
    ghost predicate Appended(st: State, bytes: seq<Byte>, n: int)
      reads this
    {
      && geo.Valid() && |disk| == geo.numSectors
      && 0 <= n <= |bytes|
      && CanWrite(geo, st, |bytes|) && CanWrite(geo, st, n)
      && St() == WriteBytes(geo, st, bytes[..n])
    }

    /** Appends bytes: the rest of a partly filled sector, whole sectors, and what remains. */
    method Write(bytes: seq<Byte>, fd: int) returns (count: int)
      requires Valid() && |bytes| < 0x1_0000
      requires fd == 0 && file.mode == FMODE_WRITE ==> CanWrite(geo, St(), |bytes|)
      modifies this`cached, this`disk, this`file, temp
      ensures Valid()
      ensures if fd == 0 && old(file.mode) == FMODE_WRITE
              then count == |bytes| && St() == WriteBytes(geo, old(St()), bytes)
              else count == 0 && St() == old(St())
    {
      hide View, SectorOf, ClusterIndex, CanWrite, PutChunk, WriteBytes, Ready, Store, Advance;
      if fd < 0 || fd >= FILE_LIMIT { return 0; }
      if file.mode != FMODE_WRITE { return 0; }
      ghost var st := St();
      count := 0;
      NothingAppended(geo, st, |bytes|);
      if file.offset != 0 {
        var limit := SECTOR_BYTES - file.offset;
        var size := if |bytes| < limit then |bytes| else limit;
        AppendNext(geo, st, bytes, 0, size);
        var e := WriteSector(bytes[..size], file.offset);
        if e != 0 { return 0; }
        count := size;
      }
      assert count < |bytes| ==> file.offset == 0;
      assert bytes[..|bytes|] == bytes;
      if count == |bytes| { return; }
      var full := (|bytes| - count) / SECTOR_BYTES;
      ghost var before := count;
      for i := 0 to full
        invariant Valid() && count == before + i * SECTOR_BYTES
        invariant Appended(st, bytes, count) && file.offset == 0
      {
        AppendNext(geo, st, bytes, count, SECTOR_BYTES);
        var e := WriteSector(bytes[count..count + SECTOR_BYTES], 0);
        if e != 0 { return 0; }
        count := count + SECTOR_BYTES;
      }
      if count == |bytes| { return; }
      AppendNext(geo, st, bytes, count, |bytes| - count);
      var e := WriteSector(bytes[count..], 0);
      count := |bytes|;
    }

    // ----- Reading -----

    method ReadByte() returns (c: int)
      requires Valid() && (file.fpos != file.size && file.current != CLUSTER_EOF ==> InCluster(geo, Vol(), file))
      modifies this`cached, this`file, temp
      ensures Valid()
      ensures var (b, d) := GetByte(geo, Vol(), old(file));
              file == d && c == (if b.None? then KERNEL_EOF else b.value)
      ensures c == KERNEL_EOF || 0 <= c < 0x100
    {
      hide View, SectorOf;
      if file.fpos == file.size { return KERNEL_EOF; }
      if file.current == CLUSTER_EOF { return KERNEL_EOF; }
      SectorInData(geo, file.current, file.sector);
      var sector := geo.dataRegion + StartSector(geo, file.current) + file.sector;
      ReadSectorCached(sector, false);
      DataSectors();
      c := temp[file.offset];
      assert c == disk[sector][file.offset] == SectorUnder(geo, Vol(), file)[file.offset];
      file := file.(fpos := file.fpos + 1, offset := file.offset + 1);
      if file.offset == SECTOR_BYTES {
        file := file.(sector := file.sector + 1, offset := 0);
        if file.sector == geo.spc {
          var next := FatNextCluster(file.current);
          file := file.(current := next, sector := 0);
        }
      }
    }

    lemma DataSectors()
      requires Valid()
      ensures Vol().data == disk[geo.dataRegion..]
    {
    }

    /** A whole sector, straight from the disk. */
    method ReadSector() returns (c: int, bytes: seq<Byte>)
      requires Valid() && file.offset == 0
      requires file.fpos != file.size && file.current != CLUSTER_EOF ==> InCluster(geo, Vol(), file)
      modifies this`cached, this`file, temp
      ensures Valid()
      ensures var v, d := Vol(), old(file);
              if d.fpos == d.size || d.current == CLUSTER_EOF then c == KERNEL_EOF && bytes == [] && file == d
              else
                c == 0 && bytes == SectorUnder(geo, v, d) && file == Moved(geo, v, d, SECTOR_BYTES)
    {
      hide View, SectorOf;
      if file.fpos == file.size { return KERNEL_EOF, []; }
      if file.current == CLUSTER_EOF { return KERNEL_EOF, []; }
      SectorInData(geo, file.current, file.sector);
      DataSectors();
      bytes := disk[geo.dataRegion + StartSector(geo, file.current) + file.sector];
      file := file.(fpos := file.fpos + SECTOR_BYTES, sector := file.sector + 1);
      if file.sector == geo.spc {
        var next := FatNextCluster(file.current);
        file := file.(current := next, sector := 0);
      }
      return 0, bytes;
    }

    /** Reads bytes up to a sector boundary, then whole sectors, then what remains. */
    method Read(request: Word, fd: int, ghost k: nat) returns (bytes: seq<Byte>)
      requires Valid()
      requires fd == 0 && file.mode == FMODE_READ ==> OpenForReading(geo, St(), k)
      modifies this`cached, this`file, temp
      ensures Valid()
      ensures fd != 0 || old(file.mode) != FMODE_READ ==> bytes == [] && file == old(file)
      ensures fd == 0 && old(file.mode) == FMODE_READ ==>
                && (ReadExact(old(file), request) ==> (bytes, St()) == ReadBytes(geo, old(St()), k, request))
                && (|bytes| == Available(old(file), request) <==> ReadExact(old(file), request))
                && (!ReadExact(old(file), request) ==> StartsWith(geo, old(St()), bytes))
    {
      hide View, SectorOf, ClusterIndex, SectorIndex, GetByte, Moved, ReadBytes, SectorUnder, Underway, OpenForReading, StartsWith;
      if fd < 0 || fd >= FILE_LIMIT { return []; }
      if file.mode != FMODE_READ { return []; }
      bytes := [];
      ghost var st, exact := St(), ReadExact(file, request);
      UnderwayStart(geo, st, k, request);
      var n: Word := request;
      if file.size - file.fpos < n {
        n := file.size - file.fpos;
      }
      ghost var m := n;
      while file.offset != 0
        invariant Valid() && file.offset < SECTOR_BYTES
        invariant if exact || bytes != [] then Underway(geo, st, St(), k, m, n, bytes, exact)
                  else St() == st && n == 0
        invariant n == 0 && exact && file.offset != 0 ==> file.fpos == file.size
        decreases if file.offset == 0 then 0 else SECTOR_BYTES - file.offset
      {
        if exact || bytes != [] {
          UnderwayByte(geo, st, St(), k, m, n, bytes, exact);
        }
        ghost var before: int := n;
        ghost var got := GetByte(geo, st.vol, file);
        var c := ReadByte();
        assert file == got.1 && (c == KERNEL_EOF <==> got.0.None?);
        if c == KERNEL_EOF { UnderwayEnd(geo, st, St(), k, request, n, bytes, exact); return; }
        bytes := bytes + [c];
        n := (n - 1) % 0x1_0000;
        if !exact && |bytes| == 1 {
          assert bytes == [c];
          Recount(geo, st, St(), k, 0, 0, m, n, bytes);
        } else if !exact {
          Recount(geo, st, St(), k, m, before - 1, m, n, bytes);
        }
        if n == 0 { UnderwayEnd(geo, st, St(), k, request, n, bytes, exact); return; }
      }
      var full := n / SECTOR_BYTES;
      ghost var before := n;
      for i := 0 to full
        invariant Valid() && file.offset == 0 && n == before - i * SECTOR_BYTES
        invariant Underway(geo, st, St(), k, m, n, bytes, exact)
      {
        UnderwaySector(geo, st, St(), k, m, n, bytes, exact);
        var c, sector := ReadSector();
        if c == KERNEL_EOF { UnderwayEnd(geo, st, St(), k, request, n, bytes, exact); return; }
        bytes := bytes + sector;
        n := n - SECTOR_BYTES;
      }
      if n == 0 { UnderwayEnd(geo, st, St(), k, request, n, bytes, exact); return; }
      for i := 0 to n
        invariant Valid() && Underway(geo, st, St(), k, m, n - i, bytes, exact)
      {
        UnderwayByte(geo, st, St(), k, m, n - i, bytes, exact);
        ghost var got := GetByte(geo, st.vol, file);
        var c := ReadByte();
        assert file == got.1 && (c == KERNEL_EOF <==> got.0.None?);
        if c == KERNEL_EOF { UnderwayEnd(geo, st, St(), k, request, n - i, bytes, exact); return; }
        bytes := bytes + [c];
      }
      UnderwayEnd(geo, st, St(), k, request, 0, bytes, exact);
    }

    // ----- The root directory -----

    lemma SlotInSector(sector: nat, f: nat)
      requires Valid() && geo.rootRegion <= sector < geo.dataRegion && f < SECTOR_BYTES && f % SLOT_BYTES == 0
      ensures var k := (sector - geo.rootRegion) * SLOTS_PER_SECTOR + f / SLOT_BYTES;
              k < |Vol().dir| && Vol().dir[k] == disk[sector][f..f + SLOT_BYTES]
              && k / SLOTS_PER_SECTOR == sector - geo.rootRegion && k % SLOTS_PER_SECTOR * SLOT_BYTES == f
    {
      var k := (sector - geo.rootRegion) * SLOTS_PER_SECTOR + f / SLOT_BYTES;
      assert k / SLOTS_PER_SECTOR == sector - geo.rootRegion && k % SLOTS_PER_SECTOR == f / SLOT_BYTES;
      assert Vol().dir[k] == DirSlot(geo, disk, k);
    }

    /** The scan of one directory sector: stops at the first match or never-used slot. */
    method ScanSector(name: Name, sector: nat, buf: array<Byte>) returns (f: nat)
      requires Valid() && geo.rootRegion <= sector < geo.dataRegion && buf.Length == NAME_BUF && buf != temp
      requires Scanning(Vol().dir, name, (sector - geo.rootRegion) * SLOTS_PER_SECTOR)
      modifies this`cached, temp, buf
      ensures Valid() && cached == sector
      ensures f <= SECTOR_BYTES && f % SLOT_BYTES == 0
      ensures Scanning(Vol().dir, name, (sector - geo.rootRegion) * SLOTS_PER_SECTOR + f / SLOT_BYTES)
      ensures f < SECTOR_BYTES ==>
                var slot := disk[sector][f..f + SLOT_BYTES];
                IsEnd(slot) || Matches(slot, name)
    {
      hide View, LookupFrom, LookupEnds, NameOf;
      ReadSectorCached(sector, true);
      f := 0;
      while f < SECTOR_BYTES
        invariant Valid() && cached == sector
        invariant f <= SECTOR_BYTES && f % SLOT_BYTES == 0
        invariant Scanning(Vol().dir, name, (sector - geo.rootRegion) * SLOTS_PER_SECTOR + f / SLOT_BYTES)
      {
        ghost var slot := disk[sector][f..f + SLOT_BYTES];
        SlotInSector(sector, f);
        assert temp[f..f + SLOT_BYTES] == slot;
        assert temp[f] == slot[0] && temp[f + ATTRIBUTES_AT] == slot[ATTRIBUTES_AT];
        if temp[f] == 0 { return; }
        if temp[f] != FREE_MARK && temp[f + ATTRIBUTES_AT] / 8 % 4 == 0 {
          Filename(temp[f..f + SLOT_BYTES], buf);
          if CString(buf[..]) == name { return; }
        }
        assert !IsEnd(slot) && !Matches(slot, name);
        ScanNext(Vol().dir, name, (sector - geo.rootRegion) * SLOTS_PER_SECTOR + f / SLOT_BYTES);
        f := f + SLOT_BYTES;
      }
    }

    /** The scan shared by lookup, update and removal: it leaves the sector with the entry in the
        buffer and says where the entry is. The driver's loop has no bound of its own. */
    method FindEntry(name: Name) returns (found: bool, sector: nat, f: nat)
      requires Valid() && LookupEnds(Vol().dir, name)
      modifies this`cached, temp
      ensures Valid()
      ensures found <==> Lookup(Vol().dir, name).Some?
      ensures found ==> cached == sector && geo.rootRegion <= sector < geo.dataRegion
                        && f < SECTOR_BYTES && f % SLOT_BYTES == 0
                        && Lookup(Vol().dir, name)
                           == Some((sector - geo.rootRegion) * SLOTS_PER_SECTOR + f / SLOT_BYTES)
    {
      hide View, LookupEnds, NameOf;
      var buf := new Byte[NAME_BUF];
      sector := geo.rootRegion;
      while true
        invariant Valid() && fresh(buf)
        invariant geo.rootRegion <= sector
        invariant Scanning(Vol().dir, name, (sector - geo.rootRegion) * SLOTS_PER_SECTOR)
        decreases geo.dataRegion - sector
      {
        ScanInside(Vol().dir, name, (sector - geo.rootRegion) * SLOTS_PER_SECTOR);
        f := ScanSector(name, sector, buf);
        if f < SECTOR_BYTES {
          SlotInSector(sector, f);
          return temp[f] != 0, sector, f;
        }
        sector := sector + 1;
      }
    }

    method GetDirectoryEntry(name: Name) returns (error: int, slot: Slot)
      requires Valid() && LookupEnds(Vol().dir, name)
      modifies this`cached, temp
      ensures Valid()
      ensures match Lookup(Vol().dir, name)
              case None => error == E_FILENOTFOUND
              case Some(k) => error == 0 && slot == Vol().dir[k]
    {
      hide View, LookupEnds;
      var found, sector, f := FindEntry(name);
      if !found { return E_FILENOTFOUND, seq(SLOT_BYTES, _ => 0); }
      SlotInSector(sector, f);
      return 0, temp[f..f + SLOT_BYTES];
    }

    /** Rewrites one slot of the cached directory sector and writes the sector back. */
    method PutSlot(sector: nat, f: nat, slot: Slot)
      requires Valid() && cached == sector && geo.rootRegion <= sector < geo.dataRegion
      requires f < SECTOR_BYTES && f % SLOT_BYTES == 0
      modifies this`disk, temp
      ensures Valid()
      ensures var k, v := (sector - geo.rootRegion) * SLOTS_PER_SECTOR + f / SLOT_BYTES, old(Vol());
              k < |v.dir| && Vol() == v.(dir := v.dir[k := slot])
    {
      hide View;
      ghost var k := (sector - geo.rootRegion) * SLOTS_PER_SECTOR + f / SLOT_BYTES;
      SlotInSector(sector, f);
      CopyBytes(temp, f, slot);
      DirWrite(geo, disk, k, slot);
      disk := disk[sector := temp[..]];
    }

    method SetDirectoryEntry(slot: Slot, name: Name) returns (error: int)
      requires Valid() && LookupEnds(Vol().dir, name)
      modifies this`cached, this`disk, temp
      ensures Valid()
      ensures match Lookup(old(Vol()).dir, name)
              case None => error == E_FILENOTFOUND && Vol() == old(Vol())
              case Some(k) => error == 0 && Vol() == old(Vol()).(dir := old(Vol()).dir[k := slot])
    {
      hide View, LookupEnds;
      var found, sector, f := FindEntry(name);
      if !found { return E_FILENOTFOUND; }
      PutSlot(sector, f, slot);
      return 0;
    }

    method MarkDirectoryEntryFree(name: Name) returns (error: int)
      requires Valid() && LookupEnds(Vol().dir, name)
      modifies this`cached, this`disk, temp
      ensures Valid()
      ensures match Lookup(old(Vol()).dir, name)
              case None => error == E_FILENOTFOUND && Vol() == old(Vol())
              case Some(k) => error == 0 && Vol() == old(Vol()).(dir := old(Vol()).dir[k := Freed(old(Vol()).dir[k])])
    {
      hide View, LookupEnds;
      var found, sector, f := FindEntry(name);
      if !found { return E_FILENOTFOUND; }
      SlotInSector(sector, f);
      PutSlot(sector, f, Overwrite(temp[f..f + SLOT_BYTES], 0, [FREE_MARK]));
      return 0;
    }

    /** The first unused slot of a sector, or its end. */
    method UnusedInSector(sector: nat) returns (f: nat)
      requires Valid() && geo.rootRegion <= sector < geo.dataRegion
      requires var k := (sector - geo.rootRegion) * SLOTS_PER_SECTOR;
               k <= |Vol().dir| && FirstUnused(Vol().dir) == FirstUnusedFrom(Vol().dir, k)
      modifies this`cached, temp
      ensures Valid() && cached == sector && f <= SECTOR_BYTES && f % SLOT_BYTES == 0
      ensures var k := (sector - geo.rootRegion) * SLOTS_PER_SECTOR + f / SLOT_BYTES;
              k <= |Vol().dir| && FirstUnused(Vol().dir) == FirstUnusedFrom(Vol().dir, k)
              && (f < SECTOR_BYTES ==> k == FirstUnused(Vol().dir) < |Vol().dir|)
    {
      hide View;
      ReadSectorCached(sector, false);
      f := 0;
      while f < SECTOR_BYTES
        invariant Valid() && cached == sector && f <= SECTOR_BYTES && f % SLOT_BYTES == 0
        invariant var k := (sector - geo.rootRegion) * SLOTS_PER_SECTOR + f / SLOT_BYTES;
                  k <= |Vol().dir| && FirstUnused(Vol().dir) == FirstUnusedFrom(Vol().dir, k)
      {
        SlotInSector(sector, f);
        assert temp[f] == disk[sector][f..f + SLOT_BYTES][0];
        if temp[f] == 0 || temp[f] == FREE_MARK { return; }
        f := f + SLOT_BYTES;
      }
    }

    /** Puts an entry into the first unused slot. */
    method FileCreate(slot: Slot) returns (r: int)
      requires Valid()
      modifies this`cached, this`disk, temp
      ensures Valid()
      ensures var v, u := old(Vol()), FirstUnused(old(Vol()).dir);
              if u < |v.dir| then r == 0 && Vol() == v.(dir := v.dir[u := slot]) else r == 1 && Vol() == v
    {
      hide View, FirstUnusedFrom;
      var sector := geo.rootRegion;
      while true
        invariant Valid() && Vol() == old(Vol()) && geo.rootRegion <= sector < geo.dataRegion
        invariant var k := (sector - geo.rootRegion) * SLOTS_PER_SECTOR;
                  k <= |Vol().dir| && FirstUnused(Vol().dir) == FirstUnusedFrom(Vol().dir, k)
        decreases geo.dataRegion - sector
      {
        var f := UnusedInSector(sector);
        if f < SECTOR_BYTES {
          PutSlot(sector, f, slot);
          return 0;
        }
        sector := sector + 1;
        if sector == geo.dataRegion { return 1; }
      }
    }

    // ----- Opening, closing, deleting -----

    method OpenRead() returns (error: int)
      requires Valid() && LookupEnds(Vol().dir, file.name)
      modifies this`cached, this`file, temp
      ensures Valid()
      ensures match Lookup(Vol().dir, old(file.name))
              case None => error == E_FILENOTFOUND && file == old(file)
              case Some(k) =>
                error == 0
                && file == AtStart(old(file.name), FMODE_READ, SizeOf(Vol().dir[k]), StartOf(Vol().dir[k]))
    {
      hide View, LookupEnds;
      var e, slot := GetDirectoryEntry(file.name);
      if e != 0 { return e; }
      file := AtStart(file.name, FMODE_READ, SizeOf(slot), StartOf(slot));
      return 0;
    }

    /** Creates a file: the order of the checks is the driver's, so a bad name costs a cluster. */
    method OpenWrite() returns (error: int)
      requires Valid() && LookupEnds(Vol().dir, file.name) && SearchSafe(geo, Vol().fat, overrun)
      requires |file.name| <= NAME_MAX
      modifies this`cached, this`disk, this`file, temp
      ensures Valid()
      ensures var v, name := old(Vol()), old(file.name);
              if Lookup(v.dir, name).Some? then error == E_FILEEXIST && St() == old(St())
              else if LeastFree(v.fat, FIRST_CLUSTER) == |v.fat| then error == E_DISKFULL && St() == old(St())
              else if DOT !in name then error == E_INVALIDFILENAME && Vol() == Taken(geo, v) && file == old(file)
              else error == 0 && FirstUnused(v.dir) < |v.dir| && St() == Created(geo, v, name)
      ensures var v, name := old(Vol()), old(file.name);
              (Lookup(v.dir, name).None? ==> FirstUnused(v.dir) < |v.dir|) && Vol() == AfterCreate(geo, v, name)
    {
      hide View, LookupFrom, LookupEnds;
      ghost var v := Vol();
      EndBeforeData(v.dir, file.name);
      var e, slot := GetDirectoryEntry(file.name);
      if e != E_FILENOTFOUND { return E_FILEEXIST; }
      var start := FatAllocateStartCluster();
      if start == 0 { return E_DISKFULL; }
      if DOT !in file.name { return E_INVALIDFILENAME; }
      slot := MakeEntry(file.name, start);
      var r := FileCreate(slot);
      if r != 0 {
        // E_DIRFULL cannot be reached: the lookup above only ends at a slot that is still unused.
        assert false;
      }
      file := AtStart(file.name, FMODE_WRITE, 0, start);
      return 0;
    }

    method Open(filename: Name, mode: Byte) returns (fd: int)
      requires Valid() && LookupEnds(Vol().dir, Canonical(filename))
      requires mode == FMODE_WRITE ==> SearchSafe(geo, Vol().fat, overrun)
      modifies this`cached, this`disk, this`file, temp
      ensures Valid()
      ensures var v, name := old(Vol()), Canonical(filename);
              && (mode == FMODE_READ ==>
                    Vol() == v
                    && match Lookup(v.dir, name)
                       case None => fd == E_FILENOTFOUND && file == old(file).(name := name)
                       case Some(k) =>
                         fd == 0 && file == AtStart(name, FMODE_READ, SizeOf(v.dir[k]), StartOf(v.dir[k])))
              && (mode == FMODE_WRITE ==>
                    if Lookup(v.dir, name).Some? then
                      fd == E_FILEEXIST && Vol() == v && file == old(file).(name := name)
                    else if LeastFree(v.fat, FIRST_CLUSTER) == |v.fat| then
                      fd == E_DISKFULL && Vol() == v && file == old(file).(name := name)
                    else if DOT !in name then
                      fd == E_INVALIDFILENAME && Vol() == Taken(geo, v) && file == old(file).(name := name)
                    else fd == 0 && FirstUnused(v.dir) < |v.dir| && St() == Created(geo, v, name))
              && (mode != FMODE_READ && mode != FMODE_WRITE ==>
                    fd == E_INVALIDMODE && Vol() == v && file == old(file).(name := name))
    {
      hide View, LookupFrom, LookupEnds;
      file := file.(name := Canonical(filename));
      var error: int;
      if mode == FMODE_READ {
        error := OpenRead();
      } else if mode == FMODE_WRITE {
        error := OpenWrite();
      } else {
        return E_INVALIDMODE;
      }
      if error < 0 { return error; }
      return 0;
    }

    /** Records the size of a file opened for writing. */
    method Close()
      requires Valid() && file.size < 0x1_0000_0000
      requires file.mode == FMODE_WRITE ==> LookupEnds(Vol().dir, file.name)
      modifies this`cached, this`disk, temp
      ensures Valid()
      ensures var st, k := old(St()), Lookup(old(Vol()).dir, file.name);
              if file.mode == FMODE_WRITE && k.Some? then St() == Closed(geo, st, k.value) else St() == st
    {
      hide View, LookupFrom, LookupEnds;
      if file.mode == FMODE_WRITE {
        var e, slot := GetDirectoryEntry(file.name);
        e := SetDirectoryEntry(Resized(slot, file.size), file.name);
      }
    }

    /** Frees the clusters of a file one after the other, then its slot. */
    method Delete(filename: Name) returns (error: int)
      requires Valid() && Sound(geo, Vol())
      modifies this`cached, this`disk, temp
      ensures Valid()
      ensures match Lookup(old(Vol()).dir, Canonical(filename))
              case None => error == E_FILENOTFOUND && Vol() == old(Vol())
              case Some(k) => error == 0 && Vol() == Deleted(geo, old(Vol()), k)
    {
      hide View, LookupFrom, LookupEnds, ClusterIndex;
      var name := Canonical(filename);
      ghost var v := Vol();
      SoundLookupEnds(v, name);
      var e, slot := GetDirectoryEntry(name);
      if e != 0 { return e; }
      ghost var k, i := Lookup(v.dir, name).value, 0;
      assert Owns(geo, v, k);
      ghost var ch := ChainAt(geo, v, k);
      var cluster := StartOf(slot);
      assert Released(v.fat, ch[..0]) == v.fat;
      while cluster != CLUSTER_EOF
        invariant Valid() && 0 <= i <= |ch| && cluster == (if i < |ch| then ch[i] else CLUSTER_EOF)
        invariant Vol() == v.(fat := Released(v.fat, ch[..i]))
        decreases |ch| - i
      {
        DeleteStep(v.fat, geo.limit, ch, i);
        var next := FatNextCluster(cluster);
        FatSetCluster(cluster, CLUSTER_FREE);
        cluster := next;
        i := i + 1;
      }
      assert ch[..i] == ch;
      error := MarkDirectoryEntryFree(name);
    }

    // ----- Listing -----

    /** Counts the files of a directory sector, up to `limit` of them: stops at a never-used slot or
        at the file that makes the count reach the limit. */
    method CountSector(sector: nat, limit: nat, count0: nat) returns (f: nat, count: nat, ended: bool)
      requires Valid() && geo.rootRegion <= sector < geo.dataRegion && count0 <= limit
      requires Counted(Vol().dir, (sector - geo.rootRegion) * SLOTS_PER_SECTOR, count0)
      modifies this`cached, temp
      ensures Valid() && cached == sector && f <= SECTOR_BYTES && f % SLOT_BYTES == 0 && count <= limit
      ensures var k := (sector - geo.rootRegion) * SLOTS_PER_SECTOR + f / SLOT_BYTES;
              && Counted(Vol().dir, k, count)
              && (f < SECTOR_BYTES ==> k < |Vol().dir|)
              && (f < SECTOR_BYTES ==> if ended then IsEnd(Vol().dir[k]) else IsFile(Vol().dir[k]) && count == limit)
    {
      hide View, ListingFrom;
      ReadSectorCached(sector, true);
      f, count, ended := 0, count0, false;
      while f < SECTOR_BYTES
        invariant Valid() && cached == sector && f <= SECTOR_BYTES && f % SLOT_BYTES == 0 && count <= limit
        invariant Counted(Vol().dir, (sector - geo.rootRegion) * SLOTS_PER_SECTOR + f / SLOT_BYTES, count)
      {
        ghost var k := (sector - geo.rootRegion) * SLOTS_PER_SECTOR + f / SLOT_BYTES;
        SlotInSector(sector, f);
        assert temp[f..f + SLOT_BYTES] == Vol().dir[k];
        assert temp[f] == Vol().dir[k][0] && temp[f + ATTRIBUTES_AT] == Vol().dir[k][ATTRIBUTES_AT];
        if temp[f] == 0 { ended := true; return; }
        CountNext(Vol().dir, k, count);
        if temp[f] != FREE_MARK && temp[f + ATTRIBUTES_AT] / 8 % 4 == 0 {
          if count == limit { return; }
          count := count + 1;
        }
        f := f + SLOT_BYTES;
      }
    }

    /** How many files the root directory lists. */
    method Entries() returns (entries: nat)
      requires Valid()
      modifies this`cached, temp
      ensures Valid() && entries == |Listing(Vol().dir)| < 0x1_0000
    {
      hide View, ListingFrom;
      entries := 0;
      var sector := geo.rootRegion;
      while sector != geo.dataRegion
        invariant Valid() && geo.rootRegion <= sector <= geo.dataRegion
        invariant Counted(Vol().dir, (sector - geo.rootRegion) * SLOTS_PER_SECTOR, entries)
        decreases geo.dataRegion - sector
      {
        CountBound(Vol().dir, (sector - geo.rootRegion) * SLOTS_PER_SECTOR, entries);
        var f, count, ended := CountSector(sector, 0x1_0000, entries);
        entries := count;
        CountBound(Vol().dir, (sector - geo.rootRegion) * SLOTS_PER_SECTOR + f / SLOT_BYTES, entries);
        CountEnd(Vol().dir, (sector - geo.rootRegion) * SLOTS_PER_SECTOR + f / SLOT_BYTES, entries);
        if f < SECTOR_BYTES { return; }
        sector := sector + 1;
      }
      CountEnd(Vol().dir, |Vol().dir|, entries);
      CountBound(Vol().dir, |Vol().dir|, entries);
    }

    /** The name of the listed file with the given index. */
    method Entry(index: Word) returns (error: int, name: Name)
      requires Valid()
      modifies this`cached, temp
      ensures Valid()
      ensures if index < |Listing(Vol().dir)| then error == 0 && name == NameOf(Vol().dir[Listing(Vol().dir)[index]])
              else error == E_FILENOTFOUND
    {
      hide View, ListingFrom, NameOf;
      var buf := new Byte[NAME_BUF];
      var sector, n := geo.rootRegion, 0;
      while sector != geo.dataRegion
        invariant Valid() && geo.rootRegion <= sector <= geo.dataRegion && 0 <= n <= index && fresh(buf)
        invariant Counted(Vol().dir, (sector - geo.rootRegion) * SLOTS_PER_SECTOR, n)
        decreases geo.dataRegion - sector
      {
        var f, count, ended := CountSector(sector, index, n);
        n := count;
        ghost var k := (sector - geo.rootRegion) * SLOTS_PER_SECTOR + f / SLOT_BYTES;
        CountEnd(Vol().dir, k, n);
        if f < SECTOR_BYTES {
          if ended { return E_FILENOTFOUND, []; }
          SlotInSector(sector, f);
          Filename(temp[f..f + SLOT_BYTES], buf);
          return 0, CString(buf[..]);
        }
        sector := sector + 1;
      }
      CountEnd(Vol().dir, |Vol().dir|, n);
      return E_FILENOTFOUND, [];
    }
  }

  /** A lookup that ends without a match ends at a never-used slot, so a slot is left for the file. */
  lemma EndBeforeData(dir: seq<Slot>, name: Name)
    requires LookupEnds(dir, name)
    ensures Lookup(dir, name) == None ==> FirstUnused(dir) < |dir|
  {
    if Lookup(dir, name) == None {
      NoMatchFrom(dir, name, 0);
    }
  }

  lemma {:induction false} NoMatchFrom(dir: seq<Slot>, name: Name, k: nat)
    requires k <= |dir| && LookupFrom(dir, name, k) == None
    requires exists j :: k <= j < |dir| && (IsEnd(dir[j]) || Matches(dir[j], name))
    ensures exists j :: k <= j < |dir| && IsEnd(dir[j])
    decreases |dir| - k
  {
    if k < |dir| && !IsEnd(dir[k]) {
      NoMatchFrom(dir, name, k + 1);
    }
  }

  lemma DeleteStep(fat: seq<Word>, limit: nat, ch: seq<nat>, i: nat)
    requires IsChain(fat, limit, ch) && i < |ch|
    ensures Released(fat, ch[..i])[ch[i]] == Link(ch, i)
    ensures Released(fat, ch[..i])[ch[i] := CLUSTER_FREE] == Released(fat, ch[..i + 1])
  {
    forall j | 0 <= j < i ensures ch[j] != ch[i] {
      ChainDistinct(fat, limit, ch, j, i);
    }
    assert ch[..i + 1] == ch[..i] + [ch[i]];
  }

  lemma SoundLookupEnds(v: Volume, name: Name)
    requires DirectoryOk(v.dir)
    ensures LookupEnds(v.dir, name)
  {
  }

  /** The slots before `k` hold the first `n` listed files. */
  ghost predicate Counted(dir: seq<Slot>, k: nat, n: nat) {
    k <= |dir| && n <= |Listing(dir)| && Listing(dir)[n..] == ListingFrom(dir, k)
  }

  lemma CountNext(dir: seq<Slot>, k: nat, n: nat)
    requires Counted(dir, k, n) && k < |dir| && !IsEnd(dir[k])
    ensures Counted(dir, k + 1, if IsFile(dir[k]) then n + 1 else n)
    ensures IsFile(dir[k]) ==> n < |Listing(dir)| && Listing(dir)[n] == k
  {
    if IsFile(dir[k]) {
      assert Listing(dir)[n..][1..] == Listing(dir)[n + 1..];
      assert Listing(dir)[n..][0] == k;
    }
  }

  lemma CountEnd(dir: seq<Slot>, k: nat, n: nat)
    requires Counted(dir, k, n)
    ensures k == |dir| || IsEnd(dir[k]) ==> n == |Listing(dir)|
    ensures k < |dir| && IsFile(dir[k]) ==> n < |Listing(dir)| && Listing(dir)[n] == k
  {
    if k < |dir| && IsFile(dir[k]) {
      assert Listing(dir)[n..][0] == k;
    }
  }

  lemma {:induction false} ListingShort(dir: seq<Slot>, k: nat)
    requires k <= |dir|
    ensures |ListingFrom(dir, k)| <= |dir| - k
    decreases |dir| - k
  {
    if k < |dir| && !IsEnd(dir[k]) {
      ListingShort(dir, k + 1);
    }
  }

  lemma CountBound(dir: seq<Slot>, k: nat, n: nat)
    requires Counted(dir, k, n)
    ensures n <= |Listing(dir)| <= |dir|
  {
    ListingShort(dir, 0);
  }

  /** Where the scan for a name stands: slot `k` is next, and no earlier one matched or ended it. */
  ghost predicate Scanning(dir: seq<Slot>, name: Name, k: nat) {
    && k <= |dir|
    && LookupEnds(dir, name)
    && Lookup(dir, name) == LookupFrom(dir, name, k)
    && (forall j :: 0 <= j < k ==> !IsEnd(dir[j]) && !Matches(dir[j], name))
  }

  lemma ScanInside(dir: seq<Slot>, name: Name, k: nat)
    requires Scanning(dir, name, k)
    ensures k < |dir|
  {
    var stop :| 0 <= stop < |dir| && (IsEnd(dir[stop]) || Matches(dir[stop], name));
    assert k <= stop;
  }

  lemma ScanNext(dir: seq<Slot>, name: Name, k: nat)
    requires Scanning(dir, name, k) && k < |dir| && !IsEnd(dir[k]) && !Matches(dir[k], name)
    ensures Scanning(dir, name, k + 1)
  {
    hide Matches;
  }

  lemma NothingAppended(g: Geometry, st: State, n: nat)
    requires CanWrite(g, st, n)
    ensures Ready(g, st) && st.file.offset < SECTOR_BYTES && CanWrite(g, st, 0) && WriteBytes(g, st, []) == st
  {
    hide SectorOf;
    ClusterIndexMonotone(g, Used(st.file), Used(st.file) + n);
  }

  lemma RoomForPrefix(g: Geometry, st: State, m: nat, n: nat)
    requires CanWrite(g, st, n) && m <= n
    ensures CanWrite(g, st, m)
  {
    hide SectorOf, ClusterIndex, SearchLimit, FreeBelow;
    ClusterIndexMonotone(g, Used(st.file) + m, Used(st.file) + n);
  }

  /** One sector write takes the bytes from `n` on that fit, and needs no failing search. */
  lemma AppendNext(g: Geometry, st: State, bytes: seq<Byte>, n: nat, size: nat)
    requires n + size <= |bytes| && CanWrite(g, st, |bytes|) && CanWrite(g, st, n)
    requires WriteBytes(g, st, bytes[..n]).file.offset + size <= SECTOR_BYTES
    ensures CanWrite(g, st, n + size)
    ensures var now, chunk := WriteBytes(g, st, bytes[..n]), bytes[n..n + size];
            && Ready(g, now) && SearchLimit(g) <= |now.vol.fat|
            && (CompletesCluster(g, now.file, size) ==> LeastFree(now.vol.fat, FIRST_CLUSTER) < SearchLimit(g))
            && Advance(g, Store(g, now, chunk)) == WriteBytes(g, st, bytes[..n + size])
            && WriteBytes(g, st, bytes[..n + size]).file.offset == (now.file.offset + size) % SECTOR_BYTES
  {
    hide SectorOf, ClusterIndex, Store, Advance, WriteBytes;
    RoomForPrefix(g, st, n + size, |bytes|);
    var now, chunk := WriteBytes(g, st, bytes[..n]), bytes[n..n + size];
    assert bytes[..n + size] == bytes[..n] + chunk;
    WriteSplit(g, st, bytes[..n], chunk);
    RoomToAdvance(g, now, size);
    ChunkIsBytes(g, now, chunk);
    ChunkOffset(g, now, chunk);
  }

  lemma ChunkOffset(g: Geometry, st: State, bs: seq<Byte>)
    requires CanWrite(g, st, |bs|) && st.file.offset + |bs| <= SECTOR_BYTES
    ensures PutChunk(g, st, bs).file.offset == (st.file.offset + |bs|) % SECTOR_BYTES
  {
    hide SectorOf, ClusterIndex;
  }

  lemma WrapNext(n: nat)
    ensures (n % 0x1_0000 + 1) % 0x1_0000 == (n + 1) % 0x1_0000
  {
  }

  /** The search for a free cluster, from entry `within` of FAT sector `i` on. A sector is left when the
      entry passes `last`. In the driver that is one too many, and what it reads past its buffer is `overrun`. */
  function SearchFrom(fat: seq<Word>, overrun: Word, last: nat, i: nat, within: nat): Word
    requires ENTRIES_PER_SECTOR - 1 <= last <= ENTRIES_PER_SECTOR
    requires within <= last && |fat| % ENTRIES_PER_SECTOR == 0
    decreases if i * ENTRIES_PER_SECTOR < |fat| then |fat| - i * ENTRIES_PER_SECTOR else 0, last + 1 - within
  {
    if i * ENTRIES_PER_SECTOR >= |fat| then 0
    else
      var entry := if within < ENTRIES_PER_SECTOR then fat[i * ENTRIES_PER_SECTOR + within] else overrun;
      if entry == CLUSTER_FREE then (i * (last + 1) + within) % 0x1_0000
      else if within < last then SearchFrom(fat, overrun, last, i, within + 1)
      else SearchFrom(fat, overrun, last, i + 1, 0)
  }

  lemma SearchStep(fat: seq<Word>, overrun: Word, i: nat, within: nat)
    requires within <= ENTRIES_PER_SECTOR && |fat| % ENTRIES_PER_SECTOR == 0 && i * ENTRIES_PER_SECTOR < |fat|
    ensures var entry := if within < ENTRIES_PER_SECTOR then fat[i * ENTRIES_PER_SECTOR + within] else overrun;
            SearchFrom(fat, overrun, ENTRIES_PER_SECTOR, i, within)
            == if entry == CLUSTER_FREE then (i * (ENTRIES_PER_SECTOR + 1) + within) % 0x1_0000
               else if within < ENTRIES_PER_SECTOR then SearchFrom(fat, overrun, ENTRIES_PER_SECTOR, i, within + 1)
               else SearchFrom(fat, overrun, ENTRIES_PER_SECTOR, i + 1, 0)
  {
  }

  lemma SearchPast(fat: seq<Word>, overrun: Word, i: nat)
    requires |fat| % ENTRIES_PER_SECTOR == 0 && |fat| <= i * ENTRIES_PER_SECTOR
    ensures SearchFrom(fat, overrun, ENTRIES_PER_SECTOR, i, 0) == 0
  {
  }

  /** What the search gives: past the first sector, a number too high by the sectors passed; or 256, if the
      word behind the buffer passes for a free entry. */
  function SearchGives(fat: seq<Word>, overrun: Word): Word
    requires FIRST_CLUSTER <= |fat|
  {
    var least := LeastFree(fat, FIRST_CLUSTER);
    if least < ENTRIES_PER_SECTOR then least
    else if overrun == CLUSTER_FREE then ENTRIES_PER_SECTOR
    else if least == |fat| then 0
    else (least + least / ENTRIES_PER_SECTOR) % 0x1_0000
  }

  lemma {:induction false} SearchFromGives(fat: seq<Word>, overrun: Word, i: nat, within: nat)
    requires within <= ENTRIES_PER_SECTOR && |fat| % ENTRIES_PER_SECTOR == 0
    requires FIRST_CLUSTER <= i * ENTRIES_PER_SECTOR + within && FIRST_CLUSTER <= |fat|
    requires forall c :: FIRST_CLUSTER <= c < i * ENTRIES_PER_SECTOR + within && c < |fat| ==> fat[c] != CLUSTER_FREE
    requires 0 < i ==> overrun != 0
    ensures SearchFrom(fat, overrun, ENTRIES_PER_SECTOR, i, within) == SearchGives(fat, overrun)
    decreases if i * ENTRIES_PER_SECTOR < |fat| then |fat| - i * ENTRIES_PER_SECTOR else 0, ENTRIES_PER_SECTOR + 1 - within
  {
    var c := i * ENTRIES_PER_SECTOR + within;
    if i * ENTRIES_PER_SECTOR >= |fat| {
      LeastFreeUnique(fat, FIRST_CLUSTER, |fat|);
    } else if within < ENTRIES_PER_SECTOR {
      if fat[c] == CLUSTER_FREE {
        LeastFreeUnique(fat, FIRST_CLUSTER, c);
      } else {
        SearchFromGives(fat, overrun, i, within + 1);
      }
    } else if overrun == CLUSTER_FREE {
      assert ENTRIES_PER_SECTOR <= LeastFree(fat, FIRST_CLUSTER);
    } else {
      SearchFromGives(fat, overrun, i + 1, 0);
    }
  }

  /** What the search gives is the least free cluster exactly under SearchExact. */
  lemma SearchFromExact(fat: seq<Word>, overrun: Word)
    requires |fat| % ENTRIES_PER_SECTOR == 0 && FIRST_CLUSTER <= |fat| < ENTRIES_PER_SECTOR * 0x1_0000
    ensures SearchFrom(fat, overrun, ENTRIES_PER_SECTOR, 0, FIRST_CLUSTER) == SearchGives(fat, overrun)
    ensures var least := LeastFree(fat, FIRST_CLUSTER);
            SearchFrom(fat, overrun, ENTRIES_PER_SECTOR, 0, FIRST_CLUSTER) == (if least < |fat| then least else 0)
            <==> SearchExact(fat, overrun)
  {
    SearchFromGives(fat, overrun, 0, FIRST_CLUSTER);
  }

  /** Where the search is not exact, it takes an entry away from a file if and only if the first FAT sector
      is full and the entry it gives is not free. */
  lemma SearchTakesFile(g: Geometry, v: Volume, overrun: Word)
    requires Sound(g, v) && Leakless(g, v) && FIRST_CLUSTER <= SearchGives(v.fat, overrun) < g.limit
    ensures InSomeFile(g, v, SearchGives(v.fat, overrun)) <==>
              ENTRIES_PER_SECTOR <= LeastFree(v.fat, FIRST_CLUSTER) && v.fat[SearchGives(v.fat, overrun)] != CLUSTER_FREE
  {
    hide FileAt, ChainAt, DirectoryOk, Owns;
    InUseExactly(g, v, SearchGives(v.fat, overrun));
  }

  /** Leaving each sector one entry earlier, at its end, makes the search exact on every table, whatever
      lies behind the buffer. The driver does not do this. */
  lemma {:induction false} CorrectedSearchExact(fat: seq<Word>, overrun: Word, i: nat, within: nat)
    requires within < ENTRIES_PER_SECTOR && |fat| % ENTRIES_PER_SECTOR == 0 && FIRST_CLUSTER <= |fat| <= 0x1_0000
    requires FIRST_CLUSTER <= i * ENTRIES_PER_SECTOR + within
    requires forall c :: FIRST_CLUSTER <= c < i * ENTRIES_PER_SECTOR + within && c < |fat| ==> fat[c] != CLUSTER_FREE
    ensures var least := LeastFree(fat, FIRST_CLUSTER);
            SearchFrom(fat, overrun, ENTRIES_PER_SECTOR - 1, i, within) == if least < |fat| then least else 0
    decreases if i * ENTRIES_PER_SECTOR < |fat| then |fat| - i * ENTRIES_PER_SECTOR else 0, ENTRIES_PER_SECTOR - within
  {
    var c := i * ENTRIES_PER_SECTOR + within;
    if i * ENTRIES_PER_SECTOR >= |fat| {
      LeastFreeUnique(fat, FIRST_CLUSTER, |fat|);
    } else if fat[c] == CLUSTER_FREE {
      LeastFreeUnique(fat, FIRST_CLUSTER, c);
    } else if within + 1 < ENTRIES_PER_SECTOR {
      CorrectedSearchExact(fat, overrun, i, within + 1);
    } else {
      CorrectedSearchExact(fat, overrun, i + 1, 0);
    }
  }

  /** With two FAT sectors of which the first is full, and cluster 256 free, the search gives 257. */
  lemma SecondSectorMisnumbered(overrun: Word)
    requires overrun != 0
    ensures var fat: seq<Word> := seq(2 * ENTRIES_PER_SECTOR, c => if c == ENTRIES_PER_SECTOR then CLUSTER_FREE else CLUSTER_EOF);
            && LeastFree(fat, FIRST_CLUSTER) == 256
            && SearchFrom(fat, overrun, ENTRIES_PER_SECTOR, 0, FIRST_CLUSTER) == 257
  {
    var fat: seq<Word> := seq(2 * ENTRIES_PER_SECTOR, c => if c == ENTRIES_PER_SECTOR then CLUSTER_FREE else CLUSTER_EOF);
    LeastFreeUnique(fat, FIRST_CLUSTER, ENTRIES_PER_SECTOR);
    SearchFromExact(fat, overrun);
  }
}
