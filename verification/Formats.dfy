/** The disk format byte by byte: where the driver's tables, names and file contents lie on the disk. */
module Formats {
  import opened Bytes
  import opened Volumes
  import opened Positions
  import opened Names
  import opened Chains
  import opened Directory
  import opened Files
  import opened FileSystems

  // ----- The boot sector -----

  /** The fields of a boot sector, at their places: bytes per sector, sectors per cluster, reserved sectors,
      FATs, root entries, sectors (small or large count) and sectors per FAT. */
  predicate BootFields(boot: Sector, spc: Byte, reserved: Word, fats: Byte, entries: Word, small: Word, large: DWord,
                       perFat: Word)
  {
    && boot[0x0b..0x0d] == [0x00, 0x02]
    && boot[0x0d..0x0e] == [spc]
    && boot[0x0e..0x10] == [reserved % 0x100, reserved / 0x100]
    && boot[0x10..0x11] == [fats]
    && boot[0x11..0x13] == [entries % 0x100, entries / 0x100]
    && boot[0x13..0x15] == [small % 0x100, small / 0x100]
    && boot[0x16..0x18] == [perFat % 0x100, perFat / 0x100]
    && boot[0x20..0x24] == [large % 0x100, large / 0x100 % 0x100, large / 0x1_0000 % 0x100, large / 0x100_0000]
  }

  lemma WordRead(s: seq<Byte>, i: nat, w: Word)
    requires i + 2 <= |s| && s[i..i + 2] == [w % 0x100, w / 0x100]
    ensures WordAt(s, i) == w
  {
    assert s[i] == s[i..i + 2][0] && s[i + 1] == s[i..i + 2][1];
    TwoBytes([s[i], s[i + 1]]);
  }

  lemma DWordRead(s: seq<Byte>, i: nat, d: DWord)
    requires i + 4 <= |s|
    requires s[i..i + 4] == [d % 0x100, d / 0x100 % 0x100, d / 0x1_0000 % 0x100, d / 0x100_0000]
    ensures DWordAt(s, i) == d
  {
    hide ToWord;
    var bs := s[i..i + 4];
    FourBytes(bs);
    DWordParts(d);
    WordRead(bs, 0, d % 0x1_0000);
    WordRead(bs, 2, d / 0x1_0000);
    hide LittleEndian;
  }

  lemma DWordParts(d: DWord)
    ensures d / 0x100 % 0x100 == d % 0x1_0000 / 0x100 && d / 0x100_0000 == d / 0x1_0000 / 0x100
    ensures d % 0x1_0000 % 0x100 == d % 0x100
  {
  }

  lemma FieldsRead(boot: Sector, spc: Byte, reserved: Word, fats: Byte, entries: Word, small: Word, large: DWord,
                   perFat: Word)
    requires BootFields(boot, spc, reserved, fats, entries, small, large, perFat)
    ensures WordAt(boot, 0x0b) == 512 && boot[0x0d] == spc && WordAt(boot, 0x0e) == reserved && boot[0x10] == fats
    ensures WordAt(boot, 0x11) == entries && WordAt(boot, 0x13) == small && WordAt(boot, 0x16) == perFat
    ensures DWordAt(boot, 0x20) == large
  {
    hide WordAt, DWordAt;
    WordRead(boot, 0x0b, 512);
    WordRead(boot, 0x0e, reserved);
    WordRead(boot, 0x11, entries);
    WordRead(boot, 0x13, small);
    WordRead(boot, 0x16, perFat);
    DWordRead(boot, 0x20, large);
    assert boot[0x0d] == boot[0x0d..0x0e][0] && boot[0x10] == boot[0x10..0x11][0];
  }

  /** The layout that is mounted: the FATs follow the reserved sectors, the root directory follows all FATs
      and takes 32 bytes an entry, the data follows it. */
  lemma MountedLayout(boot: Sector, spc: Byte, reserved: Word, fats: Byte, entries: Word, small: Word, large: DWord,
                      perFat: Word)
    requires BootFields(boot, spc, reserved, fats, entries, small, large, perFat) && fats * perFat < 0x1_0000
    ensures WordAt(boot, 0x0b) == 512
    ensures var g := BootGeometry(boot);
            && g.fatRegion == reserved && g.rootRegion == reserved + fats * perFat && g.spc == spc
            && 32 * entries - 512 < 512 * (g.dataRegion - g.rootRegion) <= 32 * entries
            && g.numSectors == if small != 0 then small else large
  {
    hide WordAt, DWordAt, BootFields, ClusterLimit;
    FieldsRead(boot, spc, reserved, fats, entries, small, large, perFat);
    SmallProduct(fats, perFat);
  }

  lemma SmallProduct(a: nat, b: nat)
    requires a * b < 0x1_0000
    ensures b * a % 0x1_0000 == a * b
  {
  }

  /** A cluster is used if and only if it has an entry below 0x8000, and its sectors lie on the disk and in
      reach of 16-bit arithmetic. */
  lemma ClustersMounted(boot: Sector, c: nat)
    requires var g := BootGeometry(boot); 0 < g.spc && g.dataRegion <= g.numSectors && FIRST_CLUSTER <= c
    ensures var g := BootGeometry(boot);
            c < g.limit <==>
              && c < 0x8000 && c < 256 * (g.rootRegion - g.fatRegion)
              && (c - 1) * g.spc <= 0x1_0000 && g.dataRegion + (c - 1) * g.spc <= g.numSectors
  {
    var g := BootGeometry(boot);
    QuotientAtLeast(Min(g.numSectors - g.dataRegion, 0x1_0000), g.spc, c - 1);
  }

  lemma QuotientAtLeast(n: nat, d: nat, k: nat)
    requires 0 < d
    ensures k <= n / d <==> k * d <= n
  {
    assert n == n / d * d + n % d;
    MulGap(k, n / d, d);
    MulGap(n / d, k, d);
  }

  /** An ordinary disk: 1 reserved sector, 2 FATs of 32 sectors, 512 root entries, 65000 sectors, 4 a cluster. */
  lemma OrdinaryLayout(boot: Sector)
    requires BootFields(boot, 4, 1, 2, 512, 65000, 0, 32)
    ensures BootGeometry(boot) == Geometry(1, 65, 97, 4, 16227, 65000)
  {
    MountedLayout(boot, 4, 1, 2, 512, 65000, 0, 32);
  }

  // ----- Bytes of the whole disk -----

  /** Byte `i` of the disk. */
  function Image(disk: seq<Sector>, i: nat): Byte
    requires i < 512 * |disk|
  {
    disk[i / 512][i % 512]
  }

  lemma ImageAt(disk: seq<Sector>, s: nat, o: nat)
    requires s < |disk| && o < 512
    ensures 512 * s + o < 512 * |disk| && Image(disk, 512 * s + o) == disk[s][o]
  {
  }

  /** Entry `c` of the table is two bytes, low byte first. */
  lemma TableBytes(g: Geometry, disk: seq<Sector>, c: nat)
    requires g.Valid() && |disk| == g.numSectors && c < |View(g, disk).fat|
    ensures var at := 512 * g.fatRegion + 2 * c;
            && at + 1 < 512 * |disk|
            && var low: int, high: int := Image(disk, at), Image(disk, at + 1);
               View(g, disk).fat[c] == low + 0x100 * high
  {
    var s, o := g.fatRegion + c / 256, c % 256 * 2;
    ImageAt(disk, s, o);
    ImageAt(disk, s, o + 1);
    assert 512 * s + o == 512 * g.fatRegion + 2 * c;
    assert View(g, disk).fat[c] == FatEntry(g, disk, c);
    TwoBytes([disk[s][o], disk[s][o + 1]]);
  }

  /** Byte `i` of directory slot `k`. */
  lemma SlotBytes(g: Geometry, disk: seq<Sector>, k: nat, i: nat)
    requires g.Valid() && |disk| == g.numSectors && k < |View(g, disk).dir| && i < 32
    ensures var at := 512 * g.rootRegion + 32 * k + i;
            at < 512 * |disk| && View(g, disk).dir[k][i] == Image(disk, at)
  {
    var s, o := g.rootRegion + k / 16, k % 16 * 32 + i;
    ImageAt(disk, s, o);
    assert 512 * s + o == 512 * g.rootRegion + 32 * k + i;
    assert View(g, disk).dir[k] == DirSlot(g, disk, k);
  }

  // ----- Directory entries -----

  /** What an entry's bytes mean: the first byte, bits 3 and 4 of the attributes, start cluster and size. */
  lemma EntryFields(s: Slot)
    ensures IsFile(s) <==> s[0] != 0x00 && s[0] != 0xe5 && s[11] / 8 % 2 == 0 && s[11] / 16 % 2 == 0
    ensures var low: int, high: int := s[26], s[27]; StartOf(s) == low + 0x100 * high
    ensures var b0: int, b1: int, b2: int, b3: int := s[28], s[29], s[30], s[31];
            SizeOf(s) == b0 + 0x100 * b1 + 0x1_0000 * b2 + 0x100_0000 * b3
  {
    TwoBytes([s[26], s[27]]);
    var bs := s[28..32];
    FourBytes(bs);
    TwoBytes([bs[0], bs[1]]);
    TwoBytes([bs[2], bs[3]]);
  }

  /** A name as it is stored: eight bytes for the base and three for the extension, filled with spaces. */
  predicate StoredAs(raw: seq<Byte>, base: seq<Byte>, ext: seq<Byte>) {
    && |base| <= 8 && |ext| <= 3
    && raw == base + seq(8 - |base|, _ => 0x20) + (ext + seq(3 - |ext|, _ => 0x20))
  }

  /** What is stored that way is read as the base, a dot and the extension. */
  lemma NameRead(s: Slot, base: seq<Byte>, ext: seq<Byte>)
    requires StoredAs(s[..11], base, ext) && 0 !in base + ext && 0x20 !in base + ext
    ensures NameOf(s) == base + [0x2e] + ext
  {
    var left, right := base + seq(8 - |base|, _ => 0x20), ext + seq(3 - |ext|, _ => 0x20);
    assert s[..11][..8] == left && s[..11][8..11] == right;
    assert s[..8] == s[..11][..8] && s[8..11] == s[..11][8..11];
    assert forall i :: 0 <= i < |base| ==> base[i] in base + ext;
    assert forall i :: 0 <= i < |ext| ==> ext[i] in base + ext;
    IndexOfUnique(left, SPACE, |base|);
    IndexOfUnique(right, SPACE, |ext|);
    assert left[..|base|] == base && right[..|ext|] == ext;
    var dotted := base + [DOT] + ext;
    IndexOfUnique(dotted, 0, |dotted|);
    assert dotted[..|dotted|] == dotted;
  }

  /** And such a name is stored that way, with its start cluster, empty, by the driver. */
  lemma NameStored(base: seq<Byte>, ext: seq<Byte>, cluster: Word)
    requires |base| <= 8 && |ext| <= 3 && DOT !in base
    ensures StoredAs(NewSlot(base + [0x2e] + ext, cluster)[..11], base, ext)
    ensures StartOf(NewSlot(base + [0x2e] + ext, cluster)) == cluster && SizeOf(NewSlot(base + [0x2e] + ext, cluster)) == 0
    ensures NewSlot(base + [0x2e] + ext, cluster)[11..26] == [0, 0, 0, 0, 0, 0x21, 0, 0, 0, 0, 0, 0, 0, 0, 0]
  {
    var name := base + [DOT] + ext;
    IndexOfUnique(name, DOT, |base|);
    assert Base(name) == base && Extension(name) == ext;
  }

  // ----- Contents of files -----

  /** A file's chain starts at the cluster in its entry, and follows the table up to the mark 0xffff. */
  lemma FileChain(g: Geometry, v: Volume, k: nat, i: nat)
    requires Sound(g, v) && FileAt(v.dir, k) && i < |ChainAt(g, v, k)|
    ensures ChainAt(g, v, k)[0] == StartOf(v.dir[k]) && 2 <= ChainAt(g, v, k)[i] < |v.fat|
    ensures v.fat[ChainAt(g, v, k)[i]] == if i + 1 < |ChainAt(g, v, k)| then ChainAt(g, v, k)[i + 1] else 0xffff
  {
    hide DirectoryOk, IsFile, SectorOf, ClusterIndex;
    assert Owns(g, v, k);
    ChainFound(v.fat, g.limit, ChainAt(g, v, k));
  }

  /** Byte `r` of cluster number `q` of a file: clusters lie one after the other from the start of the data,
      where cluster 2 is. */
  lemma FileByteAddress(g: Geometry, disk: seq<Sector>, v: Volume, k: nat, size: nat, q: nat, r: nat, p: nat)
    requires g.Valid() && |disk| == g.numSectors && v == View(g, disk) && Sound(g, v) && FileAt(v.dir, k)
    requires size == 512 * g.spc && r < size && p == q * size + r && p < |FileBytes(g, v, k)|
    ensures q < |ChainAt(g, v, k)| && 2 <= ChainAt(g, v, k)[q]
    ensures var at := 512 * g.dataRegion + (ChainAt(g, v, k)[q] - 2) * size + r;
            0 <= at < 512 * |disk| && FileBytes(g, v, k)[p] == Image(disk, at)
  {
    PlaceInCluster(g, p, size, q, r);
    FileByteSector(g, v, k, p);
    hide View, IsFile, DirectoryOk, ClusterIndex, SectorIndex, SectorOf, IsChain, ChainAt, Image, FileBytes, Owns, Sound, FileAt;
    var c, s := ChainAt(g, v, k)[q], SectorIndex(g, p);
    SectorAddress(g, c, s, size);
    DataSectors(g, disk, SectorOf(g, c, s));
    ImageAt(disk, g.dataRegion + SectorOf(g, c, s), p % 512);
  }

  lemma PlaceInCluster(g: Geometry, p: nat, size: nat, q: nat, r: nat)
    requires size == 512 * g.spc && r < size && p == q * size + r
    ensures ClusterIndex(g, p) == q && SectorIndex(g, p) * 512 + p % 512 == r
  {
    hide ClusterIndex, SectorIndex;
    ClusterIndexIsDivision(g, p);
    DivUnique(p, size, q, r);
  }

  lemma FileByteSector(g: Geometry, v: Volume, k: nat, p: nat)
    requires Sound(g, v) && FileAt(v.dir, k) && p < |FileBytes(g, v, k)|
    ensures var ch := ChainAt(g, v, k);
            && ClusterIndex(g, p) < |ch| && 2 <= ch[ClusterIndex(g, p)]
            && var n := SectorOf(g, ch[ClusterIndex(g, p)], SectorIndex(g, p));
               n < |v.data| && FileBytes(g, v, k)[p] == v.data[n][p % 512]
  {
    assert Owns(g, v, k);
    hide IsFile, DirectoryOk, ClusterIndex, SectorIndex, SectorOf, ChainAt;
    ContentsAt(g, v.data, ChainAt(g, v, k), SizeOf(v.dir[k]), p);
  }

  lemma DataSectors(g: Geometry, disk: seq<Sector>, n: nat)
    requires g.Valid() && |disk| == g.numSectors && n < |View(g, disk).data|
    ensures g.dataRegion + n < |disk| && View(g, disk).data[n] == disk[g.dataRegion + n]
  {
  }

  lemma SectorAddress(g: Geometry, c: nat, s: nat, size: nat)
    requires 2 <= c && size == 512 * g.spc
    ensures 512 * SectorOf(g, c, s) == (c - 2) * size + 512 * s
  {
    TimesIsProduct(c - 2, g.spc);
    Regroup(c - 2, g.spc);
  }

  lemma Regroup(n: nat, d: nat)
    ensures 512 * (n * d) == n * (512 * d)
  {
  }
}
