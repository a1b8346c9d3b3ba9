/** The layout of a FAT16 volume and the three tables a disk image represents. */
module Volumes {
  import opened Bytes

  const SECTOR_BYTES := 512
  const SLOT_BYTES := 32
  const SLOTS_PER_SECTOR := 16
  const ENTRIES_PER_SECTOR := 256
  const CLUSTER_EOF: Word := 0xffff
  const CLUSTER_FREE: Word := 0
  const FIRST_CLUSTER := 2

  type Sector = s: seq<Byte> | |s| == SECTOR_BYTES witness seq(SECTOR_BYTES, _ => 0)

  type Slot = s: seq<Byte> | |s| == SLOT_BYTES witness seq(SLOT_BYTES, _ => 0)

  /** n * d by repeated addition. */
  function Times(n: nat, d: nat): nat {
    if n == 0 then 0 else Times(n - 1, d) + d
  }

  /** Region starts, counted in sectors; the cluster size; one past the last cluster that can be used. */
  datatype Geometry = Geometry(fatRegion: nat, rootRegion: nat, dataRegion: nat, spc: nat, limit: nat, numSectors: nat) {

    /** The layouts on which the 16-bit arithmetic of the driver is exact. */
    predicate Valid() {
      && fatRegion < rootRegion < dataRegion <= numSectors < 0x1_0000_0000
      && rootRegion - fatRegion < 0x1_0000
      && dataRegion - rootRegion < 0x1000
      && 0 < spc <= 255
      && FIRST_CLUSTER < limit <= 0x8000
      && limit <= ENTRIES_PER_SECTOR * (rootRegion - fatRegion)
      && Times(limit - FIRST_CLUSTER, spc) <= 0x1_0000
      && Times(limit - FIRST_CLUSTER, spc) <= numSectors - dataRegion
    }

    function FatEntries(): nat
      requires Valid()
    {
      ENTRIES_PER_SECTOR * (rootRegion - fatRegion)
    }

    function DirSlots(): nat
      requires Valid()
    {
      SLOTS_PER_SECTOR * (dataRegion - rootRegion)
    }
  }

  /** What a disk image means: FAT entries, root directory slots and data sectors. */
  datatype Volume = Volume(fat: seq<Word>, dir: seq<Slot>, data: seq<Sector>)

  function FatEntry(g: Geometry, disk: seq<Sector>, c: nat): Word
    requires g.Valid() && |disk| == g.numSectors && c < g.FatEntries()
  {
    WordAt(disk[g.fatRegion + c / ENTRIES_PER_SECTOR], c % ENTRIES_PER_SECTOR * 2)
  }

  function DirSlot(g: Geometry, disk: seq<Sector>, k: nat): Slot
    requires g.Valid() && |disk| == g.numSectors && k < g.DirSlots()
  {
    var at := k % SLOTS_PER_SECTOR * SLOT_BYTES;
    disk[g.rootRegion + k / SLOTS_PER_SECTOR][at..at + SLOT_BYTES]
  }

  function View(g: Geometry, disk: seq<Sector>): (v: Volume)
    requires g.Valid() && |disk| == g.numSectors
  {
    Volume(seq(g.FatEntries(), c requires 0 <= c < g.FatEntries() => FatEntry(g, disk, c)),
           seq(g.DirSlots(), k requires 0 <= k < g.DirSlots() => DirSlot(g, disk, k)),
           disk[g.dataRegion..])
  }

  /** Size agreement between a volume and a layout. */
  predicate Fits(g: Geometry, v: Volume) {
    && g.Valid()
    && |v.fat| == g.FatEntries()
    && |v.dir| == g.DirSlots()
    && |v.data| == g.numSectors - g.dataRegion
  }

  lemma FatEntryWrite(g: Geometry, disk: seq<Sector>, c: nat, w: Word, i: nat)
    requires g.Valid() && |disk| == g.numSectors && c < g.FatEntries() && i < g.FatEntries()
    ensures var s := g.fatRegion + c / ENTRIES_PER_SECTOR;
            FatEntry(g, disk[s := Overwrite(disk[s], c % ENTRIES_PER_SECTOR * 2, WordBytes(w))], i)
            == if i == c then w else FatEntry(g, disk, i)
  {
    if i / ENTRIES_PER_SECTOR == c / ENTRIES_PER_SECTOR && i != c {
      assert i % ENTRIES_PER_SECTOR != c % ENTRIES_PER_SECTOR;
    }
  }

  /** Writing one word of a FAT sector changes that FAT entry and nothing else. */
  lemma FatWrite(g: Geometry, disk: seq<Sector>, c: nat, w: Word)
    requires g.Valid() && |disk| == g.numSectors && c < g.FatEntries()
    ensures var s := g.fatRegion + c / ENTRIES_PER_SECTOR;
            View(g, disk[s := Overwrite(disk[s], c % ENTRIES_PER_SECTOR * 2, WordBytes(w))])
            == View(g, disk).(fat := View(g, disk).fat[c := w])
  {
    var s := g.fatRegion + c / ENTRIES_PER_SECTOR;
    var disk' := disk[s := Overwrite(disk[s], c % ENTRIES_PER_SECTOR * 2, WordBytes(w))];
    assert s < g.rootRegion;
    forall i | 0 <= i < g.FatEntries()
      ensures FatEntry(g, disk', i) == View(g, disk).fat[c := w][i]
    {
      FatEntryWrite(g, disk, c, w, i);
    }
    assert View(g, disk').fat == View(g, disk).fat[c := w];
    assert View(g, disk').dir == View(g, disk).dir;
    assert View(g, disk').data == View(g, disk).data;
  }

  lemma DirSlotWrite(g: Geometry, disk: seq<Sector>, k: nat, slot: Slot, i: nat)
    requires g.Valid() && |disk| == g.numSectors && k < g.DirSlots() && i < g.DirSlots()
    ensures var s := g.rootRegion + k / SLOTS_PER_SECTOR;
            DirSlot(g, disk[s := Overwrite(disk[s], k % SLOTS_PER_SECTOR * SLOT_BYTES, slot)], i)
            == if i == k then slot else DirSlot(g, disk, i)
  {
    if i / SLOTS_PER_SECTOR == k / SLOTS_PER_SECTOR && i != k {
      assert i % SLOTS_PER_SECTOR != k % SLOTS_PER_SECTOR;
    }
  }

  /** Writing 32 bytes of a root directory sector changes that slot and nothing else. */
  lemma DirWrite(g: Geometry, disk: seq<Sector>, k: nat, slot: Slot)
    requires g.Valid() && |disk| == g.numSectors && k < g.DirSlots()
    ensures var s := g.rootRegion + k / SLOTS_PER_SECTOR;
            View(g, disk[s := Overwrite(disk[s], k % SLOTS_PER_SECTOR * SLOT_BYTES, slot)])
            == View(g, disk).(dir := View(g, disk).dir[k := slot])
  {
    var s := g.rootRegion + k / SLOTS_PER_SECTOR;
    var disk' := disk[s := Overwrite(disk[s], k % SLOTS_PER_SECTOR * SLOT_BYTES, slot)];
    assert g.rootRegion <= s < g.dataRegion;
    forall i | 0 <= i < g.DirSlots()
      ensures DirSlot(g, disk', i) == View(g, disk).dir[k := slot][i]
    {
      DirSlotWrite(g, disk, k, slot, i);
    }
    assert View(g, disk').dir == View(g, disk).dir[k := slot];
    assert View(g, disk').fat == View(g, disk).fat;
    assert View(g, disk').data == View(g, disk).data;
  }

  /** Writing a data sector leaves both tables alone. */
  lemma DataWrite(g: Geometry, disk: seq<Sector>, s: nat, sector: Sector)
    requires g.Valid() && |disk| == g.numSectors && s < g.numSectors - g.dataRegion
    ensures View(g, disk[g.dataRegion + s := sector])
            == View(g, disk).(data := View(g, disk).data[s := sector])
  {
    var disk' := disk[g.dataRegion + s := sector];
    assert View(g, disk').fat == View(g, disk).fat;
    assert View(g, disk').dir == View(g, disk).dir;
    assert View(g, disk').data == View(g, disk).data[s := sector];
  }

  // ----- 16-bit addressing -----

  /** The FAT byte offset of a cluster as computed in 16 bits: sector within the FAT, offset in it. */
  function FatAddress(cluster: Word): (nat, nat) {
    var bytes := cluster * 2 % 0x1_0000;
    (bytes / SECTOR_BYTES, bytes % SECTOR_BYTES)
  }

  /** Below 0x8000 the 16-bit address is the exact one. */
  lemma FatAddressExact(c: Word)
    requires c < 0x8000
    ensures FatAddress(c) == (c / ENTRIES_PER_SECTOR, c % ENTRIES_PER_SECTOR * 2)
  {
  }

  /** Two clusters share a FAT address exactly when they agree modulo 0x8000. */
  lemma FatAddressAliases(c1: Word, c2: Word)
    ensures FatAddress(c1) == FatAddress(c2) <==> c1 % 0x8000 == c2 % 0x8000
  {
    assert c1 * 2 % 0x1_0000 == c1 % 0x8000 * 2;
    assert c2 * 2 % 0x1_0000 == c2 % 0x8000 * 2;
  }

  /** The first data sector of a cluster, the product taken in 16 bits, relative to the data region. */
  function StartSector(g: Geometry, cluster: Word): nat {
    (cluster - FIRST_CLUSTER) * g.spc % 0x1_0000
  }
}
