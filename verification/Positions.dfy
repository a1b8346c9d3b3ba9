/** Where a byte of a file lives: cluster of the chain, sector of the cluster, offset in the sector. */
module Positions {
  import opened Bytes
  import opened Volumes

  function ClusterIndex(g: Geometry, p: nat): nat
    requires 0 < g.spc
  {
    p / SECTOR_BYTES / g.spc
  }

  function SectorIndex(g: Geometry, p: nat): (s: nat)
    requires 0 < g.spc
    ensures s < g.spc
  {
    p / SECTOR_BYTES % g.spc
  }

  function ClusterBytes(g: Geometry): nat {
    SECTOR_BYTES * g.spc
  }

  lemma {:induction false} TimesIsProduct(n: nat, d: nat)
    ensures Times(n, d) == n * d
  {
    if 0 < n {
      TimesIsProduct(n - 1, d);
      assert n * d == (n - 1) * d + d;
    }
  }

  lemma {:induction false} TimesGap(a: nat, b: nat, d: nat)
    ensures a < b ==> Times(a, d) + d <= Times(b, d)
    decreases b
  {
    if a + 1 < b {
      TimesGap(a, b - 1, d);
    }
  }

  lemma MulGap(a: nat, b: nat, d: nat)
    ensures a < b ==> a * d + d <= b * d
  {
    TimesIsProduct(a, d);
    TimesIsProduct(b, d);
    TimesGap(a, b, d);
  }

  lemma DivUnique(q: nat, d: nat, a: nat, r: nat)
    requires 0 < d && q == a * d + r && r < d
    ensures q / d == a && q % d == r
  {
    assert q == q / d * d + q % d;
    MulGap(q / d, a, d);
    MulGap(a, q / d, d);
  }

  /** The three coordinates determine the position. */
  lemma PositionSplit(g: Geometry, p: nat)
    requires 0 < g.spc
    ensures p == (ClusterIndex(g, p) * g.spc + SectorIndex(g, p)) * SECTOR_BYTES + p % SECTOR_BYTES
  {
  }

  lemma PositionJoin(g: Geometry, i: nat, s: nat, o: nat)
    requires 0 < g.spc && s < g.spc && o < SECTOR_BYTES
    ensures var p := (i * g.spc + s) * SECTOR_BYTES + o;
            ClusterIndex(g, p) == i && SectorIndex(g, p) == s && p % SECTOR_BYTES == o
  {
    var q := i * g.spc + s;
    DivUnique(q * SECTOR_BYTES + o, SECTOR_BYTES, q, o);
    DivUnique(q, g.spc, i, s);
  }

  /** What one byte further means: next offset, next sector, or next cluster. */
  lemma PositionStep(g: Geometry, p: nat)
    requires 0 < g.spc
    ensures if p % SECTOR_BYTES + 1 < SECTOR_BYTES then
              ClusterIndex(g, p + 1) == ClusterIndex(g, p) && SectorIndex(g, p + 1) == SectorIndex(g, p)
              && (p + 1) % SECTOR_BYTES == p % SECTOR_BYTES + 1
            else if SectorIndex(g, p) + 1 < g.spc then
              ClusterIndex(g, p + 1) == ClusterIndex(g, p) && SectorIndex(g, p + 1) == SectorIndex(g, p) + 1
              && (p + 1) % SECTOR_BYTES == 0
            else
              ClusterIndex(g, p + 1) == ClusterIndex(g, p) + 1 && SectorIndex(g, p + 1) == 0
              && (p + 1) % SECTOR_BYTES == 0
  {
    var i, s, o := ClusterIndex(g, p), SectorIndex(g, p), p % SECTOR_BYTES;
    PositionSplit(g, p);
    if o + 1 < SECTOR_BYTES {
      PositionJoin(g, i, s, o + 1);
    } else if s + 1 < g.spc {
      assert p + 1 == (i * g.spc + (s + 1)) * SECTOR_BYTES;
      PositionJoin(g, i, s + 1, 0);
    } else {
      assert p + 1 == ((i + 1) * g.spc + 0) * SECTOR_BYTES + 0 by {
        assert (i + 1) * g.spc == i * g.spc + g.spc;
      }
      PositionJoin(g, i + 1, 0, 0);
    }
  }

  /** The bytes of one sector share its cluster and sector. */
  lemma PositionWithin(g: Geometry, p: nat, i: nat)
    requires 0 < g.spc && p % SECTOR_BYTES == 0 && i < SECTOR_BYTES
    ensures ClusterIndex(g, p + i) == ClusterIndex(g, p) && SectorIndex(g, p + i) == SectorIndex(g, p)
    ensures (p + i) % SECTOR_BYTES == i
  {
    assert (p + i) / SECTOR_BYTES == p / SECTOR_BYTES;
  }

  lemma ClusterIndexMonotone(g: Geometry, p: nat, q: nat)
    requires 0 < g.spc && p <= q
    ensures ClusterIndex(g, p) <= ClusterIndex(g, q)
  {
    PositionSplit(g, p);
    PositionSplit(g, q);
    MulGap(ClusterIndex(g, q), ClusterIndex(g, p), g.spc);
  }

  /** Moving a whole cluster on adds one to the cluster index. */
  lemma ClusterShift(g: Geometry, p: nat)
    requires 0 < g.spc
    ensures ClusterIndex(g, ClusterBytes(g) + p) == 1 + ClusterIndex(g, p)
  {
    PositionSplit(g, p);
    var i, s, o := ClusterIndex(g, p), SectorIndex(g, p), p % SECTOR_BYTES;
    assert ClusterBytes(g) + p == ((i + 1) * g.spc + s) * SECTOR_BYTES + o by {
      assert (i + 1) * g.spc == i * g.spc + g.spc;
    }
    PositionJoin(g, i + 1, s, o);
  }

  /** The cluster index is division by the cluster size. */
  lemma ClusterIndexIsDivision(g: Geometry, p: nat)
    requires 0 < g.spc
    ensures ClusterBytes(g) > 0 && ClusterIndex(g, p) == p / ClusterBytes(g)
    ensures p % ClusterBytes(g) == SectorIndex(g, p) * SECTOR_BYTES + p % SECTOR_BYTES
  {
    PositionSplit(g, p);
    var i, s, o := ClusterIndex(g, p), SectorIndex(g, p), p % SECTOR_BYTES;
    assert p == i * ClusterBytes(g) + (s * SECTOR_BYTES + o);
    assert s * SECTOR_BYTES + o < ClusterBytes(g);
    DivUnique(p, ClusterBytes(g), i, s * SECTOR_BYTES + o);
  }

  /** The data sector number of sector `s` of cluster `c`, without wrap-around. */
  function SectorOf(g: Geometry, c: nat, s: nat): nat
    requires FIRST_CLUSTER <= c
  {
    Times(c - FIRST_CLUSTER, g.spc) + s
  }

  /** Cluster sectors lie in the data region, and the 16-bit product is exact. */
  lemma SectorInData(g: Geometry, c: nat, s: nat)
    requires g.Valid() && FIRST_CLUSTER <= c < g.limit && s < g.spc
    ensures SectorOf(g, c, s) < g.numSectors - g.dataRegion
    ensures SectorOf(g, c, s) == StartSector(g, c) + s
  {
    TimesGap(c - FIRST_CLUSTER, g.limit - FIRST_CLUSTER, g.spc);
    TimesIsProduct(c - FIRST_CLUSTER, g.spc);
  }

  /** Different clusters, or different sectors of one cluster, never share a data sector. */
  lemma SectorInjective(g: Geometry, c1: nat, s1: nat, c2: nat, s2: nat)
    requires FIRST_CLUSTER <= c1 && FIRST_CLUSTER <= c2 && s1 < g.spc && s2 < g.spc
    ensures SectorOf(g, c1, s1) == SectorOf(g, c2, s2) <==> c1 == c2 && s1 == s2
  {
    TimesGap(c1 - FIRST_CLUSTER, c2 - FIRST_CLUSTER, g.spc);
    TimesGap(c2 - FIRST_CLUSTER, c1 - FIRST_CLUSTER, g.spc);
  }
}
