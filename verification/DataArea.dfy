/**
  Where the sectors of the clusters of a volume lie.
 */
module DataArea {
  import opened Arithmetic
  import opened FatChains

  datatype Area = Area(sectorsPerCluster: nat, start: nat)

  /** The first sector of a cluster. */
  function ClusterToSector(a: Area, c: nat): nat
    requires c >= CLUSTER_MIN_GOOD
  {
    (c - CLUSTER_MIN_GOOD) * a.sectorsPerCluster + a.start
  }

  /** The cluster a sector belongs to is found by dividing: the first one has number 2. */
  predicate IsSectorOf(a: Area, sector: nat, c: nat) {
    a.sectorsPerCluster > 0 && sector >= a.start && (sector - a.start) / a.sectorsPerCluster == c - 2
  }

  /** The sectors of a cluster are those from its first one on, as many as a cluster has. */
  lemma SectorsOfCluster(a: Area, sector: nat, c: nat)
    requires a.sectorsPerCluster > 0 && c >= 2
    ensures IsSectorOf(a, sector, c) <==>
            ClusterToSector(a, c) <= sector < ClusterToSector(a, c) + a.sectorsPerCluster
  {
    var n, d := a.sectorsPerCluster, c - 2;
    if sector >= a.start {
      var o := sector - a.start;
      Split(o, n);
      assert n * (o / n) == o / n * n;
      if d * n <= o < d * n + n {
        QuotientIs(o, n, d, o - d * n);
      }
    }
  }

  lemma OneCluster(a: Area, sector: nat, c: nat, d: nat)
    requires IsSectorOf(a, sector, d) && c != d
    ensures !IsSectorOf(a, sector, c)
  {
  }

  lemma NoneInFront(a: Area, sector: nat, c: nat)
    requires sector < a.start
    ensures !IsSectorOf(a, sector, c)
  {
  }

  /** No sector lies in the range of two clusters. */
  lemma SectorsAreDisjoint(a: Area, b: nat, c: nat, sector: nat)
    requires b >= CLUSTER_MIN_GOOD && c >= CLUSTER_MIN_GOOD
    requires ClusterToSector(a, b) <= sector < ClusterToSector(a, b) + a.sectorsPerCluster
    requires ClusterToSector(a, c) <= sector < ClusterToSector(a, c) + a.sectorsPerCluster
    ensures b == c
  {
    hide ClusterToSector;
    SectorsOfCluster(a, sector, b);
    SectorsOfCluster(a, sector, c);
  }

  /** A sector behind all clusters up to last belongs to none of them. */
  lemma SectorBehindAll(a: Area, c: nat, last: nat, sector: nat)
    requires 2 <= c <= last && a.start + (last - 1) * a.sectorsPerCluster <= sector
    ensures !IsSectorOf(a, sector, c)
  {
    if a.sectorsPerCluster > 0 {
      DropMultiple(sector - a.start, a.sectorsPerCluster, last - 1);
    }
  }
}
