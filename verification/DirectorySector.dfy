/**
  The directory sector buffer of a drive, and the clearing of a cluster through it.
 */
module DirectorySector {
  import opened Bytes
  import opened DataArea
  import opened FatChains
  import opened BlockDevice
  import opened Errors
  import opened FatBytes
  import opened FatCache
  import FatTable

  /** A sector of n bytes that are all zero. */
  predicate IsZero(s: Sector, n: nat) {
    |s| == n && forall i :: 0 <= i < n ==> s[i] == 0
  }

  ghost function ZeroSector(n: nat): (s: Sector)
    ensures IsZero(s, n)
  {
    Zeros(n)
  }

  /** The sectors with count of them from first on set to zero, and no other changed. */
  ghost predicate Zeroed(secs: seq<Sector>, first: nat, count: nat, size: nat, secs': seq<Sector>) {
    && |secs'| == |secs| && first + count <= |secs|
    && forall k :: 0 <= k < |secs| ==> secs'[k] == if first <= k < first + count then ZeroSector(size) else secs[k]
  }

  /** Clusters lie behind the copies of the table: what changes in the sectors from the end
      of the table on changes nothing a reader of the table sees. */
  lemma TableUntouched(g: Geometry, dev: seq<Sector>, dev': seq<Sector>, w: seq<Sector>, start: nat)
    requires Structure(g, dev, w, start) && |dev'| == |dev|
    requires forall k :: g.fatStart <= k < g.fatStart + g.copies * g.fatSize ==> dev'[k] == dev[k]
    ensures Structure(g, dev', w, start)
    ensures Logical(g, dev', w, start) == Logical(g, dev, w, start)
    ensures Clean(g, dev', w, start) <==> Clean(g, dev, w, start)
  {
    forall i | 0 <= i < g.fatSize ensures LogicalAt(g, dev', w, start, i) == LogicalAt(g, dev, w, start, i) {
      AtOrder(g, 0, i);
    }
    AtOrder(g, 0, start);
    AtOrder(g, 0, start + g.cacheSize - 1);
    var base := At(g, 0, start);
    assert forall k :: base <= k < base + g.cacheSize ==> dev'[k] == dev[k];
  }

  /** All sectors of a cluster are there and zero, and no other has changed. */
  ghost predicate IsCleared(area: Area, c: nat, size: nat, secs: seq<Sector>, secs': seq<Sector>)
    requires c >= 2
  {
    && |secs'| == |secs| >= area.start + (c - 1) * area.sectorsPerCluster
    && forall k :: 0 <= k < |secs| ==>
         if IsSectorOf(area, k, c) then IsZero(secs'[k], size) else secs'[k] == secs[k]
  }

  /** Zeroing the sectors from the first one of a cluster on zeroes the sectors of the cluster. */
  lemma ClusterIsZeroed(area: Area, c: nat, size: nat, secs: seq<Sector>, secs': seq<Sector>)
    requires area.sectorsPerCluster > 0 && c >= 2
    requires Zeroed(secs, ClusterToSector(area, c), area.sectorsPerCluster, size, secs')
    ensures IsCleared(area, c, size, secs, secs')
  {
    var first := ClusterToSector(area, c);
    assert first + area.sectorsPerCluster == area.start + (c - 1) * area.sectorsPerCluster;
    hide ClusterToSector, IsSectorOf;
    forall k | 0 <= k < |secs|
      ensures if IsSectorOf(area, k, c) then IsZero(secs'[k], size) else secs'[k] == secs[k]
    {
      SectorsOfCluster(area, k, c);
    }
  }

  class DirectoryBuffer {
    const device: Device
    const readOnly: bool
    const area: Area
    const buffer: array<byte>
    var sectorNumber: nat
    var dirty: bool

    ghost predicate Valid()
      reads this, device
    {
      area.sectorsPerCluster > 0 && (dirty ==> sectorNumber < |device.sectors|)
    }

    /** The disk as the file system sees it: the device, and over it a buffer that has not
        been written back. */
    ghost function Disk(): seq<Sector>
      requires Valid()
      reads this, device, buffer
    {
      if dirty then device.sectors[sectorNumber := buffer[..]] else device.sectors
    }

    /** A clean buffer holds the device sector it claims to hold. */
    ghost predicate IsHonest()
      reads this, device, buffer
    {
      !dirty ==> sectorNumber < |device.sectors| && device.sectors[sectorNumber] == buffer[..]
    }

    /** The clusters lie behind the table, and the buffer waits to be written to no sector of it. */
    ghost predicate IsOutside(g: Geometry)
      reads this
    {
      var end := g.fatStart + g.copies * g.fatSize;
      end <= area.start && (dirty ==> sectorNumber < g.fatStart || end <= sectorNumber)
    }

    constructor (device: Device, readOnly: bool, sectorSize: nat, area: Area)
      requires area.sectorsPerCluster > 0
      ensures Valid() && !dirty && fresh(buffer) && buffer.Length == sectorSize
      ensures this.device == device && this.readOnly == readOnly && this.area == area
    {
      this.device, this.readOnly, this.area := device, readOnly, area;
      this.buffer := new byte[sectorSize];
      this.sectorNumber, this.dirty := 0, false;
    }

    /** Writes the buffer back. The buffer counts as written even when that failed. */
    method FlushDirectorySectorBuffer() returns (error: Error)
      requires Valid()
      modifies this`dirty, device
      ensures Valid() && IsTransferError(error)
      ensures error == NoError <==> device.faults == old(device.faults)
      ensures device.faults >= old(device.faults)
      ensures |device.sectors| == |old(device.sectors)|
      ensures readOnly ==> error == NoError && dirty == old(dirty) && device.sectors == old(device.sectors)
      ensures !readOnly ==> !dirty
      ensures !readOnly && error == NoError ==> device.sectors == old(Disk())
      ensures forall k :: 0 <= k < |device.sectors| && !(old(dirty) && k == sectorNumber) ==>
                device.sectors[k] == old(device.sectors)[k]
    {
      error := NoError;
      if !readOnly {
        if dirty {
          error := device.WriteSector(sectorNumber, buffer[..]);
          dirty := false;
        }
      }
    }

    /** The loop of clearing a cluster: writes the zeroed buffer to the sectors from sector on. */
    method WriteZeros(sector: nat) returns (error: Error, ghost written: nat)
      requires buffer[..] == ZeroSector(buffer.Length)
      modifies device
      ensures |device.sectors| == |old(device.sectors)|
      ensures written <= area.sectorsPerCluster && (error == NoError <==> written == area.sectorsPerCluster)
      ensures written > 0 ==> sector + written <= |device.sectors|
      ensures forall k :: sector <= k < sector + written ==> device.sectors[k] == ZeroSector(buffer.Length)
      ensures forall k :: 0 <= k < |device.sectors| && !(sector <= k < sector + area.sectorsPerCluster) ==>
                device.sectors[k] == old(device.sectors)[k]
    {
      hide ZeroSector;
      error, written := NoError, 0;
      var i := 0;
      while i < area.sectorsPerCluster && error == NoError
        invariant 0 <= i <= area.sectorsPerCluster && |device.sectors| == |old(device.sectors)|
        invariant if error == NoError then written == i else written == i - 1
        invariant written > 0 ==> sector + written <= |device.sectors|
        invariant forall k :: sector <= k < sector + written ==> device.sectors[k] == ZeroSector(buffer.Length)
        invariant forall k :: 0 <= k < |device.sectors| && !(sector <= k < sector + i) ==>
                    device.sectors[k] == old(device.sectors)[k]
      {
        error := device.WriteSector(sector + i, buffer[..]);
        if error == NoError {
          written := written + 1;
        }
        i := i + 1;
      }
    }

    /** Flushes the buffer, zeroes it, and fills the sectors of a cluster with it. */
    method FillSectors(sector: nat, ghost c: nat) returns (error: Error, ghost written: nat)
      requires Valid() && !readOnly && c >= 2 && sector == ClusterToSector(area, c)
      modifies this`dirty, buffer, device
      ensures |device.sectors| == |old(device.sectors)|
      ensures !dirty && buffer[..] == ZeroSector(buffer.Length)
      ensures written <= area.sectorsPerCluster && (error == NoError <==> written == area.sectorsPerCluster)
      ensures written > 0 ==> sector < |device.sectors| && device.sectors[sector] == ZeroSector(buffer.Length)
      ensures error == NoError ==> IsCleared(area, c, buffer.Length, old(Disk()), device.sectors)
      ensures forall k :: 0 <= k < |device.sectors| ==>
                || (old(dirty) && k == sectorNumber)
                || IsSectorOf(area, k, c)
                || device.sectors[k] == old(device.sectors)[k]
    {
      hide ClusterToSector, IsSectorOf;
      written := 0;
      error := FlushDirectorySectorBuffer();
      forall i | 0 <= i < buffer.Length {
        buffer[i] := 0;
      }
      assert buffer[..] == ZeroSector(buffer.Length);
      if error == NoError {
        hide ZeroSector;
        error, written := WriteZeros(sector);
        if error == NoError {
          ClusterIsZeroed(area, c, buffer.Length, old(Disk()), device.sectors);
        }
      }
      forall k | 0 <= k < |device.sectors| && sector <= k < sector + area.sectorsPerCluster
        ensures IsSectorOf(area, k, c)
      {
        SectorsOfCluster(area, k, c);
      }
    }

    /** Fills a cluster with zeros. When a transfer fails, a directory sector that waited to
        be written back is lost, and the buffer claims to hold the cluster's first sector
        whether or not that was written. Apart from that sector no other cluster is touched,
        and neither is the table. */
    method ClearCluster(c: nat, ghost table: FatTable.Table) returns (error: Error, ghost written: nat)
      requires Valid() && c >= 2 && table.device == device
      modifies this, buffer, device
      ensures |device.sectors| == |old(device.sectors)|
      ensures readOnly ==> error == WriteProtected && Valid() && Disk() == old(Disk())
      ensures !readOnly ==>
                && !dirty && sectorNumber == area.start + (c - 2) * area.sectorsPerCluster
                && forall i :: 0 <= i < buffer.Length ==> buffer[i] == 0
      ensures !readOnly ==>
                written <= area.sectorsPerCluster && (error == NoError <==> written == area.sectorsPerCluster)
      ensures !readOnly ==> (written > 0 ==> IsHonest())
      ensures error == NoError ==> Valid() && IsCleared(area, c, buffer.Length, old(Disk()), Disk())
      ensures forall k :: 0 <= k < |device.sectors| ==>
                || (old(dirty) && k == old(sectorNumber))
                || IsSectorOf(area, k, c)
                || device.sectors[k] == old(device.sectors)[k]
      ensures forall d: nat, k: nat :: d != c && IsSectorOf(area, k, d) && k < |device.sectors| ==>
                (old(dirty) && k == old(sectorNumber)) || device.sectors[k] == old(device.sectors)[k]
      ensures old(IsOutside(table.g)) && old(table.Valid()) ==>
                && table.Valid() && table.Sectors() == old(table.Sectors()) && table.Fat() == old(table.Fat())
                && (table.Coherent() <==> old(table.Coherent()))
    {
      hide ZeroSector, Zeroed, IsCleared, IsSectorOf, FatBytes.Links, Logical, Clean, WindowOk, Geometry.Valid;
      written := 0;
      if readOnly {
        return WriteProtected, 0;
      }
      error, written := FillSectors(ClusterToSector(area, c), c);
      sectorNumber := ClusterToSector(area, c);
      forall d: nat, k: nat | d != c && IsSectorOf(area, k, d) && k < |device.sectors|
        ensures (old(dirty) && k == old(sectorNumber)) || device.sectors[k] == old(device.sectors)[k]
      {
        OneCluster(area, k, c, d);
      }
      if old(IsOutside(table.g)) && old(table.Valid()) {
        forall k | 0 <= k < area.start
          ensures !IsSectorOf(area, k, c)
        {
          NoneInFront(area, k, c);
        }
        TableUntouched(table.g, old(device.sectors), device.sectors, table.window[..], table.start);
      }
    }
  }
}
