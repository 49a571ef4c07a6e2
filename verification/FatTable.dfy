/**
  The table of a mounted drive: reading and writing single entries through a write-back
  window of sectors over the device.
 */
module FatTable {
  import opened Bytes
  import opened FatChains
  import opened FatBits
  import opened FatBytes
  import opened FatCache
  import opened BlockDevice
  import opened Errors

  class Table {
    const g: Geometry
    const device: Device
    const readOnly: bool
    const writeThrough: bool
    const window: array<Sector>
    var start: nat
    var dirty: bool
    /** How many times loading the window has failed, and left it half overwritten. */
    ghost var lost: nat

    ghost predicate Valid()
      reads this, device, window
    {
      Structure(g, device.sectors, window[..], start) && (readOnly ==> !dirty)
    }

    /** The sectors of the table as a reader sees them. */
    ghost function Sectors(): (secs: seq<Sector>)
      requires Valid()
      reads this, device, window
      ensures IsTable(g, secs)
    {
      Logical(g, device.sectors, window[..], start)
    }

    /** The links of the table as a reader sees them. */
    ghost function Fat(): (fat: Fat)
      requires Valid()
      reads this, device, window
      ensures IsFat(fat) && |fat| == g.lastCluster + 1
    {
      Links(g, Sectors())
    }

    /** The clusters whose entries have reserved bits set, and read as the end of a chain. */
    ghost function Stuck(): (stuck: set<nat>)
      requires Valid()
      reads this, device, window
      ensures AreStuck(Fat(), stuck)
    {
      StuckAreStuck(g, Sectors());
      FatBytes.Stuck(g, Sectors())
    }

    /** Unless it waits to be written back, the window agrees with the device. */
    ghost predicate Coherent()
      reads this, device, window
    {
      Valid() && (dirty || Clean(g, device.sectors, window[..], start))
    }

    /** The window is lost only when a transfer fails. */
    twostate predicate LossCounted()
      reads this, device
    {
      lost >= old(lost) && (device.faults == old(device.faults) ==> lost == old(lost))
    }

    /** A mounted drive whose first sectors of the table are cached. */
    constructor (g: Geometry, device: Device, readOnly: bool, writeThrough: bool)
      requires g.Valid() && RegionOk(g, device.sectors)
      ensures Coherent() && !dirty && fresh(window)
      ensures this.g == g && this.device == device && this.readOnly == readOnly && this.writeThrough == writeThrough
    {
      this.g, this.device, this.readOnly, this.writeThrough := g, device, readOnly, writeThrough;
      this.window := new Sector[g.cacheSize];
      this.start, this.dirty, this.lost := 0, false, 0;
      new;
      AtOrder(g, 0, g.fatSize - 1);
      forall i | 0 <= i < g.cacheSize {
        window[i] := device.sectors[At(g, 0, i)];
      }
    }

    /** The inner loop of a write-back: the sectors of the window go to copy f. */
    method FlushCopy(f: nat) returns (error: Error)
      requires Valid() && f < g.copies
      modifies device
      ensures Valid() && OneWindowWritten(g, old(device.sectors), device.sectors, At(g, f, start))
      ensures error == NoError <==> device.faults == old(device.faults)
      ensures IsTransferError(error)
      ensures device.faults >= old(device.faults)
      ensures error == NoError ==> HoldsWindow(g, device.sectors, window[..], At(g, f, start))
    {
      error := NoError;
      var base := At(g, f, start);
      AtOrder(g, f, start);
      AtOrder(g, f, start + g.cacheSize - 1);
      hide Geometry.Valid;
      var i := 0;
      while i < g.cacheSize && error == NoError
        invariant 0 <= i <= g.cacheSize
        invariant RegionOk(g, device.sectors) && OneWindowWritten(g, old(device.sectors), device.sectors, base)
        invariant error == NoError <==> device.faults == old(device.faults)
        invariant IsTransferError(error)
        invariant device.faults >= old(device.faults)
        invariant error == NoError ==> forall n :: 0 <= n < i ==> device.sectors[base + n] == window[n]
      {
        error := device.WriteSector(base + i, window[i]);
        i := i + 1;
      }
    }

    /** The outer loop of a write-back. */
    method FlushCopies() returns (error: Error)
      requires Valid()
      modifies device
      ensures Valid() && WindowsWritten(g, old(device.sectors), device.sectors, start, g.copies)
      ensures error == NoError <==> device.faults == old(device.faults)
      ensures IsTransferError(error)
      ensures device.faults >= old(device.faults)
      ensures error == NoError ==> forall f :: 0 <= f < g.copies ==>
                HoldsWindow(g, device.sectors, window[..], At(g, f, start))
    {
      error := NoError;
      var f := 0;
      while f < g.copies && error == NoError
        invariant 0 <= f <= g.copies
        invariant Valid() && WindowsWritten(g, old(device.sectors), device.sectors, start, f)
        invariant error == NoError <==> device.faults == old(device.faults)
        invariant IsTransferError(error)
        invariant device.faults >= old(device.faults)
        invariant error == NoError ==> forall e :: 0 <= e < f ==>
                    HoldsWindow(g, device.sectors, window[..], At(g, e, start))
      {
        ghost var before := device.sectors;
        error := FlushCopy(f);
        NextWindowWritten(g, old(device.sectors), before, device.sectors, start, f);
        forall e | 0 <= e < f && HoldsWindow(g, before, window[..], At(g, e, start))
          ensures HoldsWindow(g, device.sectors, window[..], At(g, e, start))
        {
          CopiesAreApart(g, start, e, f);
          OtherWindowKept(g, before, device.sectors, window[..], At(g, e, start), At(g, f, start));
        }
        f := f + 1;
      }
      FewerWindowsWritten(g, old(device.sectors), device.sectors, start, f, g.copies);
    }

    ghost predicate CopiesAgree()
      reads this, device
    {
      Mirrored(g, device.sectors, start, dirty)
    }

    /** Writes the window back to every copy of the table, if it has changed. */
    method FlushFatCache() returns (error: Error)
      requires Valid()
      modifies this`dirty, device
      ensures Valid() && Sectors() == old(Sectors())
      ensures error == NoError <==> device.faults == old(device.faults)
      ensures IsTransferError(error)
      ensures device.faults >= old(device.faults)
      ensures old(Coherent()) ==> Coherent()
      ensures error == NoError ==> !dirty
      ensures error != NoError ==> dirty
      ensures dirty ==> old(dirty)
      ensures old(CopiesAgree()) ==> CopiesAgree()
      ensures error == NoError && old(Coherent()) ==> CopyHolds(g, device.sectors, 0, Sectors())
      ensures error == NoError && old(CopiesAgree() && Coherent()) ==>
                forall f :: 0 <= f < g.copies ==> CopyHolds(g, device.sectors, f, Sectors())
    {
      error := NoError;
      if !readOnly {
        if dirty {
          error := FlushCopies();
          WriteBackKeepsLogical(g, old(device.sectors), device.sectors, window[..], start);
          if error == NoError {
            dirty := false;
            if old(CopiesAgree()) {
              WriteBackIsDurable(g, old(device.sectors), device.sectors, window[..], start);
            }
          }
        }
      }
      if !old(dirty) && old(CopiesAgree() && Coherent()) {
        CleanCopies(g, device.sectors, window[..], start);
      }
      if !dirty && old(Coherent()) {
        CleanIsFirstCopy(g, device.sectors, window[..], start);
      }
    }

    /** Fills the window with the sectors from needed on. When a transfer fails, the window
        is left partly overwritten. */
    method LoadWindow(needed: nat) returns (error: Error)
      requires Valid() && needed + g.cacheSize <= g.fatSize
      modifies window, device`faults
      ensures Valid() && WindowOk(g, window[..], needed)
      ensures error == NoError <==> device.faults == old(device.faults)
      ensures IsTransferError(error)
      ensures device.faults >= old(device.faults)
      ensures error == NoError ==> Clean(g, device.sectors, window[..], needed)
      ensures error != NoError ==>
                exists i ::
                  0 <= i < g.cacheSize && HalfLoaded(g, device.sectors, old(window[..]), needed, i, window[..])
    {
      error := NoError;
      var i := 0;
      AtOrder(g, 0, needed);
      AtOrder(g, 0, needed + g.cacheSize - 1);
      while i < g.cacheSize && error == NoError
        invariant 0 <= i <= g.cacheSize && Valid()
        invariant error == NoError <==> device.faults == old(device.faults)
        invariant IsTransferError(error)
        invariant device.faults >= old(device.faults)
        invariant error == NoError ==>
                    forall n :: 0 <= n < i ==> device.sectors[At(g, 0, needed) + n] == window[..][n]
        invariant forall n :: i <= n < g.cacheSize ==> window[..][n] == old(window[..])[n]
        invariant error != NoError ==>
                    i > 0 && HalfLoaded(g, device.sectors, old(window[..]), needed, i - 1, window[..])
      {
        var data: Sector;
        error, data := device.ReadSector(At(g, 0, needed) + i);
        window[i] := data;
        i := i + 1;
      }
    }

    /** Moves the window to the sectors from needed on, after saving it. When saving it fails
        the window stays as it is, and dirty; when loading it does, it is half overwritten. */
    method MoveWindow(needed: nat) returns (error: Error)
      requires Valid() && needed + g.cacheSize <= g.fatSize
      modifies this, device, window
      ensures Valid()
      ensures error == NoError <==> device.faults == old(device.faults)
      ensures IsTransferError(error)
      ensures device.faults >= old(device.faults)
      ensures start == if error == NoError then needed else old(start)
      ensures LossCounted() && (error != NoError ==> (dirty <==> lost == old(lost)))
      ensures lost == old(lost) && old(Coherent()) ==> Coherent() && Sectors() == old(Sectors())
      ensures error != NoError && lost == old(lost) ==> Sectors() == old(Sectors()) && window[..] == old(window[..])
      ensures error != NoError && lost > old(lost) ==>
                exists i ::
                  0 <= i < g.cacheSize && HalfLoaded(g, device.sectors, old(window[..]), needed, i, window[..])
      ensures error != NoError ==> UncachedKept(g, start, old(Sectors()), Sectors())
      ensures old(CopiesAgree()) ==> CopiesAgree()
    {
      error := FlushFatCache();
      if error != NoError {
        return;
      }
      ghost var was := window[..];
      error := LoadWindow(needed);
      if error == NoError {
        if old(Coherent()) {
          MovingCleanWindow(g, device.sectors, was, start, window[..], needed);
        }
        start := needed;
        dirty := false;
      } else {
        lost := lost + 1;
        UncachedSurvive(g, device.sectors, was, start, window[..]);
      }
    }

    /** All bytes of the entry at offset are in the window. */
    predicate IsCached(offset: nat)
      requires g.sectorSize > 0
      reads this`start
    {
      InWindow(g, start, FirstSector(g, offset)) && InWindow(g, start, LastSector(g, offset))
    }

    /** Makes sure that the entry at offset can be found in the window. */
    method ReadFat(offset: nat) returns (error: Error)
      requires Valid() && FirstSector(g, offset) < g.fatSize && LastSector(g, offset) < g.fatSize
      modifies this, device, window
      ensures Valid()
      ensures error == NoError <==> device.faults == old(device.faults)
      ensures IsTransferError(error)
      ensures device.faults >= old(device.faults)
      ensures error == NoError ==> IsCached(offset)
      ensures LossCounted() && (error != NoError ==> (dirty <==> lost == old(lost)))
      ensures lost == old(lost) && old(Coherent()) ==> Coherent() && Sectors() == old(Sectors())
      ensures error != NoError ==> start == old(start) && UncachedKept(g, start, old(Sectors()), Sectors())
      ensures old(CopiesAgree()) ==> CopiesAgree()
      ensures old(IsCached(offset)) ==> error == NoError
      ensures error == NoError ==>
                var first := offset / g.sectorSize;
                var last := if g.kind == FAT12 then (offset + 1) / g.sectorSize else first;
                start == if old(start) <= first && last < old(start) + g.cacheSize then old(start)
                         else if first + g.cacheSize <= g.fatSize then first else g.fatSize - g.cacheSize
    {
      error := NoError;
      var needed := FirstSector(g, offset);
      var end := LastSector(g, offset);
      ClampedWindowReaches(g, offset);
      if needed < start || end > start + g.cacheSize - 1 {
        error := MoveWindow(Clamped(g, needed));
      }
    }

    /** The bytes of the entry of cluster c, taken from the window. */
    method ReadEntry(c: nat) returns (b: seq<byte>)
      requires Valid() && InTable(g, c) && EntryCached(g, start, c)
      ensures b == EntryBytes(g, Sectors(), c)
    {
      var o := EntryOffset(g.kind, c);
      b := [];
      while |b| < EntryWidth(g.kind)
        invariant |b| <= EntryWidth(g.kind)
        invariant b == EntryBytes(g, Sectors(), c)[..|b|]
      {
        EntryFromWindow(g, device.sectors, window[..], start, c, |b|);
        b := b + [ByteAt(g, window[..], WindowOffset(g, start, o + |b|))];
      }
    }

    /** Overwrites the byte at offset o of the table, which is in the window. */
    method PutByte(o: nat, b: byte)
      requires Valid() && Covers(g, start, o) && HasByte(g, Sectors(), o)
      modifies window
      ensures Valid() && Sectors() == WithByte(g, old(Sectors()), o, b)
    {
      WindowByte(g, device.sectors, window[..], start, o);
      WriteWindowByte(g, device.sectors, window[..], start, o, b);
      var p := WindowOffset(g, start, o);
      var i := p / g.sectorSize;
      ghost var after := WithByte(g, window[..], p, b);
      window[i] := WithByte(g, window[..], p, b)[i];
      assert window[..] == after;
    }

    /** Overwrites the bytes of the entry of cluster c in the window. */
    method WriteEntry(c: nat, b: seq<byte>)
      requires Valid() && InTable(g, c) && EntryCached(g, start, c) && |b| == EntryWidth(g.kind)
      modifies window
      ensures Valid() && BytesWritten(g, old(Sectors()), EntryOffset(g.kind, c), b, Sectors())
    {
      var o := EntryOffset(g.kind, c);
      var i := 0;
      while i < |b|
        invariant 0 <= i <= |b| && Valid()
        invariant BytesWritten(g, old(Sectors()), o, b[..i], Sectors())
      {
        EntryIsInside(g, Sectors(), c, i);
        EntryCovered(g, start, c, i);
        ghost var was := Sectors();
        PutByte(o + i, b[i]);
        OneMoreByte(g, old(Sectors()), o, b, i, was);
        i := i + 1;
      }
      assert b[..i] == b;
    }

    /** The link of cluster c. */
    method GetClusterFromFat(c: nat) returns (error: Error, link: nat)
      requires Valid()
      modifies this, device, window
      ensures Valid()
      ensures error == NoError <==> InTable(g, c) && device.faults == old(device.faults)
      ensures device.faults >= old(device.faults)
      ensures if InTable(g, c) then IsTransferError(error)
              else error == InvalidClusterNumber && device.faults == old(device.faults)
      ensures LossCounted() && (error != NoError && InTable(g, c) ==> (dirty <==> lost == old(lost)))
      ensures old(Coherent()) && lost == old(lost) ==> Coherent() && Sectors() == old(Sectors())
      ensures error != NoError ==> start == old(start) && UncachedKept(g, start, old(Sectors()), Sectors())
      ensures old(CopiesAgree()) ==> CopiesAgree()
      ensures old(Coherent()) && error == NoError ==> link == old(Fat())[c] && ReadsAs(g, Sectors(), c, link)
      ensures error != NoError ==> link == CLUSTER_EOF
    {
      hide ReadsAs;
      link := CLUSTER_EOF;
      if c > g.lastCluster {
        error := InvalidClusterNumber;
      } else if c < CLUSTER_MIN_GOOD {
        error := InvalidClusterNumber;
      } else {
        EntrySectors(g, Sectors(), c);
        error := ReadFat(EntryOffset(g.kind, c));
        if error == NoError {
          var b := ReadEntry(c);
          link := LinkOf(g.kind, Unpack(g.kind, c, b));
          LinkBits(g, Sectors(), c);
          LinkBelow(g, Sectors(), g.lastCluster + 1, c);
        }
      }
    }

    /** Writes code to the entry of cluster c, which is in the window. */
    method PutCached(c: nat, code: nat) returns (previous: nat)
      requires Valid() && !readOnly && InTable(g, c) && EntryCached(g, start, c)
      modifies this`dirty, window
      ensures Valid() && dirty
      ensures Fat() == old(Fat())[c := ReadBack(g.kind, c !in old(Stuck()), code)]
      ensures Stuck() == old(Stuck()) && WritesAs(g, old(Sectors()), c, code, Sectors())
      ensures previous == CLUSTER_UNUSED <==> old(Fat())[c] == CLUSTER_UNUSED
      ensures old(CopiesAgree()) ==> CopiesAgree()
    {
      hide FatBytes.Links, FatBytes.Stuck, WritesAs;
      dirty := true;
      var b := ReadEntry(c);
      previous := Unpack(g.kind, c, b);
      ghost var was := Sectors();
      WriteEntry(c, Pack(g.kind, c, b, code));
      LinksAfterWrite(g, was, c, code, Sectors());
      EntryWritten(g, was, c, code, Sectors());
    }

    /** Writes code to the entry of cluster c; previous is the value the entry held, with
        reserved bits and without the markers of a chain's end told apart from values. */
    method PutEntry(c: nat, code: nat) returns (error: Error, previous: nat)
      requires Valid() && !readOnly
      modifies this, device, window
      ensures Valid()
      ensures error == NoError <==> InTable(g, c) && device.faults == old(device.faults)
      ensures device.faults >= old(device.faults)
      ensures if InTable(g, c) then IsTransferError(error)
              else error == InvalidClusterNumber && device.faults == old(device.faults)
      ensures old(Coherent()) && error == NoError ==>
                && Coherent()
                && Fat() == old(Fat())[c := ReadBack(g.kind, c !in old(Stuck()), code)]
                && Stuck() == old(Stuck()) && WritesAs(g, old(Sectors()), c, code, Sectors())
                && (previous == CLUSTER_UNUSED <==> old(Fat())[c] == CLUSTER_UNUSED)
      ensures LossCounted() && (error != NoError && InTable(g, c) ==> (dirty <==> lost == old(lost)))
      ensures old(Coherent()) && error != NoError && lost == old(lost) ==> Coherent() && Sectors() == old(Sectors())
      ensures error != NoError ==> start == old(start) && UncachedKept(g, start, old(Sectors()), Sectors())
      ensures old(CopiesAgree()) ==> CopiesAgree()
    {
      hide FatBytes.Links, FatBytes.Stuck, UncachedKept, Mirrored, WritesAs;
      previous := CLUSTER_UNUSED;
      error := NoError;
      if c > g.lastCluster {
        error := InvalidClusterNumber;
      } else if c < CLUSTER_MIN_GOOD {
        error := InvalidClusterNumber;
      } else {
        EntrySectors(g, Sectors(), c);
        error := ReadFat(EntryOffset(g.kind, c));
        if error != NoError {
          return;
        }
        previous := PutCached(c, code);
      }
      if error == InvalidClusterNumber {
        NothingLost(g, start, Sectors());
      }
    }
  }
}
