/**
  The sectors of the table seen through the write-back cache: a window of sectors that
  may be newer than the device, over a device that holds several copies of the table.
 */
module FatCache {
  import opened Arithmetic
  import opened Bytes
  import opened FatBytes

  /** The device sector that holds sector i of copy f of the table. */
  function At(g: Geometry, f: nat, i: nat): nat {
    g.fatStart + f * g.fatSize + i
  }

  lemma AtOrder(g: Geometry, f: nat, i: nat)
    requires f < g.copies && i < g.fatSize
    ensures g.fatStart <= At(g, f, i) < g.fatStart + g.copies * g.fatSize
    ensures f > 0 ==> At(g, f, i) >= g.fatStart + g.fatSize
  {
    MulMonotone(f + 1, g.copies, g.fatSize);
    if f > 0 {
      MulMonotone(1, f, g.fatSize);
    }
  }

  lemma AtInjective(g: Geometry, e: nat, i: nat, f: nat, j: nat)
    requires i < g.fatSize && j < g.fatSize && At(g, e, i) == At(g, f, j)
    ensures e == f && i == j
  {
    if e < f {
      MulMonotone(e + 1, f, g.fatSize);
    } else if f < e {
      MulMonotone(f + 1, e, g.fatSize);
    }
  }

  ghost predicate RegionOk(g: Geometry, dev: seq<Sector>) {
    && g.fatStart + g.copies * g.fatSize <= |dev|
    && forall k :: g.fatStart <= k < g.fatStart + g.copies * g.fatSize ==> |dev[k]| == g.sectorSize
  }

  ghost predicate WindowOk(g: Geometry, w: seq<Sector>, start: nat) {
    |w| == g.cacheSize && AreSectors(g, w) && start + g.cacheSize <= g.fatSize
  }

  ghost predicate Structure(g: Geometry, dev: seq<Sector>, w: seq<Sector>, start: nat) {
    g.Valid() && RegionOk(g, dev) && WindowOk(g, w, start)
  }

  predicate InWindow(g: Geometry, start: nat, i: nat) {
    start <= i < start + g.cacheSize
  }

  /** Sector i of the table as a reader sees it. */
  ghost function LogicalAt(g: Geometry, dev: seq<Sector>, w: seq<Sector>, start: nat, i: nat): (sector: Sector)
    requires Structure(g, dev, w, start) && i < g.fatSize
    ensures |sector| == g.sectorSize
  {
    AtOrder(g, 0, i);
    if InWindow(g, start, i) then w[i - start] else dev[At(g, 0, i)]
  }

  ghost function Logical(g: Geometry, dev: seq<Sector>, w: seq<Sector>, start: nat): (secs: seq<Sector>)
    requires Structure(g, dev, w, start)
    ensures |secs| == g.fatSize && forall i :: 0 <= i < g.fatSize ==> secs[i] == LogicalAt(g, dev, w, start, i)
    ensures IsTable(g, secs)
  {
    seq<Sector>(g.fatSize, i requires 0 <= i < g.fatSize => LogicalAt(g, dev, w, start, i))
  }

  /** The device holds the sectors of the window from sector base on. */
  ghost predicate HoldsWindow(g: Geometry, dev: seq<Sector>, w: seq<Sector>, base: nat)
    requires |w| == g.cacheSize
  {
    base + g.cacheSize <= |dev| && forall i :: 0 <= i < g.cacheSize ==> dev[base + i] == w[i]
  }

  /** The window holds nothing the device does not. */
  ghost predicate Clean(g: Geometry, dev: seq<Sector>, w: seq<Sector>, start: nat)
    requires |w| == g.cacheSize
  {
    HoldsWindow(g, dev, w, At(g, 0, start))
  }

  ghost predicate SameInAllCopies(g: Geometry, dev: seq<Sector>, f: nat, i: nat) {
    At(g, f, i) < |dev| && At(g, 0, i) < |dev| && dev[At(g, f, i)] == dev[At(g, 0, i)]
  }

  /** All copies on the device agree, except where a dirty window has not been written yet. */
  ghost predicate Mirrored(g: Geometry, dev: seq<Sector>, start: nat, dirty: bool) {
    forall f, i :: 0 <= f < g.copies && 0 <= i < g.fatSize && !(dirty && InWindow(g, start, i)) ==>
      SameInAllCopies(g, dev, f, i)
  }

  /** The sectors from base on are those of secs. */
  ghost predicate HoldsFrom(dev: seq<Sector>, base: nat, secs: seq<Sector>) {
    forall i :: 0 <= i < |secs| ==> IsSector(dev, base + i, secs[i])
  }

  ghost predicate IsSector(dev: seq<Sector>, k: nat, sector: Sector) {
    k < |dev| && dev[k] == sector
  }

  /** Copy f, of the copies that lie one behind the other, holds the table as a reader sees it. */
  ghost predicate CopyHolds(g: Geometry, dev: seq<Sector>, f: nat, secs: seq<Sector>)
    requires |secs| == g.fatSize
  {
    HoldsFrom(dev, g.fatStart + f * g.fatSize, secs)
  }

  /** dev' differs from dev at most in the sectors the window stands for, in any copy. */
  ghost predicate WindowsWritten(g: Geometry, dev: seq<Sector>, dev': seq<Sector>, start: nat, copies: nat) {
    && |dev'| == |dev|
    && forall k :: 0 <= k < |dev| && !IsWindowSector(g, start, k, copies) ==> dev'[k] == dev[k]
  }

  ghost predicate IsWindowSector(g: Geometry, start: nat, k: nat, copies: nat) {
    exists f: nat :: f < copies && At(g, f, start) <= k < At(g, f, start) + g.cacheSize
  }

  /** dev' differs from dev at most in the sectors from base on that a window covers. */
  ghost predicate OneWindowWritten(g: Geometry, dev: seq<Sector>, dev': seq<Sector>, base: nat) {
    && |dev'| == |dev|
    && forall k :: 0 <= k < |dev| && !(base <= k < base + g.cacheSize) ==> dev'[k] == dev[k]
  }

  lemma NextWindowWritten(g: Geometry, dev0: seq<Sector>, dev: seq<Sector>, dev': seq<Sector>, start: nat, f: nat)
    requires WindowsWritten(g, dev0, dev, start, f) && OneWindowWritten(g, dev, dev', At(g, f, start))
    ensures WindowsWritten(g, dev0, dev', start, f + 1)
  {
    forall k | 0 <= k < |dev0| && !IsWindowSector(g, start, k, f + 1) ensures dev'[k] == dev0[k] {
      assert !IsWindowSector(g, start, k, f);
    }
  }

  lemma FewerWindowsWritten(g: Geometry, dev: seq<Sector>, dev': seq<Sector>, start: nat, e: nat, f: nat)
    requires WindowsWritten(g, dev, dev', start, e) && e <= f
    ensures WindowsWritten(g, dev, dev', start, f)
  {
    forall k | 0 <= k < |dev| && !IsWindowSector(g, start, k, f) ensures dev'[k] == dev[k] {
      assert !IsWindowSector(g, start, k, e);
    }
  }

  lemma CopiesAreApart(g: Geometry, start: nat, e: nat, f: nat)
    requires start + g.cacheSize <= g.fatSize && e < f
    ensures At(g, e, start) + g.cacheSize <= At(g, f, start)
  {
    MulMonotone(e + 1, f, g.fatSize);
  }

  lemma OtherWindowKept(g: Geometry, dev: seq<Sector>, dev': seq<Sector>, w: seq<Sector>, base: nat, written: nat)
    requires |w| == g.cacheSize && base + g.cacheSize <= written
    requires OneWindowWritten(g, dev, dev', written) && HoldsWindow(g, dev, w, base)
    ensures HoldsWindow(g, dev', w, base)
  {
    forall i | 0 <= i < g.cacheSize ensures dev'[base + i] == w[i] {
      assert dev[base + i] == w[i];
    }
  }

  lemma OutsideWindowUntouched(g: Geometry, dev: seq<Sector>, dev': seq<Sector>, start: nat, f: nat, i: nat)
    requires g.Valid() && RegionOk(g, dev) && start + g.cacheSize <= g.fatSize
    requires WindowsWritten(g, dev, dev', start, g.copies)
    requires f < g.copies && i < g.fatSize && !InWindow(g, start, i)
    ensures At(g, f, i) < |dev| && dev'[At(g, f, i)] == dev[At(g, f, i)]
  {
    AtOrder(g, f, i);
    if IsWindowSector(g, start, At(g, f, i), g.copies) {
      var e: nat :| e < g.copies && At(g, e, start) <= At(g, f, i) < At(g, e, start) + g.cacheSize;
      AtInjective(g, f, i, e, start + (At(g, f, i) - At(g, e, start)));
    }
  }

  /** However far a write-back got, a reader still sees the same table, and no copy has
      lost what it held outside of the window. */
  lemma WriteBackKeepsLogical(g: Geometry, dev: seq<Sector>, dev': seq<Sector>, w: seq<Sector>, start: nat)
    requires Structure(g, dev, w, start) && RegionOk(g, dev')
    requires WindowsWritten(g, dev, dev', start, g.copies)
    ensures Logical(g, dev', w, start) == Logical(g, dev, w, start)
    ensures Mirrored(g, dev, start, true) ==> Mirrored(g, dev', start, true)
  {
    forall i | 0 <= i < g.fatSize ensures LogicalAt(g, dev', w, start, i) == LogicalAt(g, dev, w, start, i) {
      if !InWindow(g, start, i) {
        OutsideWindowUntouched(g, dev, dev', start, 0, i);
      }
    }
    assert Logical(g, dev', w, start) == Logical(g, dev, w, start);
    if Mirrored(g, dev, start, true) {
      forall f, i | 0 <= f < g.copies && 0 <= i < g.fatSize && !InWindow(g, start, i)
        ensures SameInAllCopies(g, dev', f, i)
      {
        assert SameInAllCopies(g, dev, f, i);
        OutsideWindowUntouched(g, dev, dev', start, f, i);
        OutsideWindowUntouched(g, dev, dev', start, 0, i);
      }
    }
  }

  /** A write-back that got through leaves the table in every copy. */
  lemma WriteBackIsDurable(g: Geometry, dev: seq<Sector>, dev': seq<Sector>, w: seq<Sector>, start: nat)
    requires Structure(g, dev, w, start) && RegionOk(g, dev')
    requires WindowsWritten(g, dev, dev', start, g.copies)
    requires forall f :: 0 <= f < g.copies ==> HoldsWindow(g, dev', w, At(g, f, start))
    requires Mirrored(g, dev, start, true)
    ensures Mirrored(g, dev', start, false)
    ensures forall f :: 0 <= f < g.copies ==> CopyHolds(g, dev', f, Logical(g, dev, w, start))
  {
    WriteBackKeepsLogical(g, dev, dev', w, start);
    forall f, i | 0 <= f < g.copies && 0 <= i < g.fatSize
      ensures At(g, f, i) < |dev'| && dev'[At(g, f, i)] == LogicalAt(g, dev, w, start, i)
    {
      AtOrder(g, f, i);
      if InWindow(g, start, i) {
        WindowSectorWritten(g, dev', w, start, f, i);
      } else {
        OutsideWindowUntouched(g, dev, dev', start, f, i);
        assert SameInAllCopies(g, dev, f, i);
      }
    }
    forall f | 0 <= f < g.copies
      ensures CopyHolds(g, dev', f, Logical(g, dev, w, start))
    {
      hide Structure, RegionOk, WindowsWritten, HoldsWindow, Mirrored;
      SectorsOfCopy(g, dev', f, Logical(g, dev, w, start));
    }
  }

  lemma FromFirst(g: Geometry, f: nat, i: nat)
    ensures At(g, f, 0) == g.fatStart + f * g.fatSize && At(g, f, i) == At(g, f, 0) + i
  {
  }

  lemma SectorsOfCopy(g: Geometry, dev: seq<Sector>, f: nat, secs: seq<Sector>)
    requires |secs| == g.fatSize
    requires forall i :: 0 <= i < g.fatSize ==> At(g, f, i) < |dev| && dev[At(g, f, i)] == secs[i]
    ensures CopyHolds(g, dev, f, secs)
  {
    hide At;
    FromFirst(g, f, 0);
    var base := At(g, f, 0);
    forall i | 0 <= i < |secs|
      ensures IsSector(dev, base + i, secs[i])
    {
      FromFirst(g, f, i);
    }
  }

  lemma WindowSectorWritten(g: Geometry, dev: seq<Sector>, w: seq<Sector>, start: nat, f: nat, i: nat)
    requires WindowOk(g, w, start) && HoldsWindow(g, dev, w, At(g, f, start)) && InWindow(g, start, i)
    ensures At(g, f, i) < |dev| && dev[At(g, f, i)] == w[i - start]
  {
    var base := At(g, f, start);
    assert dev[base + (i - start)] == w[i - start];
  }

  /** Moving a clean window to another place loses nothing. */
  lemma MovingCleanWindow(g: Geometry, dev: seq<Sector>, w: seq<Sector>, start: nat, w': seq<Sector>, start': nat)
    requires Structure(g, dev, w, start) && Structure(g, dev, w', start')
    requires Clean(g, dev, w, start) && Clean(g, dev, w', start')
    ensures Logical(g, dev, w', start') == Logical(g, dev, w, start)
  {
    forall i | 0 <= i < g.fatSize ensures LogicalAt(g, dev, w', start', i) == LogicalAt(g, dev, w, start, i) {
      CleanIsDevice(g, dev, w, start, i);
      CleanIsDevice(g, dev, w', start', i);
    }
  }

  lemma CleanIsDevice(g: Geometry, dev: seq<Sector>, w: seq<Sector>, start: nat, i: nat)
    requires Structure(g, dev, w, start) && Clean(g, dev, w, start) && i < g.fatSize
    ensures At(g, 0, i) < |dev| && LogicalAt(g, dev, w, start, i) == dev[At(g, 0, i)]
  {
    AtOrder(g, 0, i);
    if InWindow(g, start, i) {
      WindowSectorWritten(g, dev, w, start, 0, i);
    }
  }

  /** A clean window is a part of the first copy, and that is what a reader sees. */
  lemma CleanIsFirstCopy(g: Geometry, dev: seq<Sector>, w: seq<Sector>, start: nat)
    requires Structure(g, dev, w, start) && Clean(g, dev, w, start)
    ensures CopyHolds(g, dev, 0, Logical(g, dev, w, start))
  {
    forall i | 0 <= i < g.fatSize
      ensures At(g, 0, i) < |dev| && LogicalAt(g, dev, w, start, i) == dev[At(g, 0, i)]
    {
      CleanIsDevice(g, dev, w, start, i);
    }
  }

  /** A transfer failed while the window was being moved to sector needed: some sectors
      have been replaced already, one may hold anything, and the others are as before. */
  ghost predicate HalfLoaded(g: Geometry, dev: seq<Sector>, w: seq<Sector>, needed: nat, i: nat, w': seq<Sector>)
    requires |w| == g.cacheSize
  {
    && i < g.cacheSize && |w'| == |w| && AreSectors(g, w')
    && At(g, 0, needed) + g.cacheSize <= |dev|
    && (forall n :: 0 <= n < i ==> w'[n] == dev[At(g, 0, needed) + n])
    && (forall n :: i < n < g.cacheSize ==> w'[n] == w[n])
  }

  lemma CleanCopies(g: Geometry, dev: seq<Sector>, w: seq<Sector>, start: nat)
    requires Structure(g, dev, w, start) && Clean(g, dev, w, start) && Mirrored(g, dev, start, false)
    ensures forall f :: 0 <= f < g.copies ==> CopyHolds(g, dev, f, Logical(g, dev, w, start))
  {
    forall f, i | 0 <= f < g.copies && 0 <= i < g.fatSize
      ensures At(g, f, i) < |dev| && dev[At(g, f, i)] == LogicalAt(g, dev, w, start, i)
    {
      assert SameInAllCopies(g, dev, f, i);
      CleanIsDevice(g, dev, w, start, i);
    }
    forall f | 0 <= f < g.copies
      ensures CopyHolds(g, dev, f, Logical(g, dev, w, start))
    {
      hide Structure, Clean, Mirrored;
      SectorsOfCopy(g, dev, f, Logical(g, dev, w, start));
    }
  }

  /* ---------- where the window has to be ---------- */

  function FirstSector(g: Geometry, offset: nat): nat
    requires g.sectorSize > 0
  {
    offset / g.sectorSize
  }

  /** The sector of the last byte of the entry at offset that may lie in another sector. */
  function LastSector(g: Geometry, offset: nat): nat
    requires g.sectorSize > 0
  {
    if g.kind == FAT12 then (offset + 1) / g.sectorSize else offset / g.sectorSize
  }

  /** The place nearest to sector q that leaves the window within the table. */
  function Clamped(g: Geometry, q: nat): nat
    requires g.cacheSize <= g.fatSize
  {
    if q > g.fatSize - g.cacheSize then g.fatSize - g.cacheSize else q
  }

  /** A window moved to the first sector of an entry also reaches its last one. */
  lemma ClampedWindowReaches(g: Geometry, offset: nat)
    requires g.Valid() && FirstSector(g, offset) < g.fatSize && LastSector(g, offset) < g.fatSize
    ensures FirstSector(g, offset) <= LastSector(g, offset)
    ensures var start := Clamped(g, FirstSector(g, offset));
            && start + g.cacheSize <= g.fatSize
            && InWindow(g, start, FirstSector(g, offset)) && InWindow(g, start, LastSector(g, offset))
  {
    NextQuotient(offset, g.sectorSize);
  }

  /* ---------- bytes of the window ---------- */

  /** The sectors of the byte at offset o is in the window. */
  predicate Covers(g: Geometry, start: nat, o: nat) {
    g.sectorSize > 0 && InWindow(g, start, o / g.sectorSize)
  }

  /** The place within the window of the byte at offset o of the table. */
  function WindowOffset(g: Geometry, start: nat, o: nat): (p: nat)
    requires Covers(g, start, o)
    ensures p / g.sectorSize == o / g.sectorSize - start && p % g.sectorSize == o % g.sectorSize
  {
    CoveredOffset(g, start, o);
    o - start * g.sectorSize
  }

  lemma WindowByte(g: Geometry, dev: seq<Sector>, w: seq<Sector>, start: nat, o: nat)
    requires Structure(g, dev, w, start) && Covers(g, start, o)
    ensures HasByte(g, w, WindowOffset(g, start, o)) && HasByte(g, Logical(g, dev, w, start), o)
    ensures ByteAt(g, w, WindowOffset(g, start, o)) == ByteAt(g, Logical(g, dev, w, start), o)
  {
    assert Logical(g, dev, w, start)[o / g.sectorSize] == LogicalAt(g, dev, w, start, o / g.sectorSize);
  }

  lemma CoveredOffset(g: Geometry, start: nat, o: nat)
    requires Covers(g, start, o)
    ensures start * g.sectorSize <= o
    ensures (o - start * g.sectorSize) / g.sectorSize == o / g.sectorSize - start
    ensures (o - start * g.sectorSize) % g.sectorSize == o % g.sectorSize
  {
    Split(o, g.sectorSize);
    MulMonotone(start, o / g.sectorSize, g.sectorSize);
    DropMultiple(o, g.sectorSize, start);
  }

  /** Writing a byte of the window writes that byte of the table. */
  lemma WriteWindowByte(g: Geometry, dev: seq<Sector>, w: seq<Sector>, start: nat, o: nat, b: byte)
    requires Structure(g, dev, w, start) && Covers(g, start, o)
    requires HasByte(g, w, WindowOffset(g, start, o)) && HasByte(g, Logical(g, dev, w, start), o)
    ensures Structure(g, dev, WithByte(g, w, WindowOffset(g, start, o), b), start)
    ensures Logical(g, dev, WithByte(g, w, WindowOffset(g, start, o), b), start) ==
            WithByte(g, Logical(g, dev, w, start), o, b)
  {
    var w' := WithByte(g, w, WindowOffset(g, start, o), b);
    var secs := Logical(g, dev, w, start);
    forall i | 0 <= i < g.fatSize
      ensures LogicalAt(g, dev, w', start, i) == WithByte(g, secs, o, b)[i]
    {
      assert secs[i] == LogicalAt(g, dev, w, start, i);
    }
  }

  lemma OneMoreByte(g: Geometry, secs: seq<Sector>, o: nat, b: seq<byte>, n: nat, secs': seq<Sector>)
    requires n < |b| && BytesWritten(g, secs, o, b[..n], secs') && HasByte(g, secs', o + n)
    ensures BytesWritten(g, secs, o, b[..n + 1], WithByte(g, secs', o + n, b[n]))
  {
    var secs'' := WithByte(g, secs', o + n, b[n]);
    forall p: nat | HasByte(g, secs, p)
      ensures ByteAt(g, secs'', p) == if o <= p < o + n + 1 then b[p - o] else ByteAt(g, secs, p)
    {
      WithByteAt(g, secs', o + n, b[n], p);
    }
  }

  /* ---------- whole entries ---------- */

  lemma FourTimes(n: nat, b: nat, q: nat)
    requires n == 4 * b
    ensures n * q == 4 * (b * q)
  {
  }

  /** A remainder below a multiple of four leaves room for what it is itself a multiple of. */
  lemma RoomForTwo(c: nat, m: nat, r: nat, n: nat)
    requires 2 * c == 4 * m + r && n % 4 == 0 && r < n
    ensures r + 1 < n
  {
  }

  lemma RoomForFour(c: nat, m: nat, r: nat, n: nat)
    requires 4 * c == 4 * m + r && n % 4 == 0 && r < n
    ensures r + 3 < n
  {
  }

  /** Entries of four bytes do not cross into the next sector. */
  lemma AlignedByFour(c: nat, n: nat, i: nat)
    requires n > 0 && n % 4 == 0 && i < 4
    ensures (4 * c + i) / n == 4 * c / n
  {
    var b, q := n / 4, 4 * c / n;
    Split(4 * c, n);
    FourTimes(n, b, q);
    RoomForFour(c, b * q, 4 * c % n, n);
    SameQuotient(4 * c, n, i);
  }

  /** Nor do entries of two bytes. */
  lemma AlignedByTwo(c: nat, n: nat, i: nat)
    requires n > 0 && n % 4 == 0 && i < 2
    ensures (2 * c + i) / n == 2 * c / n
  {
    var b, q := n / 4, 2 * c / n;
    Split(2 * c, n);
    FourTimes(n, b, q);
    RoomForTwo(c, b * q, 2 * c % n, n);
    SameQuotient(2 * c, n, i);
  }

  ghost predicate EntryCached(g: Geometry, start: nat, c: nat)
    requires g.sectorSize > 0
  {
    var o := EntryOffset(g.kind, c);
    InWindow(g, start, FirstSector(g, o)) && InWindow(g, start, LastSector(g, o))
  }

  lemma EntryCovered(g: Geometry, start: nat, c: nat, i: nat)
    requires g.Valid() && EntryCached(g, start, c) && i < EntryWidth(g.kind)
    ensures Covers(g, start, EntryOffset(g.kind, c) + i)
  {
    var o := EntryOffset(g.kind, c);
    match g.kind {
      case FAT12 =>
      case FAT16 => AlignedByTwo(c, g.sectorSize, i);
      case FAT32 => AlignedByFour(c, g.sectorSize, i);
    }
  }

  lemma EntrySectors(g: Geometry, secs: seq<Sector>, c: nat)
    requires IsTable(g, secs) && InTable(g, c)
    ensures FirstSector(g, EntryOffset(g.kind, c)) < g.fatSize
    ensures LastSector(g, EntryOffset(g.kind, c)) < g.fatSize
  {
    EntryIsInside(g, secs, c, 0);
    EntryIsInside(g, secs, c, 1);
  }

  /** The bytes of an entry, read from the window that starts at sector start. */
  lemma EntryFromWindow(g: Geometry, dev: seq<Sector>, w: seq<Sector>, start: nat, c: nat, i: nat)
    requires Structure(g, dev, w, start) && InTable(g, c) && EntryCached(g, start, c) && i < EntryWidth(g.kind)
    ensures Covers(g, start, EntryOffset(g.kind, c) + i)
    ensures HasByte(g, w, WindowOffset(g, start, EntryOffset(g.kind, c) + i))
    ensures ByteAt(g, w, WindowOffset(g, start, EntryOffset(g.kind, c) + i)) ==
            EntryBytes(g, Logical(g, dev, w, start), c)[i]
  {
    EntryCovered(g, start, c, i);
    WindowByte(g, dev, w, start, EntryOffset(g.kind, c) + i);
  }

  /* ---------- what a failed load can do, and what it cannot ---------- */

  /** Byte k of the entry of c lies in the window. */
  predicate ByteCached(g: Geometry, start: nat, c: nat, k: nat) {
    Covers(g, start, EntryOffset(g.kind, c) + k)
  }

  /** A byte of the entry of c lies in the window. On FAT12 that may be one of two. */
  ghost predicate AnyCached(g: Geometry, start: nat, c: nat) {
    exists k: nat :: k < EntryWidth(g.kind) && ByteCached(g, start, c, k)
  }

  /** The links of which no byte lies in the window are the same in both tables. */
  ghost predicate UncachedKept(g: Geometry, start: nat, secs: seq<Sector>, secs': seq<Sector>)
    requires IsTable(g, secs) && IsTable(g, secs')
  {
    forall c :: InTable(g, c) && !AnyCached(g, start, c) ==> Link(g, secs', c) == Link(g, secs, c)
  }

  lemma LogicalSector(g: Geometry, dev: seq<Sector>, w: seq<Sector>, start: nat, i: nat)
    requires Structure(g, dev, w, start) && i < g.fatSize
    ensures At(g, 0, i) < |dev|
    ensures Logical(g, dev, w, start)[i] == if InWindow(g, start, i) then w[i - start] else dev[At(g, 0, i)]
  {
    AtOrder(g, 0, i);
    assert Logical(g, dev, w, start)[i] == LogicalAt(g, dev, w, start, i);
  }

  lemma NothingLost(g: Geometry, start: nat, secs: seq<Sector>)
    requires IsTable(g, secs)
    ensures UncachedKept(g, start, secs, secs)
  {
  }

  lemma SameSectorSameByte(g: Geometry, secs: seq<Sector>, secs': seq<Sector>, q: nat)
    requires HasByte(g, secs, q) && HasByte(g, secs', q) && secs'[q / g.sectorSize] == secs[q / g.sectorSize]
    ensures ByteAt(g, secs', q) == ByteAt(g, secs, q)
  {
  }

  lemma UncachedSector(g: Geometry, dev: seq<Sector>, w: seq<Sector>, start: nat, w': seq<Sector>, i: nat)
    requires Structure(g, dev, w, start) && Structure(g, dev, w', start)
    requires i < g.fatSize && !InWindow(g, start, i)
    ensures Logical(g, dev, w', start)[i] == Logical(g, dev, w, start)[i]
  {
    LogicalSector(g, dev, w, start, i);
    LogicalSector(g, dev, w', start, i);
  }

  lemma UncachedByte(g: Geometry, dev: seq<Sector>, w: seq<Sector>, start: nat, w': seq<Sector>, q: nat)
    requires Structure(g, dev, w, start) && Structure(g, dev, w', start)
    requires HasByte(g, Logical(g, dev, w, start), q) && !Covers(g, start, q)
    ensures HasByte(g, Logical(g, dev, w', start), q)
    ensures ByteAt(g, Logical(g, dev, w', start), q) == ByteAt(g, Logical(g, dev, w, start), q)
  {
    hide Structure, Logical, ByteAt, AreSectors, Geometry.Valid;
    UncachedSector(g, dev, w, start, w', q / g.sectorSize);
    SameSectorSameByte(g, Logical(g, dev, w, start), Logical(g, dev, w', start), q);
  }

  /** Whatever has got into the window, those links survive. */
  lemma UncachedSurvive(g: Geometry, dev: seq<Sector>, w: seq<Sector>, start: nat, w': seq<Sector>)
    requires Structure(g, dev, w, start) && Structure(g, dev, w', start)
    ensures UncachedKept(g, start, Logical(g, dev, w, start), Logical(g, dev, w', start))
  {
    hide Logical, Unpack;
    var secs, secs' := Logical(g, dev, w, start), Logical(g, dev, w', start);
    forall c | InTable(g, c) && !AnyCached(g, start, c)
      ensures Link(g, secs', c) == Link(g, secs, c)
    {
      forall k: nat | k < EntryWidth(g.kind)
        ensures EntryBytes(g, secs', c)[k] == EntryBytes(g, secs, c)[k]
      {
        EntryIsInside(g, secs, c, k);
        assert !ByteCached(g, start, c, k);
        UncachedByte(g, dev, w, start, w', EntryOffset(g.kind, c) + k);
      }
      assert EntryBytes(g, secs', c) == EntryBytes(g, secs, c);
    }
  }

  /** Bytes that make another link: all of them on FAT32, and byte k of two otherwise. */
  function OtherEntry(kind: FatType, c: nat, b: seq<byte>, k: nat): (r: seq<byte>)
    requires |b| == EntryWidth(kind) && (k == 0 || (kind == FAT12 && k == 1))
    ensures |r| == |b| && (kind != FAT32 ==> r[1 - k] == b[1 - k])
    ensures LinkOf(kind, Unpack(kind, c, r)) != LinkOf(kind, Unpack(kind, c, b))
  {
    match kind
    case FAT12 =>
      if k == 0 then
        if c % 2 == 0 then [if b[0] == 0 then 1 else 0, b[1]] else [if b[0] / 16 == 0 then 16 else 0, b[1]]
      else
        if c % 2 == 0 then [b[0], if b[1] % 16 == 0 then 1 else 0] else [b[0], if b[1] == 0 then 1 else 0]
    case FAT16 => [if b[0] == 0 then 1 else 0, b[1]]
    case FAT32 => [if LinkOf(kind, Unpack(kind, c, b)) == 0 then 1 else 0, 0, 0, 0]
  }

  /** A sector with the bytes e at position p. */
  function Overlaid(sector: Sector, p: nat, e: seq<byte>): (r: Sector)
    ensures |r| == |sector|
  {
    seq(|sector|, q requires 0 <= q < |sector| => if p <= q < p + |e| then e[q - p] else sector[q])
  }

  /** The window after a load failed at its sector i, of which it had received sector. */
  ghost function FailedAt(g: Geometry, dev: seq<Sector>, w: seq<Sector>, needed: nat, i: nat,
                          sector: Sector): (w': seq<Sector>)
    requires |w| == g.cacheSize && i < g.cacheSize && At(g, 0, needed) + g.cacheSize <= |dev|
    ensures |w'| == g.cacheSize && w'[i] == sector && forall n :: i < n < g.cacheSize ==> w'[n] == w[n]
    ensures forall n :: 0 <= n < i ==> w'[n] == dev[At(g, 0, needed) + n]
  {
    seq<Sector>(g.cacheSize, n requires 0 <= n < g.cacheSize =>
      if n < i then dev[At(g, 0, needed) + n] else if n == i then sector else w[n])
  }

  lemma FailedIsHalfLoaded(g: Geometry, dev: seq<Sector>, w: seq<Sector>, start: nat, needed: nat, i: nat,
                           sector: Sector)
    requires Structure(g, dev, w, start) && WindowOk(g, w, needed) && i < g.cacheSize && |sector| == g.sectorSize
    ensures At(g, 0, needed) + g.cacheSize <= |dev|
    ensures HalfLoaded(g, dev, w, needed, i, FailedAt(g, dev, w, needed, i, sector))
    ensures Structure(g, dev, FailedAt(g, dev, w, needed, i, sector), start)
  {
    AtOrder(g, 0, needed);
    AtOrder(g, 0, needed + g.cacheSize - 1);
    var w' := FailedAt(g, dev, w, needed, i, sector);
    assert AreSectors(g, w') by {
      forall n | 0 <= n < g.cacheSize
        ensures |w'[n]| == g.sectorSize
      {
        AtOrder(g, 0, needed + n);
      }
    }
  }

  /** The bytes of an entry lie one behind the other in one sector, or, on FAT12, the second
      one at the start of the next. */
  lemma SamePlace(g: Geometry, c: nat, k: nat)
    requires g.Valid() && k < EntryWidth(g.kind)
    ensures var o, n := EntryOffset(g.kind, c), g.sectorSize;
            if (o + k) / n == o / n then (o + k) % n == o % n + k
            else g.kind == FAT12 && k == 1 && (o + k) / n == o / n + 1
  {
    var o, n := EntryOffset(g.kind, c), g.sectorSize;
    match g.kind {
      case FAT12 => NextQuotient(o, n);
      case FAT16 => AlignedByTwo(c, n, k);
      case FAT32 => AlignedByFour(c, n, k);
    }
    Split(o, n);
    Split(o + k, n);
  }

  lemma OverlaidByte(g: Geometry, secs: seq<Sector>, secs': seq<Sector>, p: nat, e: seq<byte>, q: nat)
    requires HasByte(g, secs, q) && HasByte(g, secs', q)
    requires secs'[q / g.sectorSize] == Overlaid(secs[q / g.sectorSize], p, e)
    ensures ByteAt(g, secs', q) ==
            if p <= q % g.sectorSize < p + |e| then e[q % g.sectorSize - p] else ByteAt(g, secs, q)
  {
  }

  lemma SectorOfFailed(g: Geometry, dev: seq<Sector>, w: seq<Sector>, start: nat, w': seq<Sector>, i: nat, p: nat,
                       e: seq<byte>, n: nat)
    requires Structure(g, dev, w, start) && Structure(g, dev, w', start) && i < g.cacheSize
    requires w'[i] == Overlaid(w[i], p, e) && forall n :: i < n < g.cacheSize ==> w'[n] == w[n]
    requires n < g.fatSize && (InWindow(g, start, n) ==> n - start >= i)
    ensures |Logical(g, dev, w, start)[n]| == |Logical(g, dev, w', start)[n]| == g.sectorSize
    ensures Logical(g, dev, w', start)[n] ==
            if n == start + i then Overlaid(Logical(g, dev, w, start)[n], p, e) else Logical(g, dev, w, start)[n]
  {
    LogicalSector(g, dev, w, start, n);
    LogicalSector(g, dev, w', start, n);
  }

  /** The bytes of the table when sector i of the window has the bytes e put at position p,
      and the sectors behind it are as before. */
  lemma ByteOfFailed(g: Geometry, dev: seq<Sector>, w: seq<Sector>, start: nat, w': seq<Sector>, i: nat, p: nat,
                     e: seq<byte>, q: nat)
    requires Structure(g, dev, w, start) && Structure(g, dev, w', start) && i < g.cacheSize
    requires w'[i] == Overlaid(w[i], p, e) && forall n :: i < n < g.cacheSize ==> w'[n] == w[n]
    requires HasByte(g, Logical(g, dev, w, start), q) && (Covers(g, start, q) ==> q / g.sectorSize - start >= i)
    ensures HasByte(g, Logical(g, dev, w', start), q)
    ensures ByteAt(g, Logical(g, dev, w', start), q) ==
            if q / g.sectorSize == start + i && p <= q % g.sectorSize < p + |e| then e[q % g.sectorSize - p]
            else ByteAt(g, Logical(g, dev, w, start), q)
  {
    hide Structure, Logical, AreSectors, ByteAt, Overlaid, Geometry.Valid;
    var secs, secs' := Logical(g, dev, w, start), Logical(g, dev, w', start);
    SectorOfFailed(g, dev, w, start, w', i, p, e, q / g.sectorSize);
    if q / g.sectorSize == start + i {
      OverlaidByte(g, secs, secs', p, e, q);
    } else {
      SameSectorSameByte(g, secs, secs', q);
    }
  }

  /** If any byte of an entry is cached, its first one is, or the second one of a FAT12 entry
      that starts in front of the window. */
  lemma FirstCached(g: Geometry, start: nat, c: nat) returns (k: nat)
    requires g.Valid() && AnyCached(g, start, c)
    ensures ByteCached(g, start, c, k)
    ensures k == 0 || (g.kind == FAT12 && k == 1 && !ByteCached(g, start, c, 0))
  {
    if ByteCached(g, start, c, 0) {
      k := 0;
    } else {
      k :| k < EntryWidth(g.kind) && ByteCached(g, start, c, k);
      SamePlace(g, c, k);
    }
  }

  /** Which bytes of an entry are replaced with those from byte k on. */
  lemma PlaceOf(g: Geometry, c: nat, k: nat, m: nat, n: nat)
    requires g.Valid() && (k == 0 || (g.kind == FAT12 && k == 1)) && m < EntryWidth(g.kind) && k <= m
    requires n == if g.kind == FAT32 then 4 else 1
    ensures var o, q := EntryOffset(g.kind, c) + k, EntryOffset(g.kind, c) + m;
            && q / g.sectorSize >= o / g.sectorSize
            && (q / g.sectorSize == o / g.sectorSize && o % g.sectorSize <= q % g.sectorSize < o % g.sectorSize + n
                <==> m < k + n)
            && (m < k + n ==> q % g.sectorSize == o % g.sectorSize + m - k)
  {
    SamePlace(g, c, k);
    SamePlace(g, c, m);
  }

  /** Byte m of the entry of c, when the bytes from k on were replaced in the sector they
      start in. */
  lemma EntryByteOfFailed(g: Geometry, dev: seq<Sector>, w: seq<Sector>, start: nat, w': seq<Sector>, c: nat, k: nat,
                          e: seq<byte>, m: nat)
    requires Structure(g, dev, w, start) && Structure(g, dev, w', start) && InTable(g, c) && ByteCached(g, start, c, k)
    requires k == 0 || (g.kind == FAT12 && k == 1 && !ByteCached(g, start, c, 0))
    requires m < EntryWidth(g.kind) && |e| == if g.kind == FAT32 then 4 else 1
    requires var o := EntryOffset(g.kind, c) + k;
             var i := o / g.sectorSize - start;
             w'[i] == Overlaid(w[i], o % g.sectorSize, e) && forall n :: i < n < g.cacheSize ==> w'[n] == w[n]
    ensures EntryBytes(g, Logical(g, dev, w', start), c)[m] ==
            if k <= m < k + |e| then e[m - k] else EntryBytes(g, Logical(g, dev, w, start), c)[m]
  {
    hide Structure, Logical, Overlaid, AreSectors, ByteAt, Geometry.Valid;
    var o, q := EntryOffset(g.kind, c) + k, EntryOffset(g.kind, c) + m;
    EntryIsInside(g, Logical(g, dev, w, start), c, m);
    if m < k {
      UncachedByte(g, dev, w, start, w', q);
    } else {
      PlaceOf(g, c, k, m, |e|);
      ByteOfFailed(g, dev, w, start, w', o / g.sectorSize - start, o % g.sectorSize, e, q);
    }
  }

  lemma EntryOfFailed(g: Geometry, dev: seq<Sector>, w: seq<Sector>, start: nat, w': seq<Sector>, c: nat, k: nat)
    requires Structure(g, dev, w, start) && Structure(g, dev, w', start) && InTable(g, c) && ByteCached(g, start, c, k)
    requires k == 0 || (g.kind == FAT12 && k == 1 && !ByteCached(g, start, c, 0))
    requires var o := EntryOffset(g.kind, c) + k;
             var i := o / g.sectorSize - start;
             var other := OtherEntry(g.kind, c, EntryBytes(g, Logical(g, dev, w, start), c), k);
             && w'[i] == Overlaid(w[i], o % g.sectorSize, if g.kind == FAT32 then other else [other[k]])
             && forall n :: i < n < g.cacheSize ==> w'[n] == w[n]
    ensures EntryBytes(g, Logical(g, dev, w', start), c) ==
            OtherEntry(g.kind, c, EntryBytes(g, Logical(g, dev, w, start), c), k)
  {
    hide Logical, Unpack, Overlaid, RegionOk, AreSectors;
    var secs, secs' := Logical(g, dev, w, start), Logical(g, dev, w', start);
    var other := OtherEntry(g.kind, c, EntryBytes(g, secs, c), k);
    hide EntryBytes, OtherEntry;
    var e := if g.kind == FAT32 then other else [other[k]];
    forall m: nat | m < EntryWidth(g.kind)
      ensures EntryBytes(g, secs', c)[m] == other[m]
    {
      EntryByteOfFailed(g, dev, w, start, w', c, k, e, m);
    }
  }

  /** A window half overwritten still passes for the sectors it held before. Some failed load
      changes the link of c for later readers exactly if a byte of its entry is cached. */
  lemma FailedLoadIff(g: Geometry, dev: seq<Sector>, w: seq<Sector>, start: nat, needed: nat, c: nat)
    requires Structure(g, dev, w, start) && WindowOk(g, w, needed) && InTable(g, c)
    ensures AnyCached(g, start, c) <==>
            exists i, w' :: HalfLoaded(g, dev, w, needed, i, w') && Structure(g, dev, w', start)
                            && Link(g, Logical(g, dev, w', start), c) != Link(g, Logical(g, dev, w, start), c)
  {
    hide Logical, FailedAt, HalfLoaded, RegionOk;
    if AnyCached(g, start, c) {
      var k := FirstCached(g, start, c);
      var o := EntryOffset(g.kind, c) + k;
      var i := o / g.sectorSize - start;
      var other := OtherEntry(g.kind, c, EntryBytes(g, Logical(g, dev, w, start), c), k);
      var sector := Overlaid(w[i], o % g.sectorSize, if g.kind == FAT32 then other else [other[k]]);
      FailedIsHalfLoaded(g, dev, w, start, needed, i, sector);
      EntryOfFailed(g, dev, w, start, FailedAt(g, dev, w, needed, i, sector), c, k);
    } else {
      forall i, w' | HalfLoaded(g, dev, w, needed, i, w') && Structure(g, dev, w', start)
        ensures Link(g, Logical(g, dev, w', start), c) == Link(g, Logical(g, dev, w, start), c)
      {
        UncachedSurvive(g, dev, w, start, w');
      }
    }
  }
}
