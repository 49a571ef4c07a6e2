/**
  The cluster operations of a drive: searching, linking, releasing and counting clusters.
 */
module Drive {
  import opened FatChains
  import opened Allocation
  import opened DataArea
  import opened FreeCount
  import opened Errors
  import opened Requests
  import FatBytes
  import FatCache
  import FatTable

  const MAX_UINT_32: nat := 0xFFFF_FFFF

  datatype Option<+T> = None | Some(value: T)

  /** What an extension by count from a cluster of a chain has to leave and return. */
  ghost predicate IsExtendResult(stuck: set<nat>, d: State, c: nat, count: nat, error: Error, added: Option<nat>,
                                 d': State)
    requires IsFat(d.fat)
  {
    if !IsCluster(d.fat, c) then error == InvalidClusterNumber && added == None && d' == d
    else if count == 0 then error == NoError && added == None && d' == d
    else
      exists s: seq<nat> ::
        FullTrail(d.fat, s) && s[0] == c && IsTailResult(stuck, d, s[|s| - 1], count, error, added, d')
  }

  /** The same from the tail on. The error and the cluster returned do not tell whether the
      entry of the tail could be changed. */
  ghost predicate IsTailResult(stuck: set<nat>, d: State, tail: nat, count: nat, error: Error, added: Option<nat>,
                               d': State)
    requires IsCluster(d.fat, tail)
  {
    var s := Appended(d.fat, tail, count);
    && d' == AfterExtend(stuck, d, tail, count)
    && if d.fat[tail] != CLUSTER_EOF then error == LostChain && added == None
       else
         && error == (if ReportsFull(d.fat, count) then DiskFull else NoError)
         && added == (if s == [] then None else Some(s[0]))
  }

  /** The state an extension by count of the chain that ends in tail has stopped in. */
  ghost predicate IsStopped(stuck: set<nat>, d: State, tail: nat, count: nat, error: Error, d': State)
    requires IsCluster(d.fat, tail)
  {
    exists n: nat ::
      && n <= count && n <= MaxTurns(d.fat)
      && if error == DiskFull
         then n < count && d' == AfterExtend(stuck, d, tail, n)
         else d' == AfterTurns(stuck, d, tail, n)
  }

  lemma StoppedAtOnce(stuck: set<nat>, d: State, s: seq<nat>, count: nat, error: Error)
    requires IsFat(d.fat) && AreStuck(d.fat, stuck) && d.count < UINT_32 && FullTrail(d.fat, s) && error != DiskFull
    ensures IsStopped(stuck, d, s[|s| - 1], count, error, d)
  {
    NothingTurned(d.fat, s[|s| - 1]);
    NothingMasked(d.fat, stuck);
    assert d == AfterTurns(stuck, d, s[|s| - 1], 0);
  }

  /** Ending the chain where the loop stopped, in links and count. */
  lemma ClosedTurns(stuck: set<nat>, d: State, tail: nat, n: nat, count: nat)
    requires AreStuck(d.fat, stuck) && d.count < UINT_32 && IsCluster(d.fat, tail) && d.fat[tail] == CLUSTER_EOF
    requires n <= MaxTurns(d.fat) && n <= count && (n == count || n == MaxTurns(d.fat))
    ensures var last, r := LastAfter(d.fat, tail, n), AfterTurns(stuck, d, tail, n);
            && IsCluster(d.fat, last)
            && AfterExtend(stuck, d, tail, count) ==
               if n == 0 then r
               else State(Masked(r.fat[last := CLUSTER_EOF], stuck), Counted(r.count, r.fat[last], CLUSTER_EOF))
    ensures ReportsFull(d.fat, count) <==> n < count
  {
    hide Turned, LastAfter, Appended, Extended;
    TurnsClosed(d.fat, tail, n, count);
    LastIsLinked(d.fat, stuck, tail, n);
    MaskedUpdate(Turned(d.fat, tail, n), stuck, LastAfter(d.fat, tail, n), CLUSTER_EOF);
    DownDown(d.count, TakenBy(n), 1);
    NothingTurned(d.fat, tail);
  }

  /** The walk to the tail being determined, so is the tail a result is about. */
  lemma ResultAtTail(stuck: set<nat>, d: State, s: seq<nat>, count: nat, error: Error, added: Option<nat>, d': State)
    requires IsFat(d.fat) && FullTrail(d.fat, s) && count > 0
    requires IsExtendResult(stuck, d, s[0], count, error, added, d')
    ensures IsTailResult(stuck, d, s[|s| - 1], count, error, added, d')
  {
    hide IsTailResult;
    var t: seq<nat> :|
      FullTrail(d.fat, t) && t[0] == s[0] && IsTailResult(stuck, d, t[|t| - 1], count, error, added, d');
    FullTrailIsUnique(d.fat, t, s);
  }

  lemma ExtendIsStep(stuck: set<nat>, d: State, c: nat, count: nat, error: Error, added: Option<nat>, d': State)
    requires IsFat(d.fat) && IsExtendResult(stuck, d, c, count, error, added, d')
    ensures Step(stuck, d, Extend(c, count), d')
  {
    if IsCluster(d.fat, c) && count > 0 {
      var s: seq<nat> :|
        FullTrail(d.fat, s) && s[0] == c && IsTailResult(stuck, d, s[|s| - 1], count, error, added, d');
      assert d' == AfterExtend(stuck, d, s[|s| - 1], count);
    }
  }

  lemma WrittenMasked(fat: Fat, stuck: set<nat>, kind: FatBytes.FatType, c: nat, code: nat)
    requires AreStuck(fat, stuck) && IsCluster(fat, c) && FatBytes.IsCode(kind, code)
    ensures fat[c := FatBytes.ReadBack(kind, c !in stuck, code)] == Masked(fat[c := code], stuck)
  {
    FatBytes.ReadBackIsCode(kind, true, code);
  }

  class Drive {
    const table: FatTable.Table
    const area: Area
    var dataSectorNumber: nat
    var dataSectorDirty: bool
    var freeCount: nat
    var nextFreeCluster: nat

    ghost predicate Valid()
      reads this`freeCount, table, table.device, table.window
    {
      table.Valid() && freeCount < UINT_32
    }

    /** No transfer has failed so far that left the cached table in doubt. */
    ghost predicate Ready()
      reads this`freeCount, table, table.device, table.window
    {
      Valid() && table.Coherent()
    }

    ghost function Fat(): (fat: Fat)
      requires Valid()
      reads this`freeCount, table, table.device, table.window
      ensures IsFat(fat) && |fat| == table.g.lastCluster + 1
    {
      table.Fat()
    }

    /** The clusters whose entries cannot be changed. */
    ghost function Stuck(): (stuck: set<nat>)
      requires Valid()
      reads this`freeCount, table, table.device, table.window
      ensures AreStuck(Fat(), stuck)
    {
      table.Stuck()
    }

    ghost function Now(): State
      requires Valid()
      reads this`freeCount, table, table.device, table.window
    {
      State(Fat(), freeCount)
    }

    /** Links and count are as they were before. */
    twostate predicate Kept()
      requires old(Valid())
      reads this`freeCount, table, table.device, table.window
    {
      && Ready() && table.Sectors() == old(table.Sectors()) && freeCount == old(freeCount)
      && Now() == old(Now()) && Stuck() == old(Stuck())
    }

    /** Loading the cache has failed: the links of which no byte was cached are as they were. */
    twostate predicate PartlyKept()
      requires old(Valid())
      reads this`freeCount, table, table.device, table.window
    {
      && Valid() && freeCount == old(freeCount)
      && FatCache.UncachedKept(table.g, table.start, old(table.Sectors()), table.Sectors())
    }

    /** A drive as it is after mounting: no data sector is cached, and what is known about
        unused clusters is what the volume says, on FAT32, or nothing. */
    constructor (table: FatTable.Table, area: Area, freeCount: nat, nextFreeCluster: nat)
      requires table.Valid() && freeCount < UINT_32 && nextFreeCluster < UINT_32
      ensures Valid() && this.table == table && this.area == area
      ensures this.freeCount == freeCount && this.nextFreeCluster == nextFreeCluster
      ensures dataSectorNumber == MAX_UINT_32 && !dataSectorDirty
    {
      this.table, this.area := table, area;
      this.dataSectorNumber, this.dataSectorDirty := MAX_UINT_32, false;
      this.freeCount, this.nextFreeCluster := freeCount, nextFreeCluster;
    }

    method IncrementFreeClusters()
      requires freeCount < UINT_32
      modifies this`freeCount
      ensures freeCount == Up(old(freeCount), 1) < UINT_32
    {
      if freeCount != FSI_UNKNOWN {
        freeCount := (freeCount + 1) % UINT_32;
      }
    }

    method DecrementFreeClusters()
      requires freeCount < UINT_32
      modifies this`freeCount
      ensures freeCount == Down(old(freeCount), 1) < UINT_32
    {
      if freeCount != FSI_UNKNOWN {
        freeCount := (freeCount + UINT_32 - 1) % UINT_32;
      }
    }

    /** Writes a link, and keeps the count of unused clusters. An entry that cannot be changed
        stays as it is, but is counted as if it had been written. */
    method PutFat(c: nat, code: nat) returns (error: Error)
      requires Valid()
      modifies this`freeCount, table, table.device, table.window
      ensures Valid() && table.device.faults >= old(table.device.faults) && table.LossCounted()
      ensures table.readOnly ==> error == WriteProtected
      ensures !table.readOnly ==>
                (error == NoError <==> IsCluster(old(Fat()), c) && table.device.faults == old(table.device.faults))
      ensures old(Ready()) && error == NoError ==>
                && Ready() && Stuck() == old(Stuck())
                && Fat() == old(Fat())[c := FatBytes.ReadBack(table.g.kind, c !in old(Stuck()), code)]
                && freeCount == Counted(old(freeCount), old(Fat())[c], code)
      ensures old(Ready()) && error == NoError ==>
                var n := old(freeCount);
                freeCount == if n == 0xFFFF_FFFF || (code == 0 <==> old(Fat())[c] == 0) then n
                             else if code == 0 then n + 1 else if n == 0 then 0xFFFF_FFFF else n - 1
      ensures old(Ready()) && error == NoError && FatBytes.IsCode(table.g.kind, code) ==>
                Fat() == Masked(old(Fat())[c := code], Stuck())
      ensures error != NoError && table.dirty ==> table.lost == old(table.lost)
      ensures old(Ready()) && error != NoError && table.lost == old(table.lost) ==> Kept()
      ensures error != DiskFull
      ensures old(table.CopiesAgree()) ==> table.CopiesAgree()
      ensures error == LostChain ==> table.device.faults > old(table.device.faults)
    {
      hide FatBytes.Links, FatBytes.Stuck, FatBytes.ReadBack;
      if table.readOnly {
        return WriteProtected;
      }
      ghost var was := Fat();
      var previous;
      error, previous := table.PutEntry(c, code);
      if error == NoError {
        if code == CLUSTER_UNUSED && previous != CLUSTER_UNUSED {
          IncrementFreeClusters();
        } else if code != CLUSTER_UNUSED && previous == CLUSTER_UNUSED {
          DecrementFreeClusters();
        }
        if old(Ready()) {
          if FatBytes.IsCode(table.g.kind, code) {
            WrittenMasked(was, Stuck(), table.g.kind, c, code);
          }
        }
      }
    }

    /** One of the two loops of a search, which differ in their bounds only: looks at the
        clusters from lo up to, but not including, hi; done says that the search ends here. */
    method FindUnusedClusterIn(lo: nat, hi: nat) returns (done: bool, r: nat)
      requires Ready()
      modifies this`nextFreeCluster, table, table.device, table.window
      ensures Valid() && table.device.faults >= old(table.device.faults) && table.LossCounted()
      ensures nextFreeCluster == if done && r != CLUSTER_INVALID then r else old(nextFreeCluster)
      ensures table.device.faults > old(table.device.faults) ==> done && r == CLUSTER_INVALID
      ensures !done ==> r == CLUSTER_INVALID
      ensures table.dirty ==> table.lost == old(table.lost)
      ensures table.lost == old(table.lost) ==> Kept()
      ensures table.device.faults > old(table.device.faults) ==> PartlyKept()
      ensures table.device.faults == old(table.device.faults) ==> IsRangeResult(Fat(), lo, hi, done, r)
    {
      hide FatBytes.Links, FatBytes.Stuck;
      ghost var fat := Fat();
      var cluster := lo;
      while cluster < hi
        invariant lo <= cluster && (lo < cluster ==> CLUSTER_MIN_GOOD <= lo && cluster <= |fat|)
        invariant Kept() && Fat() == fat && nextFreeCluster == old(nextFreeCluster)
        invariant table.device.faults == old(table.device.faults) && table.lost == old(table.lost)
        invariant NoneUnused(fat, lo, cluster)
      {
        var error, status := table.GetClusterFromFat(cluster);
        if error != NoError {
          return true, CLUSTER_INVALID;
        } else if status == CLUSTER_UNUSED {
          nextFreeCluster := cluster;
          return true, cluster;
        }
        cluster := cluster + 1;
      }
      return false, CLUSTER_INVALID;
    }

    /** The first unused cluster from start on, or CLUSTER_INVALID. */
    method FindUnusedClusterFrom(start: nat) returns (r: nat)
      requires Ready()
      modifies this`nextFreeCluster, table, table.device, table.window
      ensures Valid() && table.device.faults >= old(table.device.faults) && table.LossCounted()
      ensures nextFreeCluster == if r == CLUSTER_INVALID then old(nextFreeCluster) else r
      ensures table.readOnly || table.device.faults > old(table.device.faults) ==> r == CLUSTER_INVALID
      ensures table.dirty ==> table.lost == old(table.lost)
      ensures table.lost == old(table.lost) ==> Kept()
      ensures table.device.faults > old(table.device.faults) ==> PartlyKept()
      ensures table.device.faults == old(table.device.faults) ==> table.readOnly || IsSearchResult(Fat(), start, r)
      ensures table.device.faults == old(table.device.faults) && !table.readOnly ==>
                && (r == 1 <==> start < 2 || forall c :: 2 <= c < |Fat()| ==> Fat()[c] != 0)
                && (r != 1 ==> 2 <= r < |Fat()| && Fat()[r] == 0)
                && (r != 1 ==> forall c :: 2 <= c < |Fat()| && Fat()[c] == 0 ==>
                      (if r >= start then r - start else r + |Fat()| - start) <=
                      (if c >= start then c - start else c + |Fat()| - start))
    {
      hide FatBytes.Links, FatBytes.Stuck;
      r := CLUSTER_INVALID;
      if !table.readOnly {
        var done;
        done, r := FindUnusedClusterIn(start, table.g.lastCluster + 1);
        if table.device.faults == old(table.device.faults) {
          SearchInTwoRanges(old(Fat()), start, done, r);
        }
        if !done {
          done, r := FindUnusedClusterIn(CLUSTER_MIN_GOOD, start);
        }
        if table.device.faults == old(table.device.faults) {
          SearchTells(Fat(), start, r);
        }
      }
    }

    /** All sectors of all clusters have 32-bit numbers below the one that stands for no
        sector. */
    ghost predicate SectorsFit() {
      && area.sectorsPerCluster > 0 && table.g.lastCluster >= 1
      && area.start + (table.g.lastCluster - 1) * area.sectorsPerCluster <= 0xFFFF_FFFF
    }

    /** The number that stands for no sector belongs to no cluster. */
    lemma NoSectorIsNoCluster(c: nat)
      requires SectorsFit() && FatBytes.InTable(table.g, c)
      ensures !IsSectorOf(area, 0xFFFF_FFFF, c)
    {
      SectorBehindAll(area, c, table.g.lastCluster, MAX_UINT_32);
    }

    method InvalidateDataSector() returns (error: Error)
      modifies this`dataSectorNumber, this`dataSectorDirty
      ensures error == NoError
      ensures if table.readOnly
              then dataSectorNumber == old(dataSectorNumber) && dataSectorDirty == old(dataSectorDirty)
              else dataSectorNumber == MAX_UINT_32 && !dataSectorDirty
    {
      if !table.readOnly {
        dataSectorNumber := MAX_UINT_32;
        dataSectorDirty := false;
      }
      return NoError;
    }

    /** Every copy of the table on the device is the table a reader sees. */
    ghost predicate IsDurable()
      requires table.Valid()
      reads table, table.device, table.window
    {
      && !table.dirty
      && forall f :: 0 <= f < table.g.copies ==>
        FatCache.CopyHolds(table.g, table.device.sectors, f, table.Sectors())
    }

    method WriteBackFat() returns (error: Error)
      requires Valid()
      modifies table, table.device, table.window
      ensures Valid() && table.device.faults >= old(table.device.faults) && table.LossCounted()
      ensures table.readOnly ==> error == WriteProtected
      ensures !table.readOnly ==> (error == NoError <==> table.device.faults == old(table.device.faults))
      ensures !table.readOnly && !table.writeThrough ==> error == NoError
      ensures old(Ready()) ==> Kept()
      ensures table.dirty ==> old(table.dirty)
      ensures table.lost == old(table.lost)
      ensures old(Ready() && table.CopiesAgree()) && error == NoError && table.writeThrough ==> IsDurable()
      ensures error != LostChain
    {
      hide FatBytes.Links, FatBytes.Stuck, FatCache.Mirrored;
      if table.readOnly {
        return WriteProtected;
      }
      if table.writeThrough {
        error := table.FlushFatCache();
      } else {
        error := NoError;
      }
    }

    /** The cached data sector lies in none of the clusters s. */
    ghost predicate DataSectorOutside(s: seq<nat>)
      reads this`dataSectorNumber
    {
      forall i :: 0 <= i < |s| ==> FatBytes.InTable(table.g, s[i]) && !IsSectorOf(area, dataSectorNumber, s[i])
    }

    /** The cached data sector, which was sector n and dirty or not, has been dropped if it lay
        in one of the clusters s, and only then. */
    ghost predicate DroppedFor(n: nat, dirty: bool, s: seq<nat>)
      reads this`dataSectorNumber, this`dataSectorDirty
    {
      if IsSectorOfAny(n, s) then dataSectorNumber == 0xFFFF_FFFF && !dataSectorDirty
      else dataSectorNumber == n && dataSectorDirty == dirty
    }

    ghost predicate IsSectorOfAny(sector: nat, s: seq<nat>) {
      exists i :: 0 <= i < |s| && IsSectorOf(area, sector, s[i])
    }

    lemma NothingDropped()
      ensures DataSectorOutside([]) && DroppedFor(dataSectorNumber, dataSectorDirty, [])
    {
    }

    lemma AnyOfOneMore(sector: nat, s: seq<nat>, c: nat)
      ensures IsSectorOfAny(sector, s + [c]) <==> IsSectorOfAny(sector, s) || IsSectorOf(area, sector, c)
    {
      assert (s + [c])[|s|] == c && forall i :: 0 <= i < |s| ==> (s + [c])[i] == s[i];
    }

    /** Drops the cached data sector if it belongs to a cluster about to be given back. */
    method DropDataSectorOf(c: nat, ghost released: seq<nat>, ghost n: nat, ghost dirty: bool) returns (error: Error)
      requires SectorsFit() && FatBytes.InTable(table.g, c) && !table.readOnly
      requires DataSectorOutside(released) && DroppedFor(n, dirty, released)
      modifies this`dataSectorNumber, this`dataSectorDirty
      ensures error == NoError && DataSectorOutside(released + [c]) && DroppedFor(n, dirty, released + [c])
    {
      SectorsOfCluster(area, dataSectorNumber, c);
      NoSectorIsNoCluster(c);
      AnyOfOneMore(n, released, c);
      hide ClusterToSector, IsSectorOf, IsSectorOfAny;
      var firstSector := ClusterToSector(area, c);
      var lastSector := firstSector + area.sectorsPerCluster - 1;
      error := NoError;
      if dataSectorNumber >= firstSector && dataSectorNumber <= lastSector {
        error := InvalidateDataSector();
        forall i | 0 <= i < |released| ensures !IsSectorOf(area, dataSectorNumber, released[i]) {
          NoSectorIsNoCluster(released[i]);
        }
      }
    }

    /** One turn of the loop of a release, once the link of the cluster has been read. */
    method ReleaseCluster(c: nat, ghost released: seq<nat>, ghost n: nat, ghost dirty: bool) returns (error: Error)
      requires Ready() && SectorsFit() && !table.readOnly && IsCluster(Fat(), c)
      requires DataSectorOutside(released) && DroppedFor(n, dirty, released)
      modifies this`freeCount, this`dataSectorNumber, this`dataSectorDirty, table, table.device, table.window
      ensures Valid() && DataSectorOutside(released + [c]) && DroppedFor(n, dirty, released + [c])
      ensures table.device.faults >= old(table.device.faults) && table.LossCounted()
      ensures error == NoError <==> table.device.faults == old(table.device.faults)
      ensures error == NoError ==>
                && Ready() && Stuck() == old(Stuck())
                && Fat() == Masked(old(Fat())[c := CLUSTER_UNUSED], Stuck())
                && (c !in Stuck() ==> Fat() == old(Fat())[c := CLUSTER_UNUSED])
                && freeCount == Counted(old(freeCount), old(Fat())[c], CLUSTER_UNUSED)
      ensures error != NoError && table.dirty ==> table.lost == old(table.lost)
      ensures error != NoError && table.lost == old(table.lost) ==> Kept()
      ensures old(table.CopiesAgree()) ==> table.CopiesAgree()
    {
      hide FatCache.Mirrored, FatBytes.Links, FatBytes.Stuck;
      error := DropDataSectorOf(c, released, n, dirty);
      if error != NoError {
        return;
      }
      error := PutFat(c, CLUSTER_UNUSED);
    }

    /** The loop of a release: follows the links from first and marks entries unused. The cached
        data sector is dropped if it lies in one of the clusters dropped, which are those
        given back and, if writing the next entry failed, that one's. */
    method ReleaseClusters(first: nat) returns (error: Error, ghost released: seq<nat>, ghost dropped: seq<nat>)
      requires Ready() && SectorsFit() && !table.readOnly && IsCluster(Fat(), first)
      modifies this`freeCount, this`dataSectorNumber, this`dataSectorDirty, table, table.device, table.window
      ensures Valid() && table.device.faults >= old(table.device.faults) && table.LossCounted()
      ensures table.device.faults == old(table.device.faults) ==> IsReleased(old(Fat()), first, released)
      ensures table.dirty ==> table.lost == old(table.lost)
      ensures table.lost == old(table.lost) ==>
                && Ready() && Stuck() == old(Stuck()) && Now() == AfterRelease(Stuck(), old(Now()), released)
                && AreClusters(old(Fat()), released)
                && Releasing(old(Fat()), first, released, NextOf(old(Fat()), first, released))
      ensures old(table.CopiesAgree()) ==> table.CopiesAgree()
      ensures table.device.faults == old(table.device.faults) ==> dropped == released
      ensures released <= dropped && |dropped| <= |released| + 1
      ensures DataSectorOutside(dropped) && DroppedFor(old(dataSectorNumber), old(dataSectorDirty), dropped)
    {
      hide FatBytes.Links, FatBytes.Stuck, FatTable.Table.CopiesAgree, DataSectorOutside, DroppedFor, SectorsFit;
      ghost var fat, stuck, n := Fat(), Stuck(), freeCount;
      var cluster: nat := first;
      released, dropped := [], [];
      assert Freed(fat, released) == fat;
      NothingDropped();
      UnusedInBound(fat, CLUSTER_MIN_GOOD, |fat|);
      while true
        invariant Ready() && Stuck() == stuck && Fat() == Freed(fat, released) && freeCount == Up(n, |released|)
        invariant table.device.faults == old(table.device.faults) && table.lost == old(table.lost)
        invariant Releasing(fat, first, released, cluster) && IsCluster(fat, cluster)
        invariant dropped == released && (old(table.CopiesAgree()) ==> table.CopiesAgree())
        invariant DataSectorOutside(released) && DroppedFor(old(dataSectorNumber), old(dataSectorDirty), released)
        decreases |fat| - CountUnused(Fat())
      {
        ghost var before := Fat();
        NothingMasked(before, stuck);
        var next;
        error, next := table.GetClusterFromFat(cluster);
        if error != NoError {
          return;
        } else if (next > table.g.lastCluster || next < CLUSTER_MIN_GOOD) && next != CLUSTER_EOF {
          ReleaseStops(fat, first, released, cluster);
          return LostChain, released, dropped;
        }
        error := ReleaseCluster(cluster, released, old(dataSectorNumber), old(dataSectorDirty));
        dropped := dropped + [cluster];
        if error != NoError {
          return;
        }
        ReleaseNext(fat, first, released, cluster);
        UpUp(n, |released|, 1);
        CountUnusedUpdate(before, cluster, CLUSTER_UNUSED);
        UnusedInBound(Fat(), CLUSTER_MIN_GOOD, |fat|);
        released := released + [cluster];
        cluster := next;
        if cluster == CLUSTER_EOF {
          ReleaseStops(fat, first, released, cluster);
          return;
        }
      }
    }

    /** Gives back the clusters of a chain, on any table whatsoever, and drops the cached data
        sector if it lies in one of them. How the loop ended is forgotten: its error is
        overwritten by that of writing the table back. */
    method ReleaseChain(first: nat) returns (error: Error, ghost released: seq<nat>, ghost dropped: seq<nat>)
      requires Ready() && SectorsFit()
      modifies this`freeCount, this`dataSectorNumber, this`dataSectorDirty, table, table.device, table.window
      ensures Valid() && table.device.faults >= old(table.device.faults) && table.LossCounted()
      ensures table.readOnly ==> error == WriteProtected
      ensures !table.readOnly && !table.writeThrough ==> error == NoError
      ensures table.device.faults == old(table.device.faults) && !table.readOnly ==> error == NoError
      ensures table.device.faults == old(table.device.faults) ==>
                if table.readOnly || !IsCluster(old(Fat()), first) then released == []
                else IsReleased(old(Fat()), first, released)
      ensures table.dirty ==> table.lost == old(table.lost)
      ensures table.lost == old(table.lost) ==>
                && Ready() && Stuck() == old(Stuck()) && Now() == AfterRelease(Stuck(), old(Now()), released)
                && AreClusters(old(Fat()), released)
                && Releasing(old(Fat()), first, released, NextOf(old(Fat()), first, released))
      ensures table.device.faults == old(table.device.faults) && !table.readOnly ==>
                Step(Stuck(), old(Now()), Release(first), Now())
      ensures table.device.faults == old(table.device.faults) && !table.readOnly ==>
                (table.writeThrough && IsCluster(old(Fat()), first) && old(table.CopiesAgree()) ==> IsDurable())
      ensures table.device.faults == old(table.device.faults) ==> dropped == released
      ensures released <= dropped && |dropped| <= |released| + 1
      ensures DataSectorOutside(dropped) && DroppedFor(old(dataSectorNumber), old(dataSectorDirty), dropped)
      ensures error != LostChain
    {
      hide FatBytes.Links, FatBytes.Stuck, FatTable.Table.CopiesAgree, IsDurable, IsReleased;
      NothingMasked(Fat(), Stuck());
      released, dropped := [], [];
      assert Freed(Fat(), released) == Fat();
      if table.readOnly {
        return WriteProtected, [], [];
      }
      if first >= CLUSTER_MIN_GOOD && first <= table.g.lastCluster {
        error, released, dropped := ReleaseClusters(first);
        error := WriteBackFat();
      } else {
        error := NoError;
      }
    }

    /** The tail walk of an extension. It ends on exactly the tables on which the links
        from c do not run in circles. */
    method FindTail(c: nat) returns (error: Error, tail: nat, ghost trail: seq<nat>)
      requires Ready() && IsCluster(Fat(), c) && HasFullTrail(Fat(), c)
      modifies table, table.device, table.window
      ensures Valid() && table.device.faults >= old(table.device.faults) && table.LossCounted()
      ensures table.device.faults > old(table.device.faults) ==> error != NoError
      ensures error != DiskFull
      ensures table.dirty ==> table.lost == old(table.lost)
      ensures table.lost == old(table.lost) ==> Kept()
      ensures table.device.faults > old(table.device.faults) ==> PartlyKept()
      ensures FullTrail(old(Fat()), trail) && trail[0] == c
      ensures table.device.faults == old(table.device.faults) ==>
                && trail[|trail| - 1] == tail
                && error == (if Fat()[tail] == CLUSTER_EOF then NoError else LostChain)
    {
      hide FatBytes.Links, FatBytes.Stuck;
      ghost var fat := Fat();
      ghost var s :| FullTrail(fat, s) && s[0] == c;
      trail := s;
      tail := c;
      ghost var i := 0;
      while true
        invariant 0 <= i < |s| && tail == s[i] && trail == s
        invariant Kept() && Fat() == fat
        invariant table.device.faults == old(table.device.faults) && table.lost == old(table.lost)
        decreases |s| - i
      {
        var next;
        error, next := table.GetClusterFromFat(tail);
        TrailLink(fat, s, i);
        if error != NoError {
          return;
        } else if (next > table.g.lastCluster || next < CLUSTER_MIN_GOOD) && next != CLUSTER_EOF {
          error := LostChain;
          return;
        }
        if next == CLUSTER_EOF {
          return;
        }
        tail := next;
        i := i + 1;
      }
    }

    /** The state after n turns of the loop of an extension of d. */
    ghost predicate IsTurned(d: State, tail: nat, n: nat)
      reads this`freeCount, table, table.device, table.window
    {
      Ready() && Now() == AfterTurns(Stuck(), d, tail, n)
    }

    /** One turn of the loop of an extension, the one after n others: finds an unused
        cluster and links it behind the cluster linked last. */
    method LinkCluster(last: nat, ghost d: State, ghost tail: nat, ghost n: nat) returns (error: Error, next: nat)
      requires !table.readOnly && d.count < UINT_32 && IsTurned(d, tail, n) && AreStuck(d.fat, Stuck())
      requires IsCluster(d.fat, tail) && d.fat[tail] == CLUSTER_EOF
      requires n <= MaxTurns(d.fat) && last == LastAfter(d.fat, tail, n)
      modifies this`nextFreeCluster, this`freeCount, table, table.device, table.window
      ensures Valid() && table.device.faults >= old(table.device.faults) && table.LossCounted()
      ensures error != NoError ==> table.device.faults > old(table.device.faults)
      ensures table.device.faults > old(table.device.faults) ==> error != NoError || next == CLUSTER_INVALID
      ensures error != DiskFull
      ensures table.device.faults == old(table.device.faults) ==> (next == CLUSTER_INVALID <==> n == MaxTurns(d.fat))
      ensures table.lost == old(table.lost) ==>
                && Stuck() == old(Stuck())
                && if error == NoError && next != CLUSTER_INVALID
                   then IsTurned(d, tail, n + 1) && next == LastAfter(d.fat, tail, n + 1) && n < MaxTurns(d.fat)
                   else IsTurned(d, tail, n)
    {
      hide FatBytes.Links, FatBytes.Stuck, Turned, LastAfter, IsSearchResult;
      ghost var stuck := Stuck();
      error := NoError;
      next := FindUnusedClusterFrom(last + 1);
      if table.device.faults == old(table.device.faults) {
        TurnFindsMasked(d.fat, stuck, tail, n, next);
        if next != CLUSTER_INVALID {
          TurnedNext(d.fat, tail, n);
          MaskedUpdate(Turned(d.fat, tail, n), stuck, last, next);
          DownDown(d.count, TakenBy(n), 1);
          TurnLinksCluster(d.fat, tail, n, next);
        }
      }
      if next != CLUSTER_INVALID {
        error := PutFat(last, next);
      }
    }

    /** The loop of an extension: links count clusters behind tail, or as many as the
        searches find. */
    method LinkClusters(tail: nat, count: nat) returns (error: Error, added: Option<nat>, last: nat, extended: nat)
      requires Ready() && !table.readOnly && IsCluster(Fat(), tail) && Fat()[tail] == CLUSTER_EOF
      modifies this`nextFreeCluster, this`freeCount, table, table.device, table.window
      ensures Valid() && table.device.faults >= old(table.device.faults) && table.LossCounted()
      ensures error != NoError ==> table.device.faults > old(table.device.faults)
      ensures table.device.faults > old(table.device.faults) ==> error != NoError || extended < count
      ensures extended <= count
      ensures error != DiskFull
      ensures table.lost == old(table.lost) ==>
                && IsTurned(old(Now()), tail, extended) && Stuck() == old(Stuck())
                && extended <= MaxTurns(old(Fat())) && last == LastAfter(old(Fat()), tail, extended)
      ensures table.device.faults == old(table.device.faults) ==>
                && (extended < count ==> extended == MaxTurns(old(Fat())))
                && added == (if extended == 0 then None else Some(LastAfter(old(Fat()), tail, 1)))
    {
      hide FatBytes.Links, FatBytes.Stuck;
      ghost var d, stuck := Now(), Stuck();
      NothingMasked(d.fat, stuck);
      last := tail;
      extended := 0;
      error, added := NoError, None;
      assert IsTurned(d, tail, 0);
      while extended < count
        invariant table.device.faults == old(table.device.faults) && table.lost == old(table.lost) && error == NoError
        invariant IsTurned(d, tail, extended) && Stuck() == stuck
        invariant extended <= MaxTurns(d.fat) && extended <= count
        invariant last == LastAfter(d.fat, tail, extended)
        invariant added == (if extended == 0 then None else Some(LastAfter(d.fat, tail, 1)))
      {
        hide IsTurned;
        var next;
        error, next := LinkCluster(last, d, tail, extended);
        if error != NoError || next == CLUSTER_INVALID {
          return;
        }
        if extended == 0 {
          added := Some(next);
        }
        extended := extended + 1;
        last := next;
      }
    }

    /** What an extension does once it stands at the end of the chain. When saving the cache has
        failed, the loop has stopped somewhere: either that was closed as a chain, and is reported
        as a full disk, or it was not. */
    method AppendClusters(tail: nat, count: nat) returns (error: Error, added: Option<nat>)
      requires Ready() && !table.readOnly && IsCluster(Fat(), tail) && Fat()[tail] == CLUSTER_EOF && count > 0
      modifies this`nextFreeCluster, this`freeCount, table, table.device, table.window
      ensures Valid() && table.device.faults >= old(table.device.faults) && table.LossCounted()
      ensures error == NoError ==> table.device.faults == old(table.device.faults)
      ensures table.device.faults == old(table.device.faults) ==>
                IsTailResult(Stuck(), old(Now()), tail, count, error, added, Now())
      ensures table.lost == old(table.lost) ==> Ready() && Stuck() == old(Stuck())
      ensures table.lost == old(table.lost) && table.device.faults > old(table.device.faults) ==>
                IsStopped(Stuck(), old(Now()), tail, count, error, Now())
    {
      hide FatBytes.Links, FatBytes.Stuck, Turned, LastAfter, Appended, Extended;
      ghost var d, stuck := Now(), Stuck();
      var last, extended;
      error, added, last, extended := LinkClusters(tail, count);
      if error != NoError {
        return;
      }
      ghost var quiet := table.device.faults == old(table.device.faults);
      if table.lost == old(table.lost) {
        ClosedTurns(stuck, d, tail, extended, extended);
        if quiet {
          ClosedTurns(stuck, d, tail, extended, count);
          FirstAppended(d.fat, tail, count);
          NothingTurned(d.fat, tail);
        }
      }
      if extended > 0 {
        error := PutFat(last, CLUSTER_EOF);
      }
      if extended < count && error == NoError {
        error := DiskFull;
      }
    }

    /** Appends count clusters to the chain c belongs to. On a table on which the links
        from c run in circles the tail walk would not end. */
    method ExtendChain(c: nat, count: nat) returns (error: Error, added: Option<nat>)
      requires Ready()
      requires !table.readOnly && IsCluster(Fat(), c) && count > 0 ==> HasFullTrail(Fat(), c)
      modifies this`nextFreeCluster, this`freeCount, table, table.device, table.window
      ensures Valid() && table.device.faults >= old(table.device.faults) && table.LossCounted()
      ensures error == NoError ==> table.device.faults == old(table.device.faults)
      ensures table.readOnly ==> error == WriteProtected && added == None && Kept()
      ensures table.lost == old(table.lost) ==> Ready() && Stuck() == old(Stuck())
      ensures table.lost == old(table.lost) && table.device.faults > old(table.device.faults) ==>
                exists s: seq<nat> ::
                  && FullTrail(old(Fat()), s) && s[0] == c
                  && IsStopped(Stuck(), old(Now()), s[|s| - 1], count, error, Now())
      ensures table.device.faults == old(table.device.faults) && !table.readOnly ==>
                && IsExtendResult(Stuck(), old(Now()), c, count, error, added, Now())
                && Step(Stuck(), old(Now()), Extend(c, count), Now())
      ensures !table.readOnly && !(2 <= c <= table.g.lastCluster) ==>
                error == InvalidClusterNumber && added == None && Kept()
      ensures !table.readOnly && 2 <= c <= table.g.lastCluster && count == 0 ==>
                error == NoError && added == None && Kept()
    {
      hide FatBytes.Links, FatBytes.Stuck, Step;
      added := None;
      ghost var d, stuck := Now(), Stuck();
      if table.readOnly {
        return WriteProtected, None;
      }
      if c < CLUSTER_MIN_GOOD || c > table.g.lastCluster {
        ExtendIsStep(stuck, d, c, count, InvalidClusterNumber, None, d);
        return InvalidClusterNumber, None;
      }
      if count <= 0 {
        ExtendIsStep(stuck, d, c, count, NoError, None, d);
        return NoError, None;
      }
      var tail;
      ghost var trail;
      error, tail, trail := FindTail(c);
      if error == NoError {
        error, added := AppendClusters(tail, count);
        assert trail[|trail| - 1] == tail;
      } else if table.lost == old(table.lost) && table.device.faults > old(table.device.faults) {
        StoppedAtOnce(stuck, d, trail, count, error);
      }
      if table.device.faults == old(table.device.faults) {
        assert FullTrail(d.fat, trail) && trail[0] == c;
        assert IsTailResult(stuck, d, trail[|trail| - 1], count, error, added, Now());
        ExtendIsStep(stuck, d, c, count, error, added, Now());
      }
    }

    method AddClusterToChain(c: nat) returns (error: Error, added: Option<nat>)
      requires Ready()
      requires !table.readOnly && IsCluster(Fat(), c) ==> HasFullTrail(Fat(), c)
      modifies this`nextFreeCluster, this`freeCount, table, table.device, table.window
      ensures Valid() && table.device.faults >= old(table.device.faults) && table.LossCounted()
      ensures error == NoError ==> table.device.faults == old(table.device.faults)
      ensures table.readOnly ==> error == WriteProtected && added == None && Kept()
      ensures table.lost == old(table.lost) ==> Ready() && Stuck() == old(Stuck())
      ensures table.lost == old(table.lost) && table.device.faults > old(table.device.faults) ==>
                exists s: seq<nat> ::
                  && FullTrail(old(Fat()), s) && s[0] == c
                  && IsStopped(Stuck(), old(Now()), s[|s| - 1], 1, error, Now())
      ensures table.device.faults == old(table.device.faults) && !table.readOnly ==>
                && IsExtendResult(Stuck(), old(Now()), c, 1, error, added, Now())
                && Step(Stuck(), old(Now()), Extend(c, 1), Now())
    {
      error, added := ExtendChain(c, 1);
    }

    /** Counts the unused clusters, entry by entry. */
    method CountUnusedClusters() returns (error: Error, freeSlots: nat)
      requires Ready()
      modifies table, table.device, table.window
      ensures Valid() && table.device.faults >= old(table.device.faults) && table.LossCounted()
      ensures error == NoError <==> table.device.faults == old(table.device.faults)
      ensures table.dirty ==> table.lost == old(table.lost)
      ensures table.lost == old(table.lost) ==> Kept()
      ensures error != NoError ==> PartlyKept()
      ensures error == NoError ==> freeSlots == CountUnused(Fat())
    {
      hide FatBytes.Links, FatBytes.Stuck;
      ghost var fat := Fat();
      error, freeSlots := NoError, 0;
      var k := CLUSTER_MIN_GOOD;
      while k <= table.g.lastCluster
        invariant CLUSTER_MIN_GOOD <= k <= |fat|
        invariant Kept() && Fat() == fat
        invariant table.device.faults == old(table.device.faults) && table.lost == old(table.lost)
        invariant error == NoError && freeSlots == |UnusedIn(fat, CLUSTER_MIN_GOOD, k)|
      {
        var status;
        error, status := table.GetClusterFromFat(k);
        if error != NoError {
          return;
        } else if status == CLUSTER_UNUSED {
          freeSlots := freeSlots + 1;
        }
        k := k + 1;
      }
    }

    /** The number of unused clusters: the cached one, or one counted now and then cached. */
    method GetDiskFreeSpaceInternal() returns (error: Error, freeSlots: nat)
      requires Ready()
      modifies this`freeCount, table, table.device, table.window
      ensures Valid() && table.device.faults >= old(table.device.faults) && table.LossCounted()
      ensures error == NoError <==> table.device.faults == old(table.device.faults)
      ensures error != NoError ==> freeCount == old(freeCount)
      ensures table.dirty ==> table.lost == old(table.lost)
      ensures error != NoError && table.lost == old(table.lost) ==> Kept()
      ensures error == NoError ==>
                && Ready() && Stuck() == old(Stuck()) && freeSlots == freeCount
                && freeSlots == (if old(freeCount) == 0xFFFF_FFFF then CountUnused(old(Fat())) else old(freeCount))
                && Step(Stuck(), old(Now()), Query, Now())
                && (freeSlots == CountUnused(Fat()) <==> Tracks(old(freeCount), old(Fat())))
    {
      error := NoError;
      CountIsKnown(Fat());
      if freeCount == FSI_UNKNOWN {
        error, freeSlots := CountUnusedClusters();
        if error == NoError {
          freeCount := freeSlots;
        }
      } else {
        freeSlots := freeCount;
      }
    }

    /** Takes a first cluster for a file that has none. */
    method AllocateFirstCluster() returns (error: Error, first: nat)
      requires Ready()
      modifies this`nextFreeCluster, this`freeCount, table, table.device, table.window
      ensures Valid() && table.device.faults >= old(table.device.faults) && table.LossCounted()
      ensures error == NoError ==> table.device.faults == old(table.device.faults)
      ensures table.device.faults == old(table.device.faults) ==>
                && Ready() && Stuck() == old(Stuck())
                && (table.readOnly ==> error == DiskFull && Kept())
                && (error == NoError <==> first != CLUSTER_INVALID)
                && (error == NoError ==>
                      && IsFirstUnused(old(Fat()), old(nextFreeCluster), first)
                      && Fat() == old(Fat())[first := CLUSTER_EOF] && freeCount == Down(old(freeCount), 1))
                && (error != NoError ==> error == DiskFull && Kept())
                && (!table.readOnly ==>
                      && (error != NoError <==> old(nextFreeCluster) < CLUSTER_MIN_GOOD || CountUnused(old(Fat())) == 0)
                      && Step(Stuck(), old(Now()), Create(old(nextFreeCluster)), Now()))
    {
      hide FatBytes.Links, FatBytes.Stuck;
      ghost var fat, stuck := Fat(), Stuck();
      var next := FindUnusedClusterFrom(nextFreeCluster);
      first := CLUSTER_INVALID;
      if table.device.faults == old(table.device.faults) {
        SomethingToCount(fat);
      }
      if next != CLUSTER_INVALID {
        error := PutFat(next, CLUSTER_EOF);
        if error == NoError {
          first := next;
          if table.device.faults == old(table.device.faults) {
            NothingMasked(fat[next := CLUSTER_EOF], stuck);
          }
        }
      } else {
        error := DiskFull;
      }
    }
  }
}
