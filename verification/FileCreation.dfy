/**
  Creating a file over one that exists: its chain is given back while other handles may
  still stand at clusters of it, or at clusters of other files. A new file has its first
  cluster only in the handle that wrote to it, until its entry is stored.
 */
module FileCreation {
  import opened FatChains
  import opened Allocation
  import opened Volume
  import opened Errors
  import opened Requests
  import Drive
  import FatBytes

  const ATTR_READ_ONLY: bv8 := 0x01
  const ATTR_HIDDEN_FILE: bv8 := 0x02
  const ATTR_SYSTEM_FILE: bv8 := 0x04
  const ATTR_VOLUME_NAME: bv8 := 0x08
  const ATTR_ARCHIVE: bv8 := 0x20

  /** The directory cluster and the index within it at which an entry is stored. */
  datatype Position = Position(dirCluster: nat, dirIndex: nat)

  datatype DirEntry = DirEntry(first: nat, size: nat, attribute: bv8, time: nat, date: nat)

  datatype Access = ReadOnly | ReadWrite

  /** The attributes a file is created with: the ones a caller may set, and the archive bit. */
  function CreatedAttribute(attribute: bv8): bv8 {
    (attribute & (ATTR_READ_ONLY | ATTR_HIDDEN_FILE | ATTR_SYSTEM_FILE | ATTR_ARCHIVE | ATTR_VOLUME_NAME))
    | ATTR_ARCHIVE
  }

  function AccessTo(attribute: bv8): Access {
    if attribute & ATTR_READ_ONLY != 0 then ReadOnly else ReadWrite
  }

  /** Bit by bit: the archive bit is set, the first three bits and that of a volume name are
      those asked for, and no other is set. */
  lemma CreatedBits(attribute: bv8)
    ensures CreatedAttribute(attribute) & 0x20 != 0 && CreatedAttribute(attribute) & 0xD0 == 0
    ensures CreatedAttribute(attribute) & 0x0F == attribute & 0x0F
    ensures AccessTo(CreatedAttribute(attribute)) == ReadOnly <==> attribute & 0x01 != 0
  {
  }

  /** What the search for an entry, or the creation of a new one, came back with. */
  datatype Lookup = Lookup(entry: Drive.Option<DirEntry>, position: Position, error: Error)

  class Handle {
    var position: Position
    var entry: DirEntry
    var access: Access
    var currentCluster: nat
    var previousCluster: nat

    constructor (entry: DirEntry)
      ensures this.entry == entry && currentCluster == 0 && previousCluster == 0
    {
      this.entry := entry;
      this.position, this.access := Position(0, 0), ReadOnly;
      this.currentCluster, this.previousCluster := 0, 0;
    }

    /** A cluster the handle remembers is none, the place behind the last one, or a cluster
        of the file that starts where the handle says. */
    ghost predicate MayHold(cluster: nat, files: Files)
      reads this`entry
    {
      IsNone(cluster) || (entry.first in files && cluster in files[entry.first])
    }

    ghost predicate IsSafe(files: Files)
      reads this`entry, this`currentCluster, this`previousCluster
    {
      MayHold(currentCluster, files) && MayHold(previousCluster, files)
    }

    /** The handle stands at a cluster, or remembers the one before. */
    ghost predicate Stands()
      reads this`currentCluster, this`previousCluster
    {
      !IsNone(currentCluster) || !IsNone(previousCluster)
    }

    /** Started over, the handle would go to a cluster that is not in use. */
    ghost predicate StartsUnused(fat: Fat)
      reads this`entry
    {
      IsUnused(fat, entry.first)
    }

    /** Started over, the handle would go to where its file starts. */
    ghost predicate RestartsRight(directory: map<Position, DirEntry>)
      reads this
    {
      position in directory && entry.first == directory[position].first
    }
  }

  ghost predicate IsNone(cluster: nat) {
    cluster == 0 || cluster == CLUSTER_EOF
  }

  /** The entry has no clusters, or its first cluster is that of a file. Several entries may
      have the same: a subdirectory is also named by entries of its own. */
  ghost predicate EntryOk(e: DirEntry, files: Files) {
    e.first == 0 || e.first in files
  }

  /** A file that starts at first is gone after a truncation, unless it has no cluster or
      the entry of its only one cannot be changed. */
  predicate Vanishes(first: nat, stuck: set<nat>) {
    first != 0 && first !in stuck
  }

  /** Every file but the one that starts at first is still there, and that one is gone, or
      as it was if it does not vanish. */
  ghost predicate KeptOrGone(files: Files, first: nat, stuck: set<nat>, files': Files) {
    && OthersKept(files, first, files')
    && (first in files ==>
          if Vanishes(first, stuck) then first !in files' else first in files' && files'[first] == files[first])
  }

  lemma TruncatedFiles(fat: Fat, files: Files, stuck: set<nat>, first: nat)
    requires Represents(fat, files) && AreStuck(fat, stuck)
    ensures 0 !in files && KeptOrGone(files, first, stuck, FilesTruncated(files, first, stuck))
  {
    forall h | h in files
      ensures h != 0
    {
      assert IsCluster(fat, files[h][0]);
    }
    if first in files {
      ReleaseKeepsOthers(fat, files, stuck, first);
      MemberLink(fat, files, first, 0);
      assert |files[first]| > 1 ==> IsCluster(fat, files[first][1]);
    }
  }

  /** An entry that had clusters, or none, still does, unless they are those that vanish. */
  lemma EntryAfterTruncation(e: DirEntry, files: Files, first: nat, stuck: set<nat>, files': Files)
    requires EntryOk(e, files) && 0 !in files && KeptOrGone(files, first, stuck, files')
    ensures EntryOk(e, files') <==> e.first != first || !Vanishes(first, stuck)
  {
  }

  /** A handle that stood in its file still does, unless that is the file that vanishes. */
  lemma HandleAfterTruncation(h: Handle, files: Files, first: nat, stuck: set<nat>, files': Files)
    requires h.IsSafe(files) && 0 !in files && KeptOrGone(files, first, stuck, files')
    ensures h.IsSafe(files') <==> !h.Stands() || h.entry.first != first || !Vanishes(first, stuck)
  {
  }

  /** When a handle that starts over at c goes to an unused cluster after a truncation: when
      it would have before, or when c was given back. The first cluster of the file is given
      back unless its entry cannot be changed, and that of another file never is. */
  lemma StartsOver(fat: Fat, files: Files, stuck: set<nat>, first: nat, c: nat)
    requires Represents(fat, files) && AreStuck(fat, stuck)
    ensures var fat' := Freed(fat, GivenBack(files, first, stuck));
            && (IsUnused(fat', c) <==> IsUnused(fat, c) || c in GivenBack(files, first, stuck))
            && (c in files ==> (IsUnused(fat', c) <==> c == first && c !in stuck))
  {
    if first in files {
      assert forall i :: 0 <= i < |files[first]| ==> IsCluster(fat, files[first][i]);
      MemberLink(fat, files, first, 0);
      assert |files[first]| > 1 ==> IsCluster(fat, files[first][1]);
      assert first !in stuck ==> GivenBack(files, first, stuck)[0] == first;
    }
    if c in files {
      MemberLink(fat, files, c, 0);
      if c != first && first in files {
        assert c in files[c];
      }
    }
  }

  /** The chain of a new file whose entry has not been stored is lost when a file is created
      over the entry: it stays in use, and no entry names it. */
  lemma LeftBehind(fat: Fat, fat': Fat, files: Files, files': Files, stuck: set<nat>,
                   directory: map<Position, DirEntry>, p: Position, e: DirEntry, mine: nat)
    requires Represents(fat, files) && Represents(fat', files') && p in directory && e.first == 0
    requires KeptOrGone(files, directory[p].first, stuck, files')
    requires mine in files && forall q :: q in directory ==> directory[q].first != mine
    ensures mine in files' && files'[mine] == files[mine] && forall c :: c in files[mine] ==> !IsUnused(fat', c)
    ensures forall q :: q in directory ==> directory[p := e][q].first != mine
  {
    MemberLink(fat, files, mine, 0);
    forall c | c in files[mine]
      ensures !IsUnused(fat', c)
    {
      var i :| 0 <= i < |files[mine]| && files[mine][i] == c;
      MemberLink(fat', files', mine, i);
    }
  }

  /** A release on a volume whose files are known keeps it sound exactly if it is proper, and
      then what is unused and what the files are is known again. */
  lemma ReleaseOnVolume(stuck: set<nat>, d: State, files: Files, first: nat, d': State)
    requires IsValid(stuck, d) && Represents(d.fat, files) && Step(stuck, d, Release(first), d')
    ensures Sound(d'.fat) <==> Proper(stuck, d.fat, Release(first))
    ensures Proper(stuck, d.fat, Release(first)) ==>
              && Represents(d'.fat, FilesTruncated(files, first, stuck))
              && d'.fat == Freed(d.fat, GivenBack(files, first, stuck))
  {
    hide Represents, IsReleased, Proper;
    assert Sound(d.fat);
    StepKeepsSound(stuck, d, Release(first), d');
    if IsCluster(d.fat, first) {
      var s :| IsReleased(d.fat, first, s) && d' == AfterRelease(stuck, d, s);
      if Proper(stuck, d.fat, Release(first)) {
        ProperRelease(stuck, d, files, first, s);
      }
    } else {
      if first in files {
        FilesAreClusters(d.fat, files, first);
      }
      assert Freed(d.fat, []) == d.fat;
    }
  }

  lemma FilesAreClusters(fat: Fat, files: Files, h: nat)
    requires Represents(fat, files) && h in files
    ensures IsCluster(fat, h)
  {
    assert IsCluster(fat, files[h][0]);
  }

  class FileSystem {
    const drive: Drive.Drive
    var handles: seq<Handle>
    var directory: map<Position, DirEntry>
    /** How many updates of the directory have failed so far. */
    ghost var failures: nat

    constructor (drive: Drive.Drive)
      ensures this.drive == drive && handles == [] && directory == map[] && failures == 0
    {
      this.drive, this.handles, this.directory, this.failures := drive, [], map[], 0;
    }

    /** Puts the entry kept in a handle back into the directory. */
    method UpdateEntry(h: Handle) returns (error: Error)
      modifies this`directory, this`failures
      ensures error == NoError ==> failures == old(failures) && directory == old(directory)[h.position := h.entry]
      ensures error != NoError ==> failures > old(failures) && directory == old(directory)
      ensures error != LostChain && error != FileExists
    {
      if * {
        failures := failures + 1;
        return ReadFault;
      }
      directory := directory[h.position := h.entry];
      return NoError;
    }

    /** Marks every open handle of the entry at p as freshly truncated. */
    method ResetHandles(p: Position)
      modifies handles
      ensures forall h :: h in handles && h.position == p ==> h.currentCluster == 0 && h.previousCluster == 0
      ensures forall h :: h in handles && h.position != p ==>
                h.currentCluster == old(h.currentCluster) && h.previousCluster == old(h.previousCluster)
      ensures forall h :: h in handles ==>
                h.position == old(h.position) && h.entry == old(h.entry) && h.access == old(h.access)
    {
      var i := 0;
      while i < |handles|
        invariant 0 <= i <= |handles|
        invariant forall n :: 0 <= n < i && handles[n].position == p ==>
                    handles[n].currentCluster == 0 && handles[n].previousCluster == 0
        invariant forall h :: h in handles && h.position != p ==>
                    h.currentCluster == old(h.currentCluster) && h.previousCluster == old(h.previousCluster)
        invariant forall h :: h in handles ==>
                    h.position == old(h.position) && h.entry == old(h.entry) && h.access == old(h.access)
      {
        if handles[i].position == p {
          handles[i].currentCluster := 0;
          handles[i].previousCluster := 0;
        }
        i := i + 1;
      }
    }

    /** Makes the entry of a handle empty, stores it, and resets every handle of it. */
    method EmptyEntry(handle: Handle, attribute: bv8, time: nat, date: nat) returns (error: Error)
      requires handle in handles
      modifies this`directory, this`failures, handles
      ensures error != LostChain && error != FileExists && failures >= old(failures)
      ensures error == NoError <==> failures == old(failures)
      ensures handle.entry == DirEntry(0, 0, attribute, time, date)
      ensures directory == if error == NoError then old(directory)[handle.position := handle.entry] else old(directory)
      ensures forall h :: h in handles ==>
                && h.position == old(h.position) && h.access == old(h.access)
                && (h != handle ==> h.entry == old(h.entry))
                && if error == NoError && h.position == handle.position
                   then h.currentCluster == 0 && h.previousCluster == 0
                   else h.currentCluster == old(h.currentCluster) && h.previousCluster == old(h.previousCluster)
    {
      handle.entry := DirEntry(0, 0, attribute, time, date);
      error := UpdateEntry(handle);
      if error == NoError {
        ResetHandles(handle.position);
      }
    }

    /** The volume is sound, its files are known, and no transfer has failed. */
    ghost predicate VolumeOk(files: Files)
      reads drive`freeCount, drive.table, drive.table.device, drive.table.window
    {
      drive.Valid() && drive.Ready() && drive.SectorsFit() && Represents(drive.Fat(), files)
    }

    /** The chain from first has been given back since the drive was in state d. The volume is
        still sound exactly if that was proper, and then its files are known and what has
        become unused. */
    ghost predicate Released(first: nat, stuck: set<nat>, d: State, files: Files)
      reads drive`freeCount, drive.table, drive.table.device, drive.table.window
    {
      && drive.Ready() && drive.SectorsFit() && drive.Stuck() == stuck && Step(stuck, d, Release(first), drive.Now())
      && (Sound(drive.Fat()) <==> Proper(stuck, d.fat, Release(first)))
      && (Proper(stuck, d.fat, Release(first)) ==>
            && VolumeOk(FilesTruncated(files, first, stuck))
            && drive.Fat() == Freed(d.fat, GivenBack(files, first, stuck)))
    }

    lemma NothingReleased(files: Files)
      requires VolumeOk(files)
      ensures Released(0, drive.Stuck(), drive.Now(), files)
    {
      hide Represents, FatBytes.Links, FatBytes.Stuck, FilesTruncated, GivenBack, Proper, Sound;
      ReleaseOnVolume(drive.Stuck(), drive.Now(), files, 0, drive.Now());
    }

    /** Gives a chain back. */
    method ReleaseFile(first: nat, ghost files: Files) returns (error: Error)
      requires VolumeOk(files)
      modifies drive`freeCount, drive`dataSectorNumber, drive`dataSectorDirty, drive.table
      modifies drive.table.device, drive.table.window
      ensures drive.Valid() && error != LostChain
      ensures !drive.table.readOnly && !drive.table.writeThrough ==> error == NoError
      ensures drive.table.device.faults >= old(drive.table.device.faults)
      ensures drive.table.device.faults == old(drive.table.device.faults) && !drive.table.readOnly ==>
                error == NoError && Released(first, old(drive.Stuck()), old(drive.Now()), files)
    {
      hide FatBytes.Links, FatBytes.Stuck, Freed, IsReleased, FilesTruncated, GivenBack, Proper, Represents;
      ghost var stuck, d := drive.Stuck(), drive.Now();
      ghost var released, dropped;
      error, released, dropped := drive.ReleaseChain(first);
      if drive.table.device.faults == old(drive.table.device.faults) && !drive.table.readOnly {
        ReleaseOnVolume(stuck, d, files, first, drive.Now());
      }
    }

    /** What creating does when the file exists: release, reset of the entry, and reset of
        every open handle of the entry. */
    method TruncateExisting(handle: Handle, attribute: bv8, time: nat, date: nat, found: Error, ghost files: Files)
      returns (saved: Error, error: Error)
      requires VolumeOk(files) && handle in handles && !drive.table.readOnly
      modifies this`directory, this`failures, handles
      modifies drive`freeCount, drive`dataSectorNumber, drive`dataSectorDirty, drive.table
      modifies drive.table.device, drive.table.window
      ensures saved != LostChain && (error == LostChain ==> found == LostChain)
      ensures saved != NoError ==>
                && drive.table.writeThrough && drive.table.device.faults > old(drive.table.device.faults)
                && error == found && directory == old(directory) && failures == old(failures)
                && handle.entry == old(handle.entry)
      ensures saved == NoError ==>
                && handle.entry == DirEntry(0, 0, attribute, time, date)
                && (error == NoError <==> failures == old(failures)) && error != FileExists
                && directory ==
                   if error == NoError then old(directory)[handle.position := handle.entry] else old(directory)
      ensures drive.table.device.faults >= old(drive.table.device.faults) && failures >= old(failures)
      ensures drive.table.device.faults == old(drive.table.device.faults) && failures == old(failures) ==>
                && saved == NoError && error == NoError && drive.Valid()
                && Released(old(handle.entry.first), old(drive.Stuck()), old(drive.Now()), files)
      ensures forall h :: h in handles ==>
                && h.position == old(h.position) && h.access == old(h.access)
                && (h != handle ==> h.entry == old(h.entry))
                && if saved == NoError && error == NoError && h.position == handle.position
                   then h.currentCluster == 0 && h.previousCluster == 0
                   else h.currentCluster == old(h.currentCluster) && h.previousCluster == old(h.previousCluster)
    {
      hide Represents, FatBytes.Links, FatBytes.Stuck, FilesTruncated, GivenBack, Proper, Sound, Step;
      hide Drive.Drive.Valid, Drive.Drive.Ready, Drive.Drive.SectorsFit, Drive.Drive.Fat, Drive.Drive.Stuck;
      error := found;
      saved := ReleaseFile(handle.entry.first, files);
      if saved == NoError || saved == LostChain {
        error := EmptyEntry(handle, attribute, time, date);
      }
    }

    /** Opens a handle on an entry and puts it at the end of the list, unless no memory is
        left for one. */
    method GetHandle(entry: DirEntry, outOfHandles: bool) returns (handle: Handle?)
      modifies this`handles
      ensures handle == null <==> outOfHandles
      ensures handle == null ==> handles == old(handles)
      ensures handle != null ==> fresh(handle) && handles == old(handles) + [handle] && handle.entry == entry
      ensures handle != null ==> handle.currentCluster == 0 && handle.previousCluster == 0
    {
      if outOfHandles {
        return null;
      }
      var made := new Handle(entry);
      handles := handles + [made];
      return made;
    }

    /** The entry that was found or newly made is in the directory, and one newly made has no
        clusters. */
    ghost predicate LookupOk(found: Lookup)
      reads this`directory
    {
      found.entry.Some? ==>
        && found.position in directory && directory[found.position] == found.entry.value
        && (found.error == NoError || found.error == FileExists)
        && (found.error == NoError ==> found.entry.value.first == 0)
    }

    /** Brings the attribute of an entry up to date, unless nothing has to be changed. */
    method StoreAttribute(handle: Handle, attribute: bv8) returns (error: Error)
      requires handle.position in directory && directory[handle.position] == handle.entry
      modifies handle`entry, this`directory, this`failures
      ensures error != LostChain && error != FileExists && failures >= old(failures)
      ensures error == NoError <==> failures == old(failures)
      ensures handle.entry == old(handle.entry).(attribute := attribute)
      ensures directory == if error == NoError then old(directory)[handle.position := handle.entry] else old(directory)
      ensures old(handle.entry.attribute) == attribute ==> error == NoError
    {
      error := NoError;
      if handle.entry.attribute != attribute {
        handle.entry := handle.entry.(attribute := attribute);
        error := UpdateEntry(handle);
      }
    }

    /** Of the entries that named a file and the handles that stood in theirs, exactly those
        of the file that vanishes do so no more, if one does. */
    ghost predicate OnlyLoses(first: nat, stuck: set<nat>, files: Files, files': Files)
      reads this, handles
    {
      && (forall q :: q in directory && EntryOk(directory[q], files) ==>
            (EntryOk(directory[q], files') <==> directory[q].first != first || !Vanishes(first, stuck)))
      && (forall h :: h in handles && h.IsSafe(files) ==>
            (h.IsSafe(files') <==> !h.Stands() || h.entry.first != first || !Vanishes(first, stuck)))
    }

    /** When the handles, started over, go to a cluster that is not in use. */
    ghost predicate StartOver(first: nat, stuck: set<nat>, files: Files, fat: Fat, fat': Fat)
      reads this`handles, handles
    {
      forall h :: h in handles ==>
        && (h.StartsUnused(fat') <==> h.StartsUnused(fat) || h.entry.first in GivenBack(files, first, stuck))
        && (h.entry.first in files ==> (h.StartsUnused(fat') <==> h.entry.first == first && first !in stuck))
    }

    lemma AfterTruncation(first: nat, stuck: set<nat>, d: State, files: Files)
      requires Represents(d.fat, files) && AreStuck(d.fat, stuck)
      requires Released(first, stuck, d, files) && Proper(stuck, d.fat, Release(first))
      ensures OnlyLoses(first, stuck, files, FilesTruncated(files, first, stuck))
      ensures StartOver(first, stuck, files, d.fat, drive.Fat())
    {
      ghost var fat := d.fat;
      hide Represents, FilesTruncated, GivenBack, KeptOrGone, EntryOk, Freed, IsUnused;
      hide Handle.IsSafe, Handle.Stands;
      TruncatedFiles(fat, files, stuck, first);
      forall q | q in directory && EntryOk(directory[q], files)
        ensures EntryOk(directory[q], FilesTruncated(files, first, stuck)) <==>
                directory[q].first != first || !Vanishes(first, stuck)
      {
        EntryAfterTruncation(directory[q], files, first, stuck, FilesTruncated(files, first, stuck));
      }
      forall h | h in handles && h.IsSafe(files)
        ensures h.IsSafe(FilesTruncated(files, first, stuck)) <==>
                !h.Stands() || h.entry.first != first || !Vanishes(first, stuck)
      {
        HandleAfterTruncation(h, files, first, stuck, FilesTruncated(files, first, stuck));
      }
      forall h | h in handles {
        StartsOver(fat, files, stuck, first, h.entry.first);
      }
    }

    /** Every entry has no clusters or those of a file, and every handle is in its file. */
    ghost predicate Agrees(files: Files)
      reads this, handles
    {
      && (forall q :: q in directory ==> EntryOk(directory[q], files))
      && (forall h :: h in handles ==> h.IsSafe(files))
    }

    /** Directory and handles that agree with the files still do after a truncation exactly if
        nothing vanishes, or no entry names what does and no handle stands in it. */
    lemma AgreesIff(first: nat, stuck: set<nat>, files: Files, files': Files)
      requires OnlyLoses(first, stuck, files, files') && Agrees(files)
      ensures Agrees(files') <==>
              || !Vanishes(first, stuck)
              || ((forall q :: q in directory ==> directory[q].first != first)
                  && (forall h :: h in handles && h.Stands() ==> h.entry.first != first))
    {
      hide EntryOk, Handle.IsSafe, Handle.Stands, Vanishes;
      forall q | q in directory
        ensures EntryOk(directory[q], files') <==> directory[q].first != first || !Vanishes(first, stuck)
      {
        assert EntryOk(directory[q], files);
      }
    }

    /** Every handle but the given one is as it was, except that those of the entry at p have
        been set back to the start of their files if reset tells so. */
    twostate predicate OthersMoved(new handle: Handle, p: Position, reset: bool)
      reads this`handles, handles
    {
      forall h :: h in old(handles) && h in handles && h != handle ==>
        && h.position == old(h.position) && h.entry == old(h.entry) && h.access == old(h.access)
        && if reset && h.position == p
           then h.currentCluster == 0 && h.previousCluster == 0
           else h.currentCluster == old(h.currentCluster) && h.previousCluster == old(h.previousCluster)
    }

    /** The outcome of creating over found when nothing fails: the chain of an existing file
        is given back and its entry made empty. If what was given back is not the middle of a
        chain, the entries and handles that lose their file, and the handles that would start
        over at an unused cluster, are known. */
    twostate predicate Created(new handle: Handle, found: Lookup, attribute: bv8, time: nat, date: nat, files: Files)
      requires found.entry.Some? && old(drive.Valid())
      reads this, handle, handles, drive`freeCount, drive.table, drive.table.device, drive.table.window
    {
      var first, stuck, fat := found.entry.value.first, old(drive.Stuck()), old(drive.Fat());
      && drive.Valid() && Released(first, stuck, old(drive.Now()), files)
      && directory == old(directory)[found.position := handle.entry]
      && handle.entry == (if found.error == FileExists then DirEntry(0, 0, attribute, time, date)
                          else found.entry.value.(attribute := attribute))
      && handle.RestartsRight(directory) && handle.currentCluster == 0 && handle.previousCluster == 0
      && (Proper(stuck, fat, Release(first)) ==>
            && OnlyLoses(first, stuck, files, FilesTruncated(files, first, stuck))
            && StartOver(first, stuck, files, fat, drive.Fat()))
    }

    /** What becomes of entry, directory and handles, whatever fails: when giving the chain of an
        existing file back ended in an error, which it does only on a write-through drive,
        nothing, and the error still says that the file exists; otherwise the handle has the
        new entry, and so has the directory unless updating it failed. Other handles of an
        existing file are set back exactly if nothing of that failed. */
    twostate predicate Filled(new handle: Handle, found: Lookup, attribute: bv8, time: nat, date: nat, error: Error)
      requires found.entry.Some?
      reads this, handle, handles, drive.table.device
    {
      && OthersMoved(handle, found.position, found.error == FileExists && error == NoError)
      && if error == FileExists then
        && found.error == FileExists && drive.table.writeThrough
        && drive.table.device.faults > old(drive.table.device.faults)
        && handle.entry == found.entry.value && directory == old(directory)
      else
        && handle.entry == (if found.error == FileExists then DirEntry(0, 0, attribute, time, date)
                            else found.entry.value.(attribute := attribute))
        && (error == NoError <==> failures == old(failures))
        && directory == if error == NoError then old(directory)[found.position := handle.entry] else old(directory)
    }

    /** What creating does once it has a handle. */
    method FillHandle(handle: Handle, found: Lookup, attr: bv8, time: nat, date: nat, ghost files: Files)
      returns (saved: Error, error: Error)
      requires VolumeOk(files) && !drive.table.readOnly && LookupOk(found) && found.entry.Some?
      requires handle in handles && handle.position == found.position && handle.entry == found.entry.value
      requires handle.currentCluster == 0 && handle.previousCluster == 0
      modifies this`directory, this`failures, handles
      modifies drive`freeCount, drive`dataSectorNumber, drive`dataSectorDirty, drive.table
      modifies drive.table.device, drive.table.window
      ensures saved != LostChain && (error == LostChain ==> found.error == LostChain)
      ensures handle.position == old(handle.position) && handle.access == old(handle.access)
      ensures drive.table.device.faults >= old(drive.table.device.faults) && failures >= old(failures)
      ensures Filled(handle, found, attr, time, date, error)
      ensures drive.table.device.faults == old(drive.table.device.faults) && failures == old(failures) ==>
                error == NoError && Created(handle, found, attr, time, date, files)
    {
      hide Represents, FatBytes.Links, FatBytes.Stuck, FilesTruncated, GivenBack, Proper, Sound, Released;
      hide OnlyLoses, StartOver, Drive.Drive.Valid, Drive.Drive.Ready, Drive.Drive.SectorsFit;
      ghost var first, stuck, d := found.entry.value.first, drive.Stuck(), drive.Now();
      NothingReleased(files);
      saved, error := NoError, found.error;
      if error == FileExists {
        saved, error := TruncateExisting(handle, attr, time, date, error, files);
      }
      if error == NoError {
        error := StoreAttribute(handle, attr);
      }
      if Released(first, stuck, d, files) && Proper(stuck, d.fat, Release(first)) {
        AfterTruncation(first, stuck, d, files);
      }
    }

    /** The part of creating a file that follows the search for its entry. */
    method CreateFound(attribute: bv8, found: Lookup, outOfHandles: bool, time: nat, date: nat, ghost files: Files)
      returns (handle: Handle?, error: Error)
      requires VolumeOk(files) && !drive.table.readOnly && LookupOk(found)
      modifies this, handles
      modifies drive`freeCount, drive`dataSectorNumber, drive`dataSectorDirty, drive.table
      modifies drive.table.device, drive.table.window
      ensures error == LostChain ==> found.error == LostChain
      ensures handle == null <==> found.entry.None? || outOfHandles
      ensures handle == null ==>
                && handles == old(handles) && directory == old(directory) && VolumeOk(files)
                && drive.Now() == old(drive.Now()) && forall h :: h in handles ==> unchanged(h)
      ensures handle == null ==> error == (if found.entry.None? then found.error else InsufficientMemory)
      ensures handle != null ==>
                && fresh(handle) && handles == old(handles) + [handle] && handle.position == found.position
                && (handle.access == ReadOnly <==> attribute & 0x01 != 0)
      ensures handle != null && error != FileExists ==>
                && handle.entry.attribute & 0x20 != 0 && handle.entry.attribute & 0xD0 == 0
                && handle.entry.attribute & 0x0F == attribute & 0x0F
                && (found.error == FileExists ==>
                      && handle.entry.first == 0 && handle.entry.size == 0
                      && handle.entry.time == time && handle.entry.date == date)
      ensures handle != null ==> Filled(handle, found, CreatedAttribute(attribute), time, date, error)
      ensures handle != null && drive.table.device.faults == old(drive.table.device.faults) &&
              failures == old(failures) ==>
                error == NoError && Created(handle, found, CreatedAttribute(attribute), time, date, files)
    {
      hide Represents, FatBytes.Links, FatBytes.Stuck, CreatedAttribute, Drive.Drive.Valid;
      hide Drive.Drive.Ready, Drive.Drive.SectorsFit, FilesTruncated, Proper, Sound, Step;
      hide Drive.Drive.Fat, Drive.Drive.Stuck, OnlyLoses, StartOver, Handle.RestartsRight, Released;
      hide AccessTo, VolumeOk;
      CreatedBits(attribute);
      handle := null;
      error := found.error;
      var saved := NoError;
      var attr := CreatedAttribute(attribute);
      var access := AccessTo(attr);
      if found.entry.Some? {
        var made := GetHandle(found.entry.value, outOfHandles);
        handle := made;
        if made != null {
          made.position := found.position;
          made.access := access;
          made.currentCluster := 0;
          made.previousCluster := 0;
          saved, error := FillHandle(made, found, attr, time, date, files);
        } else {
          error := InsufficientMemory;
        }
      }
      if error == NoError && saved == LostChain {
        error := saved;
      }
    }

    /** Creates a file, or truncates the one that exists. outOfHandles tells that no memory
        is left for a handle; locked is what locking the drive came back with. */
    method CreateFile(attribute: bv8, pathname: string, locked: Error, found: Lookup, outOfHandles: bool, time: nat,
                      date: nat, ghost files: Files)
      returns (handle: Handle?, error: Error)
      requires VolumeOk(files) && (attribute & 0x08 == 0 ==> LookupOk(found))
      modifies this, handles
      modifies drive`freeCount, drive`dataSectorNumber, drive`dataSectorDirty, drive.table
      modifies drive.table.device, drive.table.window
      ensures error == LostChain ==> found.error == LostChain || locked == LostChain
      ensures handle == null ==>
                && handles == old(handles) && directory == old(directory) && VolumeOk(files)
                && drive.Now() == old(drive.Now()) && forall h :: h in handles ==> unchanged(h)
      ensures pathname == [] ==> handle == null && error == InvalidParameter
      ensures pathname != [] && drive.table.readOnly ==> handle == null && error == WriteProtected
      ensures pathname != [] && !drive.table.readOnly && locked != NoError ==> handle == null && error == locked
      ensures pathname != [] && !drive.table.readOnly && locked == NoError ==>
                && (found.entry.None? || attribute & 0x08 != 0 ==> handle == null && error == found.error)
                && (found.entry.Some? && attribute & 0x08 == 0 && outOfHandles ==>
                      handle == null && error == InsufficientMemory)
                && (found.entry.Some? && attribute & 0x08 == 0 && !outOfHandles ==> handle != null)
      ensures handle != null ==>
                && fresh(handle) && handles == old(handles) + [handle] && handle.position == found.position
                && (handle.access == ReadOnly <==> attribute & 0x01 != 0)
      ensures handle != null && error != FileExists ==>
                && handle.entry.attribute & 0x20 != 0 && handle.entry.attribute & 0xD0 == 0
                && handle.entry.attribute & 0x0F == attribute & 0x0F
                && (found.error == FileExists ==>
                      && handle.entry.first == 0 && handle.entry.size == 0
                      && handle.entry.time == time && handle.entry.date == date)
      ensures handle != null ==> Filled(handle, found, CreatedAttribute(attribute), time, date, error)
      ensures handle != null && drive.table.device.faults == old(drive.table.device.faults) &&
              failures == old(failures) ==>
                error == NoError && Created(handle, found, CreatedAttribute(attribute), time, date, files)
    {
      hide Created, Filled;
      if pathname == [] {
        return null, InvalidParameter;
      }
      if drive.table.readOnly {
        return null, WriteProtected;
      }
      if locked != NoError {
        return null, locked;
      }
      if attribute & ATTR_VOLUME_NAME != 0 {
        return null, found.error;
      }
      handle, error := CreateFound(attribute, found, outOfHandles, time, date, files);
    }
  }
}
