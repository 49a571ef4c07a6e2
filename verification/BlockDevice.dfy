/**
  The block device under the file system. Every transfer may fail; a failed one may leave
  anything in the sector or buffer it was writing to.
 */
module BlockDevice {
  import opened Bytes
  import opened Errors

  class Device {
    var sectors: seq<Sector>
    /** How many transfers have failed so far. */
    ghost var faults: nat

    constructor (content: seq<Sector>)
      ensures sectors == content && faults == 0
    {
      sectors := content;
      faults := 0;
    }

    /** Any error a transfer can fail with. */
    method Failure() returns (error: Error)
      ensures error != NoError && IsTransferError(error)
    {
      error := *;
      if error == NoError || !IsTransferError(error) {
        error := ReadFault;
      }
    }

    method ReadSector(n: nat) returns (error: Error, data: Sector)
      modifies this`faults
      ensures error == NoError ==> n < |sectors| && data == sectors[n] && faults == old(faults)
      ensures error != NoError ==> faults > old(faults)
      ensures n < |sectors| ==> |data| == |sectors[n]|
      ensures IsTransferError(error)
    {
      if n >= |sectors| {
        faults := faults + 1;
        return SectorNotFound, [];
      }
      if * {
        var partial: Sector := *;
        faults := faults + 1;
        error := Failure();
        return error, if |partial| == |sectors[n]| then partial else sectors[n];
      }
      return NoError, sectors[n];
    }

    method WriteSector(n: nat, data: Sector) returns (error: Error)
      modifies this
      ensures |sectors| == |old(sectors)|
      ensures forall k :: 0 <= k < |sectors| && k != n ==> sectors[k] == old(sectors)[k]
      ensures n < |sectors| && |old(sectors)[n]| == |data| ==> |sectors[n]| == |data|
      ensures error == NoError ==> n < |sectors| && sectors[n] == data && faults == old(faults)
      ensures error != NoError ==> faults > old(faults)
      ensures IsTransferError(error)
    {
      if n >= |sectors| {
        faults := faults + 1;
        return SectorNotFound;
      }
      if * {
        var partial: Sector := *;
        faults := faults + 1;
        sectors := sectors[n := if |partial| == |data| then partial else data];
        error := Failure();
        return;
      }
      sectors := sectors[n := data];
      return NoError;
    }
  }
}
