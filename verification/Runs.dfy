/**
  What the operations of a drive mean for the files of a sound volume.
 */
module Runs {
  import opened FatChains
  import opened Allocation
  import opened Volume
  import opened FreeCount
  import opened Errors
  import opened Requests
  import Drive

  /** On a sound volume no tail walk runs in circles. */
  lemma SoundTrails(fat: Fat, c: nat)
    requires Sound(fat) && IsCluster(fat, c)
    ensures HasFullTrail(fat, c)
  {
    var files :| Represents(fat, files);
    if IsGoodLink(fat, fat[c]) {
      var h, i := GoodOwner(fat, files, c);
      SoundEveryChainEnds(fat, files, h, i);
      assert files[h][i..][0] == c;
    } else {
      assert FullTrail(fat, [c]) && [c][0] == c;
    }
  }

  /** An extension on a sound volume: the chain the cluster is in keeps its clusters and
      gets the appended ones behind them, and it is the chain of the same file, unless the
      entry of its tail cannot be changed. */
  lemma ExtendOnSound(stuck: set<nat>, d: State, files: Files, h: nat, i: nat, count: nat, error: Error,
                      added: Drive.Option<nat>, d': State)
    requires IsValid(stuck, d) && Represents(d.fat, files) && h in files && i < |files[h]| && count > 0
    requires Drive.IsExtendResult(stuck, d, files[h][i], count, error, added, d')
    ensures var s := files[h];
            var new_ := Appended(d.fat, s[|s| - 1], count);
            && Represents(d'.fat, FilesExtended(files, h, new_, stuck))
            && d'.count == Down(d.count, |new_|)
            && error == (if ReportsFull(d.fat, count) then DiskFull else NoError)
            && added == (if new_ == [] then Drive.None else Drive.Some(new_[0]))
  {
    hide Appended, Extended;
    var s := files[h];
    MemberLink(d.fat, files, h, i);
    MemberLink(d.fat, files, h, |s| - 1);
    TailIs(stuck, d, files, h, i, count, error, added, d');
    ExtendKeepsVolume(d.fat, files, stuck, h, count);
  }

  lemma TailIs(stuck: set<nat>, d: State, files: Files, h: nat, i: nat, count: nat, error: Error,
               added: Drive.Option<nat>, d': State)
    requires IsFat(d.fat) && Represents(d.fat, files) && h in files && i < |files[h]| && count > 0
    requires Drive.IsExtendResult(stuck, d, files[h][i], count, error, added, d')
    ensures Drive.IsTailResult(stuck, d, files[h][|files[h]| - 1], count, error, added, d')
  {
    hide Drive.IsExtendResult, Drive.IsTailResult;
    var s := files[h];
    SoundEveryChainEnds(d.fat, files, h, i);
    hide Represents;
    assert s[i..][0] == s[i] && s[i..][|s| - i - 1] == s[|s| - 1];
    Drive.ResultAtTail(stuck, d, s[i..], count, error, added, d');
  }

  /** A release on a sound volume of the first cluster of a file gives back its whole chain
      and nothing else, but for a last cluster whose entry cannot be changed. */
  lemma ReleaseOnSound(fat: Fat, files: Files, stuck: set<nat>, h: nat, released: seq<nat>)
    requires Represents(fat, files) && AreStuck(fat, stuck) && h in files && IsReleased(fat, h, released)
    ensures released == files[h]
    ensures Represents(Masked(Freed(fat, released), stuck), FilesReleased(files, h, stuck))
    ensures CountUnused(Masked(Freed(fat, released), stuck)) == CountUnused(fat) + |ReallyFreed(files[h], stuck)|
    ensures IsUnused(Masked(Freed(fat, released), stuck), h) <==> h !in stuck
    ensures forall c :: 0 <= c < |fat| ==>
              Masked(Freed(fat, released), stuck)[c] == if c in files[h] && c !in stuck then 0 else fat[c]
  {
    ChainIsReleased(fat, files[h]);
    ReleasedIsUnique(fat, h, released, files[h]);
    ReleaseKeepsVolume(fat, files, stuck, h);
    MaskedFreed(fat, h, released, stuck);
    assert files[h][0] == h && h in files[h];
  }

  /** Extending a chain and then releasing it leaves the count that releasing it at once
      leaves, exactly if it is unknown or was high enough to count the clusters down. */
  lemma ExtendThenReleaseCount(fat: Fat, stuck: set<nat>, s: seq<nat>, k: nat, released: seq<nat>, n: nat)
    requires IsFat(fat) && AreStuck(fat, stuck) && Chain(fat, s) && s[|s| - 1] !in stuck && n < UINT_32
    requires IsReleased(Masked(Extended(fat, s[|s| - 1], k), stuck), s[0], released)
    ensures Up(Down(n, |Appended(fat, s[|s| - 1], k)|), |released|) == Up(n, |s|) <==>
            n == FSI_UNKNOWN || n >= |Appended(fat, s[|s| - 1], k)|
  {
    hide Appended, Extended;
    ExtendThenRelease(fat, stuck, s, k, released);
    AppendedFacts(fat, s[|s| - 1], k);
    CountIsKnown(fat);
    ChainIsFullTrail(fat, s);
    DistinctClustersAreFew(fat, s);
  }
}
