/**
  The requests a drive serves, and runs of them: what a request does to the table of links
  and to the cached count of unused clusters, whatever entries cannot be changed.
 */
module Requests {
  import opened FatChains
  import opened Allocation
  import opened Volume
  import opened FreeCount

  datatype Request =
    | Create(start: nat)
    | Extend(member: nat, count: nat)
    | Release(first: nat)
    | Query

  datatype State = State(fat: Fat, count: nat)

  ghost predicate IsValid(stuck: set<nat>, d: State) {
    IsFat(d.fat) && AreStuck(d.fat, stuck) && d.count < UINT_32
  }

  /** One request. The answer to a query is the count it leaves. */
  ghost predicate Step(stuck: set<nat>, d: State, q: Request, d': State) {
    match q
    case Create(start) => Created(d, start, d')
    case Extend(member, count) =>
      if IsCluster(d.fat, member) && count > 0
      then exists s: seq<nat> :: FullTrail(d.fat, s) && s[0] == member && d' == AfterExtend(stuck, d, s[|s| - 1], count)
      else d' == d
    case Release(first) =>
      if IsCluster(d.fat, first)
      then exists s :: IsReleased(d.fat, first, s) && d' == AfterRelease(stuck, d, s)
      else d' == d
    case Query => d' == d.(count := if d.count == FSI_UNKNOWN then CountUnused(d.fat) else d.count)
  }

  ghost predicate Created(d: State, start: nat, d': State) {
    if start >= CLUSTER_MIN_GOOD && exists c: nat :: IsUnused(d.fat, c)
    then exists r: nat :: IsFirstUnused(d.fat, start, r) && d' == State(d.fat[r := CLUSTER_EOF], Down(d.count, 1))
    else d' == d
  }

  function AfterExtend(stuck: set<nat>, d: State, tail: nat, k: nat): State
    requires IsCluster(d.fat, tail)
  {
    if d.fat[tail] == CLUSTER_EOF
    then State(Masked(Extended(d.fat, tail, k), stuck), Down(d.count, |Appended(d.fat, tail, k)|))
    else d
  }

  /** The state after n turns of the loop of an extension, before the chain is closed. */
  function AfterTurns(stuck: set<nat>, d: State, tail: nat, n: nat): State {
    State(Masked(Turned(d.fat, tail, n), stuck), Down(d.count, TakenBy(n)))
  }

  function AfterRelease(stuck: set<nat>, d: State, s: seq<nat>): State {
    State(Masked(Freed(d.fat, s), stuck), Up(d.count, |s|))
  }

  lemma StepKeepsValid(stuck: set<nat>, d: State, q: Request, d': State)
    requires IsValid(stuck, d) && Step(stuck, d, q, d')
    ensures IsValid(stuck, d') && |d'.fat| == |d.fat|
  {
    hide Extended, Freed, Appended, IsReleased, FullTrail;
    CountIsKnown(d.fat);
  }

  /* ---------- soundness ---------- */

  /** The only duty of a caller: what is released is not the middle of a chain, unless its
      entry cannot be changed. */
  ghost predicate Proper(stuck: set<nat>, fat: Fat, q: Request) {
    q.Release? && IsCluster(fat, q.first) && q.first !in stuck ==> !HasPredecessor(fat, q.first)
  }

  /** A request keeps a volume sound exactly if the caller does its duty. */
  lemma StepKeepsSound(stuck: set<nat>, d: State, q: Request, d': State)
    requires IsValid(stuck, d) && Sound(d.fat) && Step(stuck, d, q, d')
    ensures Sound(d'.fat) <==> Proper(stuck, d.fat, q)
  {
    hide Represents, IsReleased, Extended, Freed, HasPredecessor;
    var files :| Represents(d.fat, files);
    match q {
      case Create(start) =>
        if d'.fat != d.fat {
          var r: nat :| IsFirstUnused(d.fat, start, r) && d' == State(d.fat[r := CLUSTER_EOF], Down(d.count, 1));
          CreateKeepsVolume(d.fat, files, r);
        }
      case Extend(member, count) =>
        if d'.fat != d.fat {
          var s: seq<nat> :| FullTrail(d.fat, s) && s[0] == member && d' == AfterExtend(stuck, d, s[|s| - 1], count);
          ExtendStepKeepsSound(stuck, d, files, s, count);
        }
      case Release(first) =>
        if IsCluster(d.fat, first) {
          var s :| IsReleased(d.fat, first, s) && d' == AfterRelease(stuck, d, s);
          ReleaseStepKeepsSound(stuck, d, files, first, s);
        }
      case Query =>
    }
  }

  lemma ExtendStepKeepsSound(stuck: set<nat>, d: State, files: Files, s: seq<nat>, count: nat)
    requires IsValid(stuck, d) && Represents(d.fat, files) && FullTrail(d.fat, s)
    ensures Sound(AfterExtend(stuck, d, s[|s| - 1], count).fat)
  {
    var last := |s| - 1;
    if d.fat[s[last]] == CLUSTER_EOF {
      var h, i := GoodOwner(d.fat, files, s[last]);
      ExtendKeepsVolume(d.fat, files, stuck, h, count);
    }
  }

  /** The files after a release from first. Nothing is given back unless a file starts there. */
  function FilesTruncated(files: Files, first: nat, stuck: set<nat>): Files {
    if first in files && files[first] != [] then FilesReleased(files, first, stuck) else files
  }

  /** What a release from first makes unused if it is proper. */
  function GivenBack(files: Files, first: nat, stuck: set<nat>): seq<nat> {
    if first in files then ReallyFreed(files[first], stuck) else []
  }

  /** A proper release on a sound volume, from whatever cluster. */
  lemma ProperRelease(stuck: set<nat>, d: State, files: Files, first: nat, s: seq<nat>)
    requires IsValid(stuck, d) && Represents(d.fat, files) && IsReleased(d.fat, first, s)
    requires IsCluster(d.fat, first) && Proper(stuck, d.fat, Release(first))
    ensures ReallyFreed(s, stuck) == GivenBack(files, first, stuck)
    ensures AfterRelease(stuck, d, s).fat == Freed(d.fat, GivenBack(files, first, stuck))
    ensures Represents(AfterRelease(stuck, d, s).fat, FilesTruncated(files, first, stuck))
  {
    MaskedFreed(d.fat, first, s, stuck);
    if first in files {
      ChainIsReleased(d.fat, files[first]);
      ReleasedIsUnique(d.fat, first, s, files[first]);
      ReleaseKeepsVolume(d.fat, files, stuck, first);
    } else if s != [] && first !in stuck {
      assert Owned(files, first);
      SoundHeads(d.fat, files, first);
    } else {
      assert |s| > 1 ==> d.fat[s[0]] == s[1] && IsCluster(d.fat, s[1]);
      assert Freed(d.fat, []) == d.fat;
    }
  }

  /** What is released from the middle of a chain is the rest of it. */
  lemma RestIsReleased(fat: Fat, files: Files, p: nat, first: nat, s: seq<nat>)
    requires Represents(fat, files) && IsCluster(fat, p) && fat[p] == first && IsCluster(fat, first)
    requires IsReleased(fat, first, s)
    ensures s != [] && s[0] == first && p !in s
  {
    var h, i := GoodOwner(fat, files, p);
    var t := files[h][i + 1..];
    SoundEveryChainEnds(fat, files, h, i + 1);
    ChainIsReleased(fat, t);
    ReleasedIsUnique(fat, first, s, t);
    if p in t {
      var n :| 0 <= n < |t| && t[n] == p;
      OnePlace(fat, files, h, i, h, i + 1 + n);
    }
  }

  /** Giving back from the middle of a chain leaves a link to an unused cluster. */
  lemma ImproperRelease(stuck: set<nat>, d: State, files: Files, first: nat, s: seq<nat>)
    requires IsValid(stuck, d) && Represents(d.fat, files) && IsReleased(d.fat, first, s)
    requires IsCluster(d.fat, first) && !Proper(stuck, d.fat, Release(first))
    ensures !Sound(AfterRelease(stuck, d, s).fat)
  {
    hide Represents, IsReleased, Sound;
    var p: nat :| IsCluster(d.fat, p) && d.fat[p] == first;
    RestIsReleased(d.fat, files, p, first, s);
    MaskedFreed(d.fat, first, s, stuck);
    var t := ReallyFreed(s, stuck);
    assert t[0] == first && first in t && p !in t;
    if Sound(Freed(d.fat, t)) {
      SoundNoLinkToUnused(Freed(d.fat, t), p);
    }
  }

  lemma ReleaseStepKeepsSound(stuck: set<nat>, d: State, files: Files, first: nat, s: seq<nat>)
    requires IsValid(stuck, d) && Represents(d.fat, files) && IsReleased(d.fat, first, s) && IsCluster(d.fat, first)
    ensures Sound(AfterRelease(stuck, d, s).fat) <==> Proper(stuck, d.fat, Release(first))
  {
    hide Represents, IsReleased, Proper;
    if Proper(stuck, d.fat, Release(first)) {
      ProperRelease(stuck, d, files, first, s);
    } else {
      ImproperRelease(stuck, d, files, first, s);
    }
  }

  /* ---------- the count ---------- */

  /** A release whose last cluster has an entry that cannot be changed: it is counted as
      unused all the same. */
  ghost predicate Miscounts(stuck: set<nat>, fat: Fat, q: Request) {
    && q.Release? && IsCluster(fat, q.first)
    && exists s :: IsReleased(fat, q.first, s) && s != [] && s[|s| - 1] in stuck
  }

  /** By how much a known count is too high. */
  ghost function Excess(d: State): int {
    d.count - CountUnused(d.fat)
  }

  /** What a request does to the count. An unknown one becomes right by a query, and only by
      that. A known one becomes unknown, or is as wrong as it was, but for miscounting; one
      that was right does not become unknown. */
  lemma StepCounts(stuck: set<nat>, d: State, q: Request, d': State)
    requires IsValid(stuck, d) && Step(stuck, d, q, d')
    ensures d.count == FSI_UNKNOWN ==> d'.count == (if q.Query? then CountUnused(d'.fat) else FSI_UNKNOWN)
    ensures d.count != FSI_UNKNOWN && d'.count != FSI_UNKNOWN ==>
              Excess(d') == Excess(d) + if Miscounts(stuck, d.fat, q) then 1 else 0
    ensures Excess(d) == 0 ==> d'.count != FSI_UNKNOWN
  {
    hide IsReleased, Extended, Freed, Appended, ReallyFreed;
    StepKeepsValid(stuck, d, q, d');
    CountIsKnown(d.fat);
    CountIsKnown(d'.fat);
    if d' != d {
      match q {
        case Create(start) =>
          var r: nat :| IsFirstUnused(d.fat, start, r) && d' == State(d.fat[r := CLUSTER_EOF], Down(d.count, 1));
          CountUnusedUpdate(d.fat, r, CLUSTER_EOF);
        case Extend(member, count) =>
          var s: seq<nat> :| FullTrail(d.fat, s) && s[0] == member && d' == AfterExtend(stuck, d, s[|s| - 1], count);
          MaskedExtended(d.fat, stuck, s[|s| - 1], count);
        case Release(first) =>
          var s :| IsReleased(d.fat, first, s) && d' == AfterRelease(stuck, d, s);
          ReleaseCounts(stuck, d, first, s);
        case Query =>
      }
    } else if Miscounts(stuck, d.fat, q) {
      var s :| IsReleased(d.fat, q.first, s) && d' == AfterRelease(stuck, d, s);
      ReleaseCounts(stuck, d, q.first, s);
    }
  }

  lemma ReleaseCounts(stuck: set<nat>, d: State, first: nat, s: seq<nat>)
    requires IsValid(stuck, d) && IsCluster(d.fat, first) && IsReleased(d.fat, first, s)
    ensures Miscounts(stuck, d.fat, Release(first)) <==> s != [] && s[|s| - 1] in stuck
    ensures CountUnused(AfterRelease(stuck, d, s).fat) ==
            CountUnused(d.fat) + |s| - if Miscounts(stuck, d.fat, Release(first)) then 1 else 0
    ensures CountUnused(d.fat) + |s| <= |d.fat| - 2
  {
    hide IsReleased, Freed;
    MaskedFreed(d.fat, first, s, stuck);
    CountIsKnown(Freed(d.fat, s));
    forall t | IsReleased(d.fat, first, t)
      ensures t == s
    {
      ReleasedIsUnique(d.fat, first, s, t);
    }
  }

  /** A count that is unknown or right stays so exactly if it is unknown or nothing is
      miscounted. */
  lemma StepKeepsCount(stuck: set<nat>, d: State, q: Request, d': State)
    requires IsValid(stuck, d) && Step(stuck, d, q, d') && Tracks(d.count, d.fat)
    ensures Tracks(d'.count, d'.fat) <==> d.count == FSI_UNKNOWN || !Miscounts(stuck, d.fat, q)
  {
    StepCounts(stuck, d, q, d');
    CountIsKnown(d.fat);
  }

  /* ---------- runs ---------- */

  ghost predicate IsRun(stuck: set<nat>, ds: seq<State>, qs: seq<Request>) {
    && |ds| == |qs| + 1 && IsValid(stuck, ds[0])
    && forall i :: 0 <= i < |qs| ==> Step(stuck, ds[i], qs[i], ds[i + 1])
  }

  ghost predicate AllProper(stuck: set<nat>, ds: seq<State>, qs: seq<Request>)
    requires |ds| == |qs| + 1
  {
    forall i :: 0 <= i < |qs| ==> Proper(stuck, ds[i].fat, qs[i])
  }

  ghost predicate NoneMiscounts(stuck: set<nat>, ds: seq<State>, qs: seq<Request>)
    requires |ds| == |qs| + 1
  {
    forall i :: 0 <= i < |qs| ==> !Miscounts(stuck, ds[i].fat, qs[i])
  }

  /** No release miscounts, unless the count is unknown at that moment. */
  ghost predicate NoneSpoils(stuck: set<nat>, ds: seq<State>, qs: seq<Request>)
    requires |ds| == |qs| + 1
  {
    forall i :: 0 <= i < |qs| ==> ds[i].count == FSI_UNKNOWN || !Miscounts(stuck, ds[i].fat, qs[i])
  }

  /** Every query is answered with the number of unused clusters. */
  ghost predicate AnswersRight(ds: seq<State>, qs: seq<Request>)
    requires |ds| == |qs| + 1
  {
    forall i :: 0 <= i < |qs| ==> qs[i].Query? ==> ds[i + 1].count == CountUnused(ds[i + 1].fat)
  }

  /** Safety over whole runs: started on a sound volume, every table a run passes through
      is sound. */
  lemma {:induction false} RunsKeepSound(stuck: set<nat>, ds: seq<State>, qs: seq<Request>, n: nat)
    requires IsRun(stuck, ds, qs) && AllProper(stuck, ds, qs) && Sound(ds[0].fat) && n < |ds|
    ensures IsValid(stuck, ds[n]) && Sound(ds[n].fat)
  {
    if n > 0 {
      hide Step, Sound;
      RunsKeepSound(stuck, ds, qs, n - 1);
      assert Step(stuck, ds[n - 1], qs[n - 1], ds[n]);
      StepKeepsValid(stuck, ds[n - 1], qs[n - 1], ds[n]);
      StepKeepsSound(stuck, ds[n - 1], qs[n - 1], ds[n]);
    }
  }

  /** A run that starts on a sound volume stays on one throughout exactly if every release
      of it is proper. */
  lemma RunsKeepSoundIff(stuck: set<nat>, ds: seq<State>, qs: seq<Request>)
    requires IsRun(stuck, ds, qs) && Sound(ds[0].fat)
    ensures AllProper(stuck, ds, qs) <==> forall n :: 0 <= n < |ds| ==> Sound(ds[n].fat)
  {
    hide Step, Sound, Proper;
    if AllProper(stuck, ds, qs) {
      forall n | 0 <= n < |ds|
        ensures Sound(ds[n].fat)
      {
        RunsKeepSound(stuck, ds, qs, n);
      }
    } else {
      var i :| 0 <= i < |qs| && !Proper(stuck, ds[i].fat, qs[i]);
      StepAt(stuck, ds, qs, i);
      if Sound(ds[i].fat) {
        StepKeepsSound(stuck, ds[i], qs[i], ds[i + 1]);
      }
    }
  }

  lemma {:induction false} RunsKeepValid(stuck: set<nat>, ds: seq<State>, qs: seq<Request>, n: nat)
    requires IsRun(stuck, ds, qs) && n < |ds|
    ensures IsValid(stuck, ds[n])
  {
    if n > 0 {
      hide Step;
      RunsKeepValid(stuck, ds, qs, n - 1);
      assert Step(stuck, ds[n - 1], qs[n - 1], ds[n]);
      StepKeepsValid(stuck, ds[n - 1], qs[n - 1], ds[n]);
    }
  }

  lemma StepAt(stuck: set<nat>, ds: seq<State>, qs: seq<Request>, i: nat)
    requires IsRun(stuck, ds, qs) && i < |qs|
    ensures IsValid(stuck, ds[i]) && Step(stuck, ds[i], qs[i], ds[i + 1])
  {
    hide Step, IsValid;
    RunsKeepValid(stuck, ds, qs, i);
  }

  /** From any state in which the count is unknown or right, it is so ever after. */
  lemma {:induction false} RunsKeepCount(stuck: set<nat>, ds: seq<State>, qs: seq<Request>, m: nat, n: nat)
    requires IsRun(stuck, ds, qs) && NoneSpoils(stuck, ds, qs) && m <= n < |ds|
    requires Tracks(ds[m].count, ds[m].fat)
    ensures Tracks(ds[n].count, ds[n].fat)
  {
    if m < n {
      hide Step, IsValid, Miscounts, Tracks;
      RunsKeepCount(stuck, ds, qs, m, n - 1);
      StepAt(stuck, ds, qs, n - 1);
      StepKeepsCount(stuck, ds[n - 1], qs[n - 1], ds[n]);
    }
  }

  /** The count of a run that starts with an unknown or right one is unknown or right
      throughout exactly if no release miscounts while it is known. */
  lemma RunsKeepCountIff(stuck: set<nat>, ds: seq<State>, qs: seq<Request>)
    requires IsRun(stuck, ds, qs) && Tracks(ds[0].count, ds[0].fat)
    ensures NoneSpoils(stuck, ds, qs) <==> forall n :: 0 <= n < |ds| ==> Tracks(ds[n].count, ds[n].fat)
  {
    hide Step, Miscounts, Tracks;
    if NoneSpoils(stuck, ds, qs) {
      forall n | 0 <= n < |ds|
        ensures Tracks(ds[n].count, ds[n].fat)
      {
        RunsKeepCount(stuck, ds, qs, 0, n);
      }
    } else {
      var i :| 0 <= i < |qs| && !(ds[i].count == FSI_UNKNOWN || !Miscounts(stuck, ds[i].fat, qs[i]));
      StepAt(stuck, ds, qs, i);
      if Tracks(ds[i].count, ds[i].fat) {
        StepKeepsCount(stuck, ds[i], qs[i], ds[i + 1]);
      }
    }
  }

  lemma AnswersAreRight(stuck: set<nat>, ds: seq<State>, qs: seq<Request>)
    requires IsRun(stuck, ds, qs) && NoneSpoils(stuck, ds, qs) && Tracks(ds[0].count, ds[0].fat)
    ensures AnswersRight(ds, qs)
  {
    hide Miscounts;
    forall i | 0 <= i < |qs| && qs[i].Query?
      ensures ds[i + 1].count == CountUnused(ds[i + 1].fat)
    {
      RunsKeepCount(stuck, ds, qs, 0, i);
      assert Step(stuck, ds[i], qs[i], ds[i + 1]);
    }
  }

  /** Every answer of every run equals the scan exactly if the count is unknown or right at
      the start, miscounting while it is known left aside. */
  lemma AnswersRightIff(stuck: set<nat>, d: State)
    requires IsValid(stuck, d)
    ensures Tracks(d.count, d.fat) <==>
            forall ds: seq<State>, qs: seq<Request> ::
              IsRun(stuck, ds, qs) && ds[0] == d && NoneSpoils(stuck, ds, qs) ==> AnswersRight(ds, qs)
  {
    if Tracks(d.count, d.fat) {
      forall ds: seq<State>, qs: seq<Request> | IsRun(stuck, ds, qs) && ds[0] == d && NoneSpoils(stuck, ds, qs)
        ensures AnswersRight(ds, qs)
      {
        AnswersAreRight(stuck, ds, qs);
      }
    } else {
      var ds, qs := [d, d], [Query];
      assert IsRun(stuck, ds, qs) && NoneSpoils(stuck, ds, qs);
      assert qs[0].Query? && ds[1].count != CountUnused(ds[1].fat);
      assert !AnswersRight(ds, qs);
    }
  }

  /* ---------- how wrong a count is ---------- */

  /** How many of the requests from m up to, but not including, n miscount. */
  ghost function Miscounted(stuck: set<nat>, ds: seq<State>, qs: seq<Request>, m: nat, n: nat): nat
    requires n <= |qs| < |ds|
  {
    if m >= n then 0
    else Miscounted(stuck, ds, qs, m, n - 1) + if Miscounts(stuck, ds[n - 1].fat, qs[n - 1]) then 1 else 0
  }

  /** While the count stays known, every miscounting release makes it too high by one more,
      and nothing else changes how wrong it is. */
  lemma {:induction false} ExcessGrows(stuck: set<nat>, ds: seq<State>, qs: seq<Request>, m: nat, n: nat)
    requires IsRun(stuck, ds, qs) && m <= n < |ds|
    requires forall j :: m <= j <= n ==> ds[j].count != FSI_UNKNOWN
    ensures Excess(ds[n]) == Excess(ds[m]) + Miscounted(stuck, ds, qs, m, n)
    ensures Tracks(ds[n].count, ds[n].fat) <==> Excess(ds[m]) + Miscounted(stuck, ds, qs, m, n) == 0
  {
    hide Step, IsValid, Miscounts, Excess, Tracks;
    if m < n {
      ExcessGrows(stuck, ds, qs, m, n - 1);
      StepAt(stuck, ds, qs, n - 1);
      hide IsRun;
      StepCounts(stuck, ds[n - 1], qs[n - 1], ds[n]);
    }
    TracksByExcess(ds[n]);
  }

  lemma TracksByExcess(d: State)
    ensures d.count != FSI_UNKNOWN ==> (Tracks(d.count, d.fat) <==> Excess(d) == 0)
  {
  }

  /** A count that becomes known by a query is right at that moment. */
  lemma KnownAgain(stuck: set<nat>, ds: seq<State>, qs: seq<Request>, m: nat)
    requires IsRun(stuck, ds, qs) && m < |qs| && ds[m].count == FSI_UNKNOWN != ds[m + 1].count
    ensures qs[m].Query? && Excess(ds[m + 1]) == 0
  {
    hide Step, IsValid, Miscounts;
    StepAt(stuck, ds, qs, m);
    StepCounts(stuck, ds[m], qs[m], ds[m + 1]);
  }

  /** The request since which the count has been known. */
  ghost function KnownSince(ds: seq<State>, n: nat): (m: nat)
    requires n < |ds| && ds[n].count != FSI_UNKNOWN
    ensures m <= n && forall j :: m <= j <= n ==> ds[j].count != FSI_UNKNOWN
    ensures m > 0 ==> ds[m - 1].count == FSI_UNKNOWN
  {
    if n == 0 || ds[n - 1].count == FSI_UNKNOWN then n else KnownSince(ds, n - 1)
  }

  /** In every run and at every moment: a known count is right exactly if what it was off
      when it became known, and the releases miscounted since, add up to zero; and it was off
      then only if that was at the start of the run. */
  lemma CountRightIff(stuck: set<nat>, ds: seq<State>, qs: seq<Request>, n: nat)
    requires IsRun(stuck, ds, qs) && n < |ds| && ds[n].count != FSI_UNKNOWN
    ensures var m := KnownSince(ds, n);
            && (Tracks(ds[n].count, ds[n].fat) <==> Excess(ds[m]) + Miscounted(stuck, ds, qs, m, n) == 0)
            && (m > 0 ==> Excess(ds[m]) == 0)
  {
    var m := KnownSince(ds, n);
    ExcessGrows(stuck, ds, qs, m, n);
    if m > 0 {
      KnownAgain(stuck, ds, qs, m - 1);
    }
  }

  /** A count that is wrong at the start is wrong until it has run into the unknown mark, or
      has been too low and exactly as many releases have miscounted as it was short of. */
  lemma WrongCountHeals(stuck: set<nat>, ds: seq<State>, qs: seq<Request>, n: nat)
    requires IsRun(stuck, ds, qs) && !Tracks(ds[0].count, ds[0].fat) && n < |ds|
    ensures (forall j :: 0 <= j <= n ==> ds[j].count != FSI_UNKNOWN) ==>
              (Tracks(ds[n].count, ds[n].fat) <==> Excess(ds[0]) + Miscounted(stuck, ds, qs, 0, n) == 0)
    ensures NoneMiscounts(stuck, ds, qs) ==>
              (Tracks(ds[n].count, ds[n].fat) <==> exists j :: 0 <= j <= n && ds[j].count == FSI_UNKNOWN)
  {
    hide Step, Miscounts, Excess;
    if j :| 0 <= j <= n && ds[j].count == FSI_UNKNOWN {
      if NoneMiscounts(stuck, ds, qs) {
        RunsKeepCount(stuck, ds, qs, j, n);
      }
    } else {
      ExcessGrows(stuck, ds, qs, 0, n);
      TracksByExcess(ds[0]);
      if NoneMiscounts(stuck, ds, qs) {
        NoneMiscounted(stuck, ds, qs, n);
      }
    }
  }

  lemma {:induction false} NoneMiscounted(stuck: set<nat>, ds: seq<State>, qs: seq<Request>, n: nat)
    requires |ds| == |qs| + 1 && NoneMiscounts(stuck, ds, qs) && n <= |qs|
    ensures Miscounted(stuck, ds, qs, 0, n) == 0
  {
    if n > 0 {
      NoneMiscounted(stuck, ds, qs, n - 1);
    }
  }

  /** A count of zero where one cluster is unused: taking that cluster counts down to the
      unknown mark, and the next query counts again. */
  lemma RunningOutHeals()
    ensures var ds := [State([0, 0, 0], 0), State([0, 0, CLUSTER_EOF], FSI_UNKNOWN), State([0, 0, CLUSTER_EOF], 0)];
            && IsRun({}, ds, [Create(2), Query])
            && !Tracks(ds[0].count, ds[0].fat) && Tracks(ds[2].count, ds[2].fat)
            && ds[2].count == CountUnused(ds[2].fat)
  {
    var ds := [State([0, 0, 0], 0), State([0, 0, CLUSTER_EOF], FSI_UNKNOWN), State([0, 0, CLUSTER_EOF], 0)];
    var qs := [Create(2), Query];
    assert IsFirstUnused(ds[0].fat, 2, 2) && ds[0].fat[2 := CLUSTER_EOF] == ds[1].fat;
    NoneOfOneUnused();
    assert Step({}, ds[0], qs[0], ds[1]) && Step({}, ds[1], qs[1], ds[2]);
  }

  lemma NoneOfOneUnused()
    ensures CountUnused([0, 0, 0]) == 1 && CountUnused([0, 0, CLUSTER_EOF]) == 0
  {
    var a: Fat, b: Fat := [0, 0, 0], [0, 0, CLUSTER_EOF];
    assert UnusedIn(a, 2, 2) == [] && UnusedIn(b, 2, 2) == [];
    assert UnusedIn(a, 2, 3) == [2] && UnusedIn(b, 2, 3) == [];
  }
}
