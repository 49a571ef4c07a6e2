/**
  The file allocation table as a sequence of links, indexed by cluster number, and
  the vocabulary of the allocator: trails, chains, the cyclic search order, and the
  tables that result from linking and freeing clusters.
 */
module FatChains {

  const CLUSTER_UNUSED: nat := 0x0000000
  const CLUSTER_INVALID: nat := 0x0000001
  const CLUSTER_MIN_GOOD: nat := 0x0000002
  const CLUSTER_BAD: nat := 0xFFFFFF7
  const CLUSTER_EOF: nat := 0xFFFFFFF

  type Fat = seq<nat>

  /** The last cluster number is one less than the length of the table. */
  predicate IsCluster(fat: Fat, c: nat) {
    CLUSTER_MIN_GOOD <= c < |fat|
  }

  predicate IsFat(fat: Fat) {
    2 <= |fat| < CLUSTER_BAD
  }

  ghost predicate Distinct(s: seq<nat>) {
    forall i, j :: 0 <= i < j < |s| ==> s[i] != s[j]
  }

  ghost predicate Ascending(s: seq<nat>) {
    forall i, j :: 0 <= i < j < |s| ==> s[i] < s[j]
  }

  function Elements(s: seq<nat>): set<nat> {
    set c | c in s
  }

  /* ---------- trails and chains ---------- */

  predicate AreClusters(fat: Fat, s: seq<nat>) {
    forall i :: 0 <= i < |s| ==> IsCluster(fat, s[i])
  }

  /** Each cluster of a trail links to the next one. */
  ghost predicate Trail(fat: Fat, s: seq<nat>) {
    && s != []
    && AreClusters(fat, s)
    && forall i :: 0 <= i < |s| - 1 ==> fat[s[i]] == s[i + 1]
  }

  /** A trail that cannot be continued: its last link names no cluster. */
  ghost predicate FullTrail(fat: Fat, s: seq<nat>) {
    Trail(fat, s) && !IsCluster(fat, fat[s[|s| - 1]])
  }

  ghost predicate Chain(fat: Fat, s: seq<nat>) {
    Trail(fat, s) && fat[s[|s| - 1]] == CLUSTER_EOF
  }

  ghost predicate HasFullTrail(fat: Fat, c: nat) {
    exists s :: FullTrail(fat, s) && s[0] == c
  }

  /** Following links from the same cluster gives the same clusters. */
  lemma {:induction false} TrailsAgree(fat: Fat, s: seq<nat>, i: nat, t: seq<nat>, j: nat, n: nat)
    requires Trail(fat, s) && Trail(fat, t)
    requires i + n < |s| && j + n < |t|
    requires s[i] == t[j]
    ensures s[i + n] == t[j + n]
  {
    if n > 0 {
      TrailsAgree(fat, s, i, t, j, n - 1);
      assert fat[s[i + (n - 1)]] == s[i + n] && fat[t[j + (n - 1)]] == t[j + n];
    }
  }

  /** A full trail never meets a cluster twice. */
  lemma FullTrailIsDistinct(fat: Fat, s: seq<nat>)
    requires FullTrail(fat, s)
    ensures Distinct(s)
  {
    forall i, j | 0 <= i < j < |s| ensures s[i] != s[j] {
      var n := |s| - 1 - j;
      assert fat[s[i + n]] == s[i + n + 1];
      if s[i] == s[j] {
        TrailsAgree(fat, s, i, s, j, n);
      }
    }
  }

  lemma FullTrailIsUnique(fat: Fat, s: seq<nat>, t: seq<nat>)
    requires FullTrail(fat, s) && FullTrail(fat, t) && s[0] == t[0]
    ensures s == t
  {
    if |s| <= |t| {
      TrailsAreNested(fat, s, t);
    } else {
      TrailsAreNested(fat, t, s);
    }
  }

  lemma TrailsAreNested(fat: Fat, s: seq<nat>, t: seq<nat>)
    requires FullTrail(fat, s) && Trail(fat, t) && s[0] == t[0] && |s| <= |t|
    ensures s == t
  {
    assert |s| < |t| ==> fat[t[|s| - 1]] == t[|s|];
    forall n | 0 <= n < |s| ensures s[n] == t[n] {
      TrailsAgree(fat, s, 0, t, 0, n);
    }
  }

  lemma TrailLink(fat: Fat, s: seq<nat>, i: nat)
    requires FullTrail(fat, s) && i < |s|
    ensures IsCluster(fat, s[i])
    ensures if IsCluster(fat, fat[s[i]]) then i + 1 < |s| && s[i + 1] == fat[s[i]] else i + 1 == |s|
  {
    if i + 1 < |s| {
      assert fat[s[i]] == s[i + 1];
    }
  }

  lemma ChainIsFullTrail(fat: Fat, s: seq<nat>)
    requires IsFat(fat) && Chain(fat, s)
    ensures FullTrail(fat, s) && Distinct(s)
  {
    FullTrailIsDistinct(fat, s);
  }

  /** The first n clusters met when following links from c, or fewer if the trail ends. */
  ghost function Walk(fat: Fat, c: nat, n: nat): (s: seq<nat>)
    requires IsCluster(fat, c)
    ensures |s| <= n + 1 && Trail(fat, s) && s[0] == c
    ensures |s| == n + 1 || FullTrail(fat, s)
    decreases n
  {
    if n == 0 || !IsCluster(fat, fat[c]) then [c] else [c] + Walk(fat, fat[c], n - 1)
  }

  /** Pigeonhole: distinct clusters of one table are no more than its clusters. */
  lemma DistinctClustersAreFew(fat: Fat, s: seq<nat>)
    requires IsFat(fat) && AreClusters(fat, s) && Distinct(s)
    ensures |s| <= |fat| - 2
  {
    DistinctSize(s);
    ClusterSetIsSmall(Elements(s), |fat|);
  }

  lemma {:induction false} ClusterSetIsSmall(a: set<nat>, n: nat)
    requires n >= CLUSTER_MIN_GOOD && forall c :: c in a ==> CLUSTER_MIN_GOOD <= c < n
    ensures |a| <= n - CLUSTER_MIN_GOOD
  {
    if a != {} {
      ClusterSetIsSmall(a - {n - 1}, n - 1);
    }
  }

  lemma {:induction false} DistinctSize(s: seq<nat>)
    requires Distinct(s)
    ensures |Elements(s)| == |s|
  {
    if s != [] {
      var last := |s| - 1;
      DistinctSize(s[..last]);
      assert s[last] !in s[..last];
      assert s == s[..last] + [s[last]];
      assert Elements(s) == Elements(s[..last]) + {s[last]};
    }
  }

  /** A tail walk ends exactly when, within as many steps as there are clusters, it
      reaches a link that names no cluster; otherwise it runs through clusters for ever. */
  lemma TailWalkEndsOrNever(fat: Fat, c: nat)
    requires IsFat(fat) && IsCluster(fat, c)
    ensures HasFullTrail(fat, c) <==> |Walk(fat, c, |fat|)| <= |fat| - 2
    ensures !HasFullTrail(fat, c) ==> forall n: nat :: |Walk(fat, c, n)| == n + 1
  {
    var w := Walk(fat, c, |fat|);
    if HasFullTrail(fat, c) {
      var s :| FullTrail(fat, s) && s[0] == c;
      FullTrailIsDistinct(fat, s);
      DistinctClustersAreFew(fat, s);
      if !FullTrail(fat, w) {
        TrailsAreNested(fat, s, w);
      } else {
        FullTrailIsUnique(fat, s, w);
      }
    } else {
      forall n: nat ensures |Walk(fat, c, n)| == n + 1 {
        assert !FullTrail(fat, Walk(fat, c, n));
      }
    }
  }

  /* ---------- the cyclic search order ---------- */

  ghost predicate IsUnused(fat: Fat, c: nat) {
    IsCluster(fat, c) && fat[c] == CLUSTER_UNUSED
  }

  /** How far cluster c lies behind start when counting past the last cluster goes on
      at the first one. */
  function Distance(fat: Fat, start: nat, c: nat): int {
    if c >= start then c - start else c + |fat| - start
  }

  ghost predicate ByDistance(fat: Fat, start: nat, s: seq<nat>) {
    forall i, j :: 0 <= i < j < |s| ==> Distance(fat, start, s[i]) < Distance(fat, start, s[j])
  }

  /** u lists exactly the unused clusters, in the order a cyclic search from start meets them. */
  ghost predicate IsSearchOrder(fat: Fat, start: nat, u: seq<nat>) {
    && ByDistance(fat, start, u)
    && (forall i :: 0 <= i < |u| ==> IsUnused(fat, u[i]))
    && (forall c :: IsUnused(fat, c) ==> c in u)
  }

  /** r is the first unused cluster met from start on. */
  ghost predicate IsFirstUnused(fat: Fat, start: nat, r: nat) {
    && IsUnused(fat, r)
    && forall c :: IsUnused(fat, c) ==> Distance(fat, start, r) <= Distance(fat, start, c)
  }

  /** The unused clusters from lo up to, but not including, hi, in ascending order. */
  function UnusedIn(fat: Fat, lo: nat, hi: nat): seq<nat>
    requires hi <= |fat|
  {
    if lo >= hi then []
    else UnusedIn(fat, lo, hi - 1) + (if fat[hi - 1] == CLUSTER_UNUSED then [hi - 1] else [])
  }

  function CountUnused(fat: Fat): nat {
    |UnusedIn(fat, CLUSTER_MIN_GOOD, |fat|)|
  }

  /** All unused clusters, in the order in which a cyclic search from start meets them. */
  function UnusedFrom(fat: Fat, start: nat): seq<nat> {
    if start >= |fat| then UnusedIn(fat, CLUSTER_MIN_GOOD, |fat|)
    else UnusedIn(fat, start, |fat|) + UnusedIn(fat, CLUSTER_MIN_GOOD, start)
  }

  lemma {:induction false} UnusedInMembers(fat: Fat, lo: nat, hi: nat)
    requires hi <= |fat|
    ensures forall c :: c in UnusedIn(fat, lo, hi) <==> lo <= c < hi && fat[c] == CLUSTER_UNUSED
  {
    if lo < hi {
      UnusedInMembers(fat, lo, hi - 1);
    }
  }

  function UnusedSet(fat: Fat, hi: nat): set<nat>
    requires hi <= |fat|
  {
    set c: nat | 2 <= c < hi && fat[c] == 0
  }

  lemma {:induction false} UnusedInSize(fat: Fat, hi: nat)
    requires 2 <= hi <= |fat|
    ensures |UnusedIn(fat, 2, hi)| == |UnusedSet(fat, hi)|
  {
    if hi > 2 {
      UnusedInSize(fat, hi - 1);
      var before := UnusedSet(fat, hi - 1);
      assert UnusedSet(fat, hi) == if fat[hi - 1] == 0 then before + {hi - 1} else before;
    } else {
      assert UnusedSet(fat, hi) == {};
    }
  }

  /** The count is the size of the set of unused clusters. */
  lemma CountIsSize(fat: Fat)
    requires IsFat(fat)
    ensures CountUnused(fat) == |set c: nat | 2 <= c < |fat| && fat[c] == 0|
  {
    UnusedInSize(fat, |fat|);
  }

  lemma SomethingToCount(fat: Fat)
    ensures CountUnused(fat) == 0 <==> forall c: nat :: !IsUnused(fat, c)
  {
    UnusedInMembers(fat, CLUSTER_MIN_GOOD, |fat|);
    var u := UnusedIn(fat, CLUSTER_MIN_GOOD, |fat|);
    if u != [] {
      assert u[0] in u && IsUnused(fat, u[0]);
    }
  }

  lemma {:induction false} UnusedInAscends(fat: Fat, lo: nat, hi: nat)
    requires hi <= |fat|
    ensures Ascending(UnusedIn(fat, lo, hi))
  {
    if lo < hi {
      UnusedInAscends(fat, lo, hi - 1);
      var before := UnusedIn(fat, lo, hi - 1);
      forall i | 0 <= i < |before| ensures before[i] < hi - 1 {
        UnusedInMembers(fat, lo, hi - 1);
        assert before[i] in before;
      }
    }
  }

  lemma {:induction false} UnusedInSplit(fat: Fat, lo: nat, mid: nat, hi: nat)
    requires lo <= mid <= hi <= |fat|
    ensures UnusedIn(fat, lo, hi) == UnusedIn(fat, lo, mid) + UnusedIn(fat, mid, hi)
  {
    if mid < hi {
      UnusedInSplit(fat, lo, mid, hi - 1);
    }
  }

  lemma UnusedFromIsSearchOrder(fat: Fat, start: nat)
    requires start >= CLUSTER_MIN_GOOD
    ensures IsSearchOrder(fat, start, UnusedFrom(fat, start))
    ensures |UnusedFrom(fat, start)| == CountUnused(fat)
  {
    var n := if start >= |fat| then |fat| else start;
    UnusedInMembers(fat, CLUSTER_MIN_GOOD, n);
    UnusedInAscends(fat, CLUSTER_MIN_GOOD, n);
    if start >= |fat| {
      var u := UnusedFrom(fat, start);
      assert forall i :: 0 <= i < |u| ==> u[i] in u;
    } else {
      UnusedInSplit(fat, CLUSTER_MIN_GOOD, start, |fat|);
      UnusedInMembers(fat, start, |fat|);
      UnusedInAscends(fat, start, |fat|);
      JoinedSearchOrder(fat, start, UnusedIn(fat, start, |fat|), UnusedIn(fat, CLUSTER_MIN_GOOD, start));
    }
  }

  lemma JoinedSearchOrder(fat: Fat, start: nat, hi: seq<nat>, lo: seq<nat>)
    requires CLUSTER_MIN_GOOD <= start < |fat| && Ascending(hi) && Ascending(lo)
    requires forall c :: c in hi <==> start <= c < |fat| && fat[c] == CLUSTER_UNUSED
    requires forall c :: c in lo <==> CLUSTER_MIN_GOOD <= c < start && fat[c] == CLUSTER_UNUSED
    ensures IsSearchOrder(fat, start, hi + lo)
  {
    var u := hi + lo;
    forall i | 0 <= i < |u| ensures IsUnused(fat, u[i]) && (u[i] >= start <==> i < |hi|) {
      assert if i < |hi| then u[i] in hi else u[i] in lo;
    }
    forall c | IsUnused(fat, c) ensures c in u {
      assert c in hi || c in lo;
    }
  }

  /** The answer of a search from start: the first unused cluster, if there is one. A
      search that starts below the first cluster finds nothing. */
  ghost predicate IsSearchResult(fat: Fat, start: nat, r: nat) {
    if start < CLUSTER_MIN_GOOD then r == CLUSTER_INVALID
    else if r == CLUSTER_INVALID then forall c :: !IsUnused(fat, c)
    else IsFirstUnused(fat, start, r)
  }

  ghost predicate NoneUnused(fat: Fat, lo: nat, hi: nat) {
    forall c :: lo <= c < hi ==> !IsUnused(fat, c)
  }

  /** The answer of a search that looks at the clusters from lo up to, but not including,
      hi, and gives up at a number that is no cluster. */
  ghost predicate IsRangeResult(fat: Fat, lo: nat, hi: nat, found: bool, r: nat) {
    if found && r != CLUSTER_INVALID then IsUnused(fat, r) && CLUSTER_MIN_GOOD <= lo <= r < hi && NoneUnused(fat, lo, r)
    else if found then lo < hi && (lo < CLUSTER_MIN_GOOD || (hi > |fat| && NoneUnused(fat, lo, hi)))
    else NoneUnused(fat, lo, hi) && (lo < hi ==> lo >= CLUSTER_MIN_GOOD)
  }

  /** What the answer of a search tells, on the numbers stored. */
  lemma SearchTells(fat: Fat, start: nat, r: nat)
    requires IsSearchResult(fat, start, r)
    ensures r == 1 <==> start < 2 || forall c :: 2 <= c < |fat| ==> fat[c] != 0
    ensures r != 1 ==> 2 <= r < |fat| && fat[r] == 0
    ensures r != 1 ==> forall c :: 2 <= c < |fat| && fat[c] == 0 ==>
              (if r >= start then r - start else r + |fat| - start) <=
              (if c >= start then c - start else c + |fat| - start)
  {
    if start >= 2 && r != 1 {
      forall c: nat | 2 <= c < |fat| && fat[c] == 0
        ensures Distance(fat, start, r) <= Distance(fat, start, c)
      {
        assert IsUnused(fat, c);
      }
    }
    if start >= 2 && r == 1 {
      forall c: nat | 2 <= c < |fat|
        ensures fat[c] != 0
      {
        assert !IsUnused(fat, c);
      }
    }
  }

  /** A search goes through two ranges, and the second one only if the first was in vain. */
  lemma SearchInTwoRanges(fat: Fat, start: nat, done: bool, r: nat)
    requires 2 <= |fat| && IsRangeResult(fat, start, |fat|, done, r)
    ensures done ==> IsSearchResult(fat, start, r)
    ensures !done ==> start >= CLUSTER_MIN_GOOD
    ensures forall done', r' ::
              !done && IsRangeResult(fat, CLUSTER_MIN_GOOD, start, done', r') && (!done' ==> r' == CLUSTER_INVALID) ==>
                IsSearchResult(fat, start, r')
  {
  }

  lemma FirstUnusedIsUnique(fat: Fat, start: nat, q: nat, r: nat)
    requires start >= CLUSTER_MIN_GOOD && IsFirstUnused(fat, start, q) && IsFirstUnused(fat, start, r)
    ensures q == r
  {
    assert Distance(fat, start, q) <= Distance(fat, start, r) <= Distance(fat, start, q);
  }

  /** Writing one link changes the number of unused clusters by what that link was and is. */
  lemma {:induction false} UnusedInUpdate(fat: Fat, c: nat, v: nat, lo: nat, hi: nat)
    requires c < |fat| && lo <= hi <= |fat|
    ensures |UnusedIn(fat[c := v], lo, hi)| ==
            |UnusedIn(fat, lo, hi)|
            + (if lo <= c < hi && v == CLUSTER_UNUSED then 1 else 0)
            - (if lo <= c < hi && fat[c] == CLUSTER_UNUSED then 1 else 0)
  {
    if lo < hi {
      UnusedInUpdate(fat, c, v, lo, hi - 1);
    }
  }

  lemma CountUnusedUpdate(fat: Fat, c: nat, v: nat)
    requires IsCluster(fat, c)
    ensures CountUnused(fat[c := v]) == CountUnused(fat)
            + (if v == CLUSTER_UNUSED then 1 else 0) - (if fat[c] == CLUSTER_UNUSED then 1 else 0)
  {
    UnusedInUpdate(fat, c, v, CLUSTER_MIN_GOOD, |fat|);
  }

  lemma {:induction false} UnusedInBound(fat: Fat, lo: nat, hi: nat)
    requires hi <= |fat|
    ensures |UnusedIn(fat, lo, hi)| <= if lo <= hi then hi - lo else 0
  {
    if lo < hi {
      UnusedInBound(fat, lo, hi - 1);
    }
  }

  /* ---------- entries that cannot be changed ---------- */

  /** Clusters whose entries read as the end of a chain whatever is written to them. */
  ghost predicate AreStuck(fat: Fat, stuck: set<nat>) {
    forall c :: c in stuck ==> IsCluster(fat, c) && fat[c] == CLUSTER_EOF
  }

  /** The table that is there when fat is what has been written. */
  function Masked(fat: Fat, stuck: set<nat>): (r: Fat)
    ensures |r| == |fat|
  {
    seq(|fat|, c requires 0 <= c < |fat| => if c in stuck then CLUSTER_EOF else fat[c])
  }

  lemma NothingMasked(fat: Fat, stuck: set<nat>)
    requires AreStuck(fat, stuck)
    ensures Masked(fat, stuck) == fat
  {
  }

  lemma MaskedUpdate(fat: Fat, stuck: set<nat>, c: nat, v: nat)
    requires c < |fat|
    ensures Masked(Masked(fat, stuck)[c := v], stuck) == Masked(fat[c := v], stuck)
  {
  }

  /** As long as no stuck entry was meant to be unused, the same clusters are unused, and a
      search finds the same one. */
  lemma MaskedUnused(fat: Fat, stuck: set<nat>)
    requires forall c :: c in stuck ==> !IsUnused(fat, c)
    ensures forall c: nat :: IsUnused(Masked(fat, stuck), c) <==> IsUnused(fat, c)
    ensures forall start, r :: IsSearchResult(Masked(fat, stuck), start, r) <==> IsSearchResult(fat, start, r)
    ensures CountUnused(Masked(fat, stuck)) == CountUnused(fat)
  {
    var r := Masked(fat, stuck);
    assert forall c: nat :: IsUnused(r, c) <==> IsUnused(fat, c);
    assert forall start, c :: Distance(r, start, c) == Distance(fat, start, c);
    SameUnusedSameCount(fat, r, |fat|);
  }

  lemma {:induction false} SameUnusedSameCount(fat: Fat, r: Fat, hi: nat)
    requires |r| == |fat| && hi <= |fat| && forall c: nat :: IsUnused(r, c) <==> IsUnused(fat, c)
    ensures UnusedIn(r, CLUSTER_MIN_GOOD, hi) == UnusedIn(fat, CLUSTER_MIN_GOOD, hi)
  {
    if CLUSTER_MIN_GOOD < hi {
      SameUnusedSameCount(fat, r, hi - 1);
      assert IsUnused(r, hi - 1) <==> IsUnused(fat, hi - 1);
    }
  }
}
