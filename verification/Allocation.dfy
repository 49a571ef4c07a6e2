/**
  What extending and releasing chains does to the table, stated without the search
  loop: which clusters are appended, which are freed, and what that means for the
  chains of all the files on the volume.
 */
module Allocation {
  import opened FatChains

  /* ---------- extending ---------- */

  /** Links s into one chain ended by CLUSTER_EOF. */
  function Linked(fat: Fat, s: seq<nat>): (r: Fat)
    requires s != [] && AreClusters(fat, s)
    ensures |r| == |fat|
  {
    if |s| == 1 then fat[s[0] := CLUSTER_EOF] else Linked(fat, s[1..])[s[0] := s[1]]
  }

  lemma {:induction false} LinkedIsChain(fat: Fat, s: seq<nat>)
    requires s != [] && AreClusters(fat, s) && Distinct(s)
    ensures Chain(Linked(fat, s), s)
    ensures forall c :: 0 <= c < |fat| && c !in s ==> Linked(fat, s)[c] == fat[c]
  {
    if |s| > 1 {
      var t := s[1..];
      LinkedIsChain(fat, t);
      var r := Linked(fat, t);
      assert forall c :: c in t ==> c in s;
      assert forall i :: 0 <= i < |t| ==> t[i] == s[i + 1];
      forall i | 0 <= i < |s| - 1 ensures r[s[0] := s[1]][s[i]] == s[i + 1] {
        if i > 0 {
          assert r[t[i - 1]] == t[i];
        }
      }
    }
  }

  /** Only one table makes s a chain and keeps every link outside of s. */
  lemma LinkedIsUnique(fat: Fat, s: seq<nat>, r: Fat)
    requires s != [] && AreClusters(fat, s) && Distinct(s)
    requires |r| == |fat| && Chain(r, s)
    requires forall c :: 0 <= c < |fat| && c !in s ==> r[c] == fat[c]
    ensures r == Linked(fat, s)
  {
    LinkedIsChain(fat, s);
    forall c | 0 <= c < |fat| ensures r[c] == Linked(fat, s)[c] {
      if c in s {
        var i :| 0 <= i < |s| && s[i] == c;
        if i < |s| - 1 {
          assert r[s[i]] == s[i + 1];
        }
      }
    }
  }

  /** The clusters an extension by k appends behind the cluster tail: the first k unused
      ones in cyclic order, or all of them when there are fewer. */
  function Appended(fat: Fat, tail: nat, k: nat): (s: seq<nat>)
    ensures |s| <= k
  {
    var u := UnusedFrom(fat, tail + 1);
    if k <= |u| then u[..k] else u
  }

  /** The request that goes unnoticed: one cluster too many on a disk that is not full. */
  predicate ReportsFull(fat: Fat, k: nat) {
    var f := CountUnused(fat);
    k > f && !(f >= 1 && k == f + 1)
  }

  /** Clusters are met in the order of how far they lie behind the tail, the first cluster of
      the volume coming after the last. */
  predicate IsBefore(fat: Fat, tail: nat, b: nat, c: nat) {
    (if b > tail then b - tail else b - tail + |fat|) < (if c > tail then c - tail else c - tail + |fat|)
  }

  /** The clusters appended are the next unused ones behind the tail, in that order. */
  lemma AppendedAreNext(fat: Fat, tail: nat, k: nat)
    requires IsCluster(fat, tail)
    ensures var s := Appended(fat, tail, k);
            && (forall i, j :: 0 <= i < j < |s| ==> IsBefore(fat, tail, s[i], s[j]))
            && forall i, c: nat :: 0 <= i < |s| && IsUnused(fat, c) && c !in s ==> IsBefore(fat, tail, s[i], c)
  {
    var u := UnusedFrom(fat, tail + 1);
    UnusedFromIsSearchOrder(fat, tail + 1);
    FirstAreNext(fat, tail, u, if k <= |u| then k else |u|);
    hide UnusedFrom, IsSearchOrder, IsBefore;
    assert u[..|u|] == u;
  }

  lemma FirstAreNext(fat: Fat, tail: nat, u: seq<nat>, n: nat)
    requires IsSearchOrder(fat, tail + 1, u) && n <= |u|
    ensures forall i, j :: 0 <= i < j < n ==> IsBefore(fat, tail, u[..n][i], u[..n][j])
    ensures forall i, c: nat :: 0 <= i < n && IsUnused(fat, c) && c !in u[..n] ==> IsBefore(fat, tail, u[..n][i], c)
  {
    forall i, j | 0 <= i < j < |u|
      ensures IsBefore(fat, tail, u[i], u[j])
    {
      assert Distance(fat, tail + 1, u[i]) < Distance(fat, tail + 1, u[j]);
    }
    hide IsBefore;
    forall i, c: nat | 0 <= i < n && IsUnused(fat, c) && c !in u[..n]
      ensures IsBefore(fat, tail, u[..n][i], c)
    {
      var j :| 0 <= j < |u| && u[j] == c;
      assert forall m :: 0 <= m < n ==> u[m] in u[..n];
    }
  }

  lemma AppendedFacts(fat: Fat, tail: nat, k: nat)
    requires IsCluster(fat, tail)
    ensures var s := Appended(fat, tail, k);
            && |s| == (if k <= CountUnused(fat) then k else CountUnused(fat))
            && Distinct(s)
            && forall i :: 0 <= i < |s| ==> IsUnused(fat, s[i])
  {
    hide UnusedFrom, UnusedIn;
    var u := UnusedFrom(fat, tail + 1);
    assert |u| == CountUnused(fat) && Distinct(u) && forall i :: 0 <= i < |u| ==> IsUnused(fat, u[i]) by {
      UnusedFromIsSearchOrder(fat, tail + 1);
      SearchOrderIsDistinct(fat, tail + 1, u);
    }
    FirstOfDistinct(fat, u, if k <= |u| then k else |u|);
  }

  /** An extension reports truthfully whether it appended all the clusters asked for, except
      when exactly one more was asked for than there were, and there were some. */
  lemma ReportIsTruthful(fat: Fat, tail: nat, k: nat)
    requires IsCluster(fat, tail)
    ensures (ReportsFull(fat, k) <==> |Appended(fat, tail, k)| < k) <==>
            !(CountUnused(fat) >= 1 && k == CountUnused(fat) + 1)
  {
    AppendedFacts(fat, tail, k);
  }

  lemma FirstOfDistinct(fat: Fat, u: seq<nat>, n: nat)
    requires Distinct(u) && n <= |u| && forall i :: 0 <= i < |u| ==> IsUnused(fat, u[i])
    ensures Distinct(u[..n]) && forall i :: 0 <= i < |u[..n]| ==> IsUnused(fat, u[..n][i])
    ensures n == |u| ==> u[..n] == u
  {
  }

  lemma SearchOrderIsDistinct(fat: Fat, start: nat, u: seq<nat>)
    requires ByDistance(fat, start, u)
    ensures Distinct(u)
  {
    forall i, j | 0 <= i < j < |u| ensures u[i] != u[j] {
      assert Distance(fat, start, u[i]) < Distance(fat, start, u[j]);
    }
  }

  /** The table while s is being linked up: its last cluster still has its old link, or
      has been linked to itself. */
  ghost predicate PartlyLinked(fat: Fat, s: seq<nat>, loop: bool, r: Fat) {
    && |r| == |fat|
    && Trail(r, s)
    && r[s[|s| - 1]] == (if loop then s[|s| - 1] else fat[s[|s| - 1]])
    && forall c :: 0 <= c < |fat| && c !in s ==> r[c] == fat[c]
  }

  /** The state in which the loop of an extension stands when the first j of the clusters
      u, listed in search order, have been appended behind tail. */
  ghost predicate Extending(fat: Fat, tail: nat, u: seq<nat>, j: nat, loop: bool, r: Fat) {
    && IsCluster(fat, tail) && fat[tail] == CLUSTER_EOF
    && IsSearchOrder(fat, tail + 1, u)
    && j <= |u| && (loop ==> j == |u| > 0)
    && PartlyLinked(fat, [tail] + u[..j], loop, r)
  }

  lemma UnusedInsideIsLast(fat: Fat, s: seq<nat>, loop: bool, r: Fat, c: nat)
    requires PartlyLinked(fat, s, loop, r) && c in s && IsUnused(r, c)
    ensures !loop && c == s[|s| - 1] && fat[c] == CLUSTER_UNUSED
  {
    forall n | 0 <= n < |s| - 1 ensures r[s[n]] != CLUSTER_UNUSED {
      assert r[s[n]] == s[n + 1] && IsCluster(r, s[n + 1]);
    }
    var n :| 0 <= n < |s| && s[n] == c;
  }

  /** Every cluster unused in that state is the one linked last or not linked yet. */
  lemma UnusedIndex(fat: Fat, tail: nat, u: seq<nat>, j: nat, loop: bool, r: Fat, c: nat) returns (i: nat)
    requires Extending(fat, tail, u, j, loop, r) && IsUnused(r, c)
    ensures !loop && j - 1 <= i < |u| && u[i] == c
  {
    var s := [tail] + u[..j];
    assert forall m :: 0 <= m < j ==> u[m] == s[m + 1];
    if c in s {
      UnusedInsideIsLast(fat, s, loop, r, c);
      i := j - 1;
    } else {
      assert IsUnused(fat, c);
      i :| 0 <= i < |u| && u[i] == c;
    }
  }

  /** Conversely, those clusters are unused. */
  lemma StillUnused(fat: Fat, tail: nat, u: seq<nat>, j: nat, r: Fat, i: nat)
    requires Extending(fat, tail, u, j, false, r)
    requires j - 1 <= i < |u|
    ensures IsUnused(r, u[i])
  {
    var s := [tail] + u[..j];
    if i >= j {
      assert forall m :: 0 <= m < j ==> Distance(fat, tail + 1, u[m]) < Distance(fat, tail + 1, u[i]);
      assert u[i] !in s;
    } else {
      assert s[j] == u[i];
    }
  }

  /** The cluster linked last when j of u have been appended. */
  function LastLinked(tail: nat, u: seq<nat>, j: nat): nat
    requires j <= |u|
  {
    if j == 0 then tail else u[j - 1]
  }

  /** What the next search finds. The cluster linked last still counts as unused, and is
      the very last one the search looks at. */
  lemma NextFound(fat: Fat, tail: nat, u: seq<nat>, j: nat, r: Fat)
    requires Extending(fat, tail, u, j, false, r) && u != []
    ensures var last := LastLinked(tail, u, j);
            IsFirstUnused(r, last + 1, if j < |u| then u[j] else last)
  {
    var last := LastLinked(tail, u, j);
    var next := if j < |u| then u[j] else last;
    StillUnused(fat, tail, u, j, r, if j < |u| then j else j - 1);
    forall c | IsUnused(r, c) ensures Distance(r, last + 1, next) <= Distance(r, last + 1, c) {
      var i := UnusedIndex(fat, tail, u, j, false, r, c);
      DistanceShift(fat, tail, u, j, i);
    }
  }

  /** Seen from behind the cluster linked last, that cluster is the farthest one, and the
      order of the clusters not yet linked is unchanged. */
  lemma DistanceShift(fat: Fat, tail: nat, u: seq<nat>, j: nat, i: nat)
    requires IsCluster(fat, tail) && AreClusters(fat, u) && ByDistance(fat, tail + 1, u)
    requires j <= |u| && i < |u| && i >= j - 1
    ensures var last := LastLinked(tail, u, j);
            var next := if j < |u| then u[j] else last;
            Distance(fat, last + 1, next) <= Distance(fat, last + 1, u[i])
  {
    assert i > j ==> Distance(fat, tail + 1, u[j]) < Distance(fat, tail + 1, u[i]);
    assert 0 < j < |u| ==> Distance(fat, tail + 1, u[j - 1]) < Distance(fat, tail + 1, u[j]);
    assert 0 < j <= i ==> Distance(fat, tail + 1, u[j - 1]) < Distance(fat, tail + 1, u[i]);
  }

  lemma PartlyLinkedGrows(fat: Fat, s: seq<nat>, r: Fat, x: nat)
    requires PartlyLinked(fat, s, false, r) && Distinct(s)
    requires IsCluster(fat, x) && x !in s
    ensures PartlyLinked(fat, s + [x], false, r[s[|s| - 1] := x])
  {
    var t := s + [x];
    var q := r[s[|s| - 1] := x];
    assert q[x] == fat[x];
    forall i | 0 <= i < |t| - 1 ensures q[t[i]] == t[i + 1] {
      assert t[i] == s[i];
      assert i < |s| - 1 ==> r[s[i]] == s[i + 1] && s[i] != s[|s| - 1];
    }
    assert forall c :: c in s ==> c in t;
  }

  /** One turn of the loop: the cluster linked last is linked to the one just found. */
  lemma LinkNext(fat: Fat, tail: nat, u: seq<nat>, j: nat, r: Fat)
    requires Extending(fat, tail, u, j, false, r) && j < |u|
    ensures Extending(fat, tail, u, j + 1, false, r[LastLinked(tail, u, j) := u[j]])
  {
    var s := [tail] + u[..j];
    FrontIsDistinct(fat, tail, u, j);
    FrontIsDistinct(fat, tail, u, j + 1);
    assert [tail] + u[..j + 1] == s + [u[j]];
    assert s[|s| - 1] == LastLinked(tail, u, j);
    NotInFront(s, u[j]);
    PartlyLinkedGrows(fat, s, r, u[j]);
  }

  lemma FrontIsDistinct(fat: Fat, tail: nat, u: seq<nat>, j: nat)
    requires IsCluster(fat, tail) && fat[tail] == CLUSTER_EOF
    requires IsSearchOrder(fat, tail + 1, u) && j <= |u|
    ensures Distinct([tail] + u[..j]) && AreClusters(fat, [tail] + u[..j])
  {
    SearchOrderIsDistinct(fat, tail + 1, u);
    assert forall i :: 0 <= i < |u| ==> IsUnused(fat, u[i]) && u[i] != tail;
  }

  lemma NotInFront(s: seq<nat>, x: nat)
    requires Distinct(s + [x])
    ensures x !in s
  {
    assert forall i :: 0 <= i < |s| ==> (s + [x])[i] == s[i] && (s + [x])[|s|] == x;
  }

  /** The turn that goes unnoticed: with every unused cluster appended, the search returns
      the cluster linked last, and it is linked to itself. */
  lemma LinkToItself(fat: Fat, tail: nat, u: seq<nat>, r: Fat)
    requires Extending(fat, tail, u, |u|, false, r) && u != []
    ensures var last := LastLinked(tail, u, |u|);
            Extending(fat, tail, u, |u|, true, r[last := last])
  {
    FrontIsDistinct(fat, tail, u, |u|);
    var s := [tail] + u[..|u|];
    var last := LastLinked(tail, u, |u|);
    assert s[|s| - 1] == last;
    assert forall i :: 0 <= i < |s| - 1 ==> r[s[i]] == s[i + 1] && s[i] != last;
  }

  /** What the search of a turn returns: the next cluster to link, or, once all unused
      clusters are appended, the one linked last; nothing only after that. */
  lemma FoundByTurn(fat: Fat, tail: nat, u: seq<nat>, j: nat, loop: bool, r: Fat, found: nat)
    requires Extending(fat, tail, u, j, loop, r)
    requires IsSearchResult(r, LastLinked(tail, u, j) + 1, found)
    ensures found == CLUSTER_INVALID <==> loop || u == []
    ensures found != CLUSTER_INVALID ==> found == if j < |u| then u[j] else LastLinked(tail, u, j)
  {
    var last := LastLinked(tail, u, j);
    if found != CLUSTER_INVALID {
      var i := UnusedIndex(fat, tail, u, j, loop, r, found);
    }
    if !loop && u != [] {
      NextFound(fat, tail, u, j, r);
      if found != CLUSTER_INVALID {
        FirstUnusedIsUnique(r, last + 1, found, if j < |u| then u[j] else last);
      }
    }
  }

  /** The closing write: wherever the loop stopped, ending the chain behind the cluster
      linked last gives the table in which the old tail and the new clusters are a chain. */
  lemma CloseChain(fat: Fat, tail: nat, u: seq<nat>, j: nat, loop: bool, r: Fat)
    requires Extending(fat, tail, u, j, loop, r)
    ensures r[LastLinked(tail, u, j) := CLUSTER_EOF] == Linked(fat, [tail] + u[..j])
    ensures j == 0 ==> r == Linked(fat, [tail] + u[..j])
  {
    FrontIsDistinct(fat, tail, u, j);
    var s := [tail] + u[..j];
    var last := LastLinked(tail, u, j);
    assert s[|s| - 1] == last;
    var q := r[last := CLUSTER_EOF];
    assert forall i :: 0 <= i < |s| - 1 ==> r[s[i]] == s[i + 1];
    LinkedIsUnique(fat, s, q);
  }

  /** The table after an extension by k of the chain that ends in tail. */
  function Extended(fat: Fat, tail: nat, k: nat): (r: Fat)
    requires IsCluster(fat, tail)
    ensures |r| == |fat|
  {
    AppendedFacts(fat, tail, k);
    Linked(fat, [tail] + Appended(fat, tail, k))
  }

  /* The loop of an extension, by the number n of turns it has made. */

  /** How many of the unused clusters u have been appended. */
  function Reached(u: seq<nat>, n: nat): (j: nat)
    ensures j <= |u|
  {
    if n <= |u| then n else |u|
  }

  function LastOf(u: seq<nat>, tail: nat, n: nat): nat {
    LastLinked(tail, u, Reached(u, n))
  }

  function TurnedBy(fat: Fat, u: seq<nat>, tail: nat, n: nat): (r: Fat)
    ensures |r| == |fat|
  {
    if n == 0 || LastOf(u, tail, n - 1) >= |fat| then fat
    else TurnedBy(fat, u, tail, n - 1)[LastOf(u, tail, n - 1) := LastOf(u, tail, n)]
  }

  /** The cluster linked last. */
  function LastAfter(fat: Fat, tail: nat, n: nat): nat {
    LastOf(UnusedFrom(fat, tail + 1), tail, n)
  }

  /** The table, with the cluster linked last linked to the next one at each turn. */
  function Turned(fat: Fat, tail: nat, n: nat): (r: Fat)
    ensures |r| == |fat|
  {
    TurnedBy(fat, UnusedFrom(fat, tail + 1), tail, n)
  }

  /** The loop can make one turn more than there are unused clusters, unless there is none. */
  function MaxTurns(fat: Fat): nat {
    if CountUnused(fat) == 0 then 0 else CountUnused(fat) + 1
  }

  lemma LastIsCluster(fat: Fat, u: seq<nat>, tail: nat, n: nat)
    requires IsCluster(fat, tail) && IsSearchOrder(fat, tail + 1, u)
    ensures IsCluster(fat, LastOf(u, tail, n))
  {
    var j := Reached(u, n);
    assert j > 0 ==> IsUnused(fat, u[j - 1]);
  }

  lemma NothingLinkedYet(fat: Fat, u: seq<nat>, tail: nat)
    requires IsCluster(fat, tail) && fat[tail] == CLUSTER_EOF && IsSearchOrder(fat, tail + 1, u)
    ensures Extending(fat, tail, u, 0, false, fat)
  {
    assert [tail] + u[..0] == [tail];
  }

  lemma {:induction false} TurnedIsExtending(fat: Fat, u: seq<nat>, tail: nat, n: nat)
    requires IsCluster(fat, tail) && fat[tail] == CLUSTER_EOF && IsSearchOrder(fat, tail + 1, u)
    requires n <= |u| + 1 && (u == [] ==> n == 0)
    ensures Extending(fat, tail, u, Reached(u, n), n > |u|, TurnedBy(fat, u, tail, n))
    ensures IsCluster(fat, LastOf(u, tail, n))
  {
    hide Extending, IsSearchOrder;
    LastIsCluster(fat, u, tail, n);
    if n == 0 {
      NothingLinkedYet(fat, u, tail);
    } else {
      TurnedIsExtending(fat, u, tail, n - 1);
      var r := TurnedBy(fat, u, tail, n - 1);
      if n <= |u| {
        LinkNext(fat, tail, u, n - 1, r);
      } else {
        LinkToItself(fat, tail, u, r);
      }
    }
  }

  lemma TurnFindsNext(fat: Fat, u: seq<nat>, tail: nat, n: nat, found: nat)
    requires IsCluster(fat, tail) && fat[tail] == CLUSTER_EOF && IsSearchOrder(fat, tail + 1, u)
    requires n <= |u| + 1 && (u == [] ==> n == 0)
    requires IsSearchResult(TurnedBy(fat, u, tail, n), LastOf(u, tail, n) + 1, found)
    ensures IsCluster(fat, LastOf(u, tail, n))
    ensures found == CLUSTER_INVALID <==> n == |u| + 1 || u == []
    ensures found != CLUSTER_INVALID ==> found == LastOf(u, tail, n + 1)
  {
    hide Extending, IsSearchOrder, IsSearchResult;
    TurnedIsExtending(fat, u, tail, n);
    FoundByTurn(fat, tail, u, Reached(u, n), n > |u|, TurnedBy(fat, u, tail, n), found);
  }

  /** The search of each turn finds what is linked next; the loop ends when it cannot. */
  lemma TurnFinds(fat: Fat, tail: nat, n: nat, found: nat)
    requires IsCluster(fat, tail) && fat[tail] == CLUSTER_EOF && n <= MaxTurns(fat)
    requires IsSearchResult(Turned(fat, tail, n), LastAfter(fat, tail, n) + 1, found)
    ensures IsCluster(fat, LastAfter(fat, tail, n))
    ensures found == CLUSTER_INVALID <==> n == MaxTurns(fat)
    ensures found != CLUSTER_INVALID ==> found == LastAfter(fat, tail, n + 1)
  {
    hide IsSearchOrder, IsSearchResult, UnusedFrom, UnusedIn, LastOf, TurnedBy;
    var u := UnusedFrom(fat, tail + 1);
    assert |u| == CountUnused(fat) && IsCluster(fat, LastOf(u, tail, n)) &&
           (found == CLUSTER_INVALID <==> n == |u| + 1 || u == []) &&
           (found != CLUSTER_INVALID ==> found == LastOf(u, tail, n + 1)) by {
      UnusedFromIsSearchOrder(fat, tail + 1);
      TurnFindsNext(fat, u, tail, n, found);
    }
  }

  lemma TurnedNext(fat: Fat, tail: nat, n: nat)
    requires IsCluster(fat, LastAfter(fat, tail, n))
    ensures Turned(fat, tail, n)[LastAfter(fat, tail, n) := LastAfter(fat, tail, n + 1)] == Turned(fat, tail, n + 1)
  {
  }

  /** Ending the chain where the loop stopped, having made all the turns asked for or all
      it could, leaves the table of an extension. */
  lemma TurnsClosed(fat: Fat, tail: nat, n: nat, count: nat)
    requires IsCluster(fat, tail) && fat[tail] == CLUSTER_EOF
    requires n <= MaxTurns(fat) && n <= count && (n == count || n == MaxTurns(fat))
    ensures IsCluster(fat, LastAfter(fat, tail, n))
    ensures n > 0 ==> Turned(fat, tail, n)[LastAfter(fat, tail, n) := CLUSTER_EOF] == Extended(fat, tail, count)
    ensures n == 0 ==> fat == Extended(fat, tail, count)
    ensures ReportsFull(fat, count) <==> n < count
    ensures Appended(fat, tail, count) == UnusedFrom(fat, tail + 1)[..Reached(UnusedFrom(fat, tail + 1), n)]
    ensures |Appended(fat, tail, count)| == if n <= CountUnused(fat) then n else CountUnused(fat)
  {
    var u := UnusedFrom(fat, tail + 1);
    assert |u| == CountUnused(fat) by {
      UnusedFromIsSearchOrder(fat, tail + 1);
    }
    assert u[..Reached(u, n)] == Appended(fat, tail, count);
    TurnsLinked(fat, tail, n);
  }

  lemma TurnsLinked(fat: Fat, tail: nat, n: nat)
    requires IsCluster(fat, tail) && fat[tail] == CLUSTER_EOF && n <= MaxTurns(fat)
    ensures IsCluster(fat, LastAfter(fat, tail, n))
    ensures var u := UnusedFrom(fat, tail + 1);
            var s := [tail] + u[..Reached(u, n)];
            && AreClusters(fat, s)
            && Turned(fat, tail, n)[LastAfter(fat, tail, n) := CLUSTER_EOF] == Linked(fat, s)
            && (n == 0 ==> fat == Linked(fat, s))
  {
    hide Extending, UnusedFrom, UnusedIn, Linked;
    var u := UnusedFrom(fat, tail + 1);
    assert n == 0 ==> TurnedBy(fat, u, tail, n) == fat;
    hide TurnedBy;
    UnusedFromIsSearchOrder(fat, tail + 1);
    FrontIsDistinct(fat, tail, u, Reached(u, n));
    hide IsSearchOrder;
    TurnedIsExtending(fat, u, tail, n);
    CloseChain(fat, tail, u, Reached(u, n), n > |u|, TurnedBy(fat, u, tail, n));
  }

  /** No cluster becomes unused on the way, and the one linked last is unused until another
      one is linked behind it. */
  lemma TurnedUnused(fat: Fat, tail: nat, n: nat, c: nat)
    requires IsCluster(fat, tail) && fat[tail] == CLUSTER_EOF && n <= MaxTurns(fat)
    ensures IsUnused(Turned(fat, tail, n), c) ==> IsUnused(fat, c)
    ensures IsCluster(fat, LastAfter(fat, tail, n))
    ensures IsUnused(Turned(fat, tail, n), LastAfter(fat, tail, n)) <==> 1 <= n <= CountUnused(fat)
  {
    hide UnusedFrom, UnusedIn, TurnedBy;
    var u := UnusedFrom(fat, tail + 1);
    UnusedFromIsSearchOrder(fat, tail + 1);
    TurnedIsExtending(fat, u, tail, n);
    var j, r := Reached(u, n), TurnedBy(fat, u, tail, n);
    ExtendingUnused(fat, tail, u, j, n > |u|, r, c);
    ExtendingLast(fat, tail, u, j, n > |u|, r);
  }

  lemma ExtendingUnused(fat: Fat, tail: nat, u: seq<nat>, j: nat, loop: bool, r: Fat, c: nat)
    requires Extending(fat, tail, u, j, loop, r)
    ensures IsUnused(r, c) ==> IsUnused(fat, c)
  {
    if IsUnused(r, c) {
      var i := UnusedIndex(fat, tail, u, j, loop, r, c);
    }
  }

  lemma ExtendingLast(fat: Fat, tail: nat, u: seq<nat>, j: nat, loop: bool, r: Fat)
    requires Extending(fat, tail, u, j, loop, r)
    ensures IsUnused(r, LastLinked(tail, u, j)) <==> !loop && j > 0
  {
    var s := [tail] + u[..j];
    assert s[|s| - 1] == LastLinked(tail, u, j);
    assert j > 0 ==> IsUnused(fat, u[j - 1]);
  }

  /** Entries that cannot be changed do not lead the searches astray. */
  lemma TurnFindsMasked(fat: Fat, stuck: set<nat>, tail: nat, n: nat, found: nat)
    requires AreStuck(fat, stuck) && IsCluster(fat, tail) && fat[tail] == CLUSTER_EOF && n <= MaxTurns(fat)
    requires IsSearchResult(Masked(Turned(fat, tail, n), stuck), LastAfter(fat, tail, n) + 1, found)
    ensures IsCluster(fat, LastAfter(fat, tail, n))
    ensures found == CLUSTER_INVALID <==> n == MaxTurns(fat)
    ensures found != CLUSTER_INVALID ==> found == LastAfter(fat, tail, n + 1)
    ensures Masked(Turned(fat, tail, n), stuck)[LastAfter(fat, tail, n)] == CLUSTER_UNUSED <==>
              1 <= n <= CountUnused(fat)
  {
    hide IsSearchResult, LastAfter, Turned;
    var r := Turned(fat, tail, n);
    forall c | c in stuck
      ensures !IsUnused(r, c)
    {
      TurnedUnused(fat, tail, n, c);
    }
    TurnedUnused(fat, tail, n, tail);
    MaskedUnused(r, stuck);
    TurnFinds(fat, tail, n, found);
    assert IsUnused(Masked(r, stuck), LastAfter(fat, tail, n)) <==> IsUnused(r, LastAfter(fat, tail, n));
  }

  /** What a turn links is a cluster. */
  lemma TurnLinksCluster(fat: Fat, tail: nat, n: nat, next: nat)
    requires IsFat(fat) && IsCluster(fat, tail) && fat[tail] == CLUSTER_EOF && n < MaxTurns(fat)
    requires next == LastAfter(fat, tail, n + 1)
    ensures IsCluster(fat, next)
  {
    TurnedUnused(fat, tail, n + 1, tail);
  }

  /** Where the loop stops, the cluster linked last is still unused, unless it has been linked
      to itself. */
  lemma LastIsLinked(fat: Fat, stuck: set<nat>, tail: nat, n: nat)
    requires AreStuck(fat, stuck) && IsCluster(fat, tail) && fat[tail] == CLUSTER_EOF && n <= MaxTurns(fat)
    ensures IsCluster(fat, LastAfter(fat, tail, n))
    ensures Masked(Turned(fat, tail, n), stuck)[LastAfter(fat, tail, n)] == CLUSTER_UNUSED <==>
              1 <= n <= CountUnused(fat)
  {
    hide LastAfter, Turned;
    TurnedUnused(fat, tail, n, tail);
    TurnedUnused(fat, tail, n, LastAfter(fat, tail, n));
  }

  lemma NothingTurned(fat: Fat, tail: nat)
    ensures Turned(fat, tail, 0) == fat
  {
  }

  /** How many clusters have stopped being unused after n turns: all that are linked but the
      last. */
  function TakenBy(n: nat): nat {
    if n == 0 then 0 else n - 1
  }

  /** The first cluster the loop links is the first one appended. */
  lemma FirstAppended(fat: Fat, tail: nat, count: nat)
    requires IsCluster(fat, tail) && count > 0
    ensures if CountUnused(fat) == 0 then Appended(fat, tail, count) == []
            else Appended(fat, tail, count) != [] && Appended(fat, tail, count)[0] == LastAfter(fat, tail, 1)
  {
    assert |UnusedFrom(fat, tail + 1)| == CountUnused(fat) by {
      UnusedFromIsSearchOrder(fat, tail + 1);
    }
  }

  /* ---------- releasing ---------- */

  /** Every cluster of s is marked unused. */
  function Freed(fat: Fat, s: seq<nat>): (r: Fat)
    ensures |r| == |fat|
  {
    seq(|fat|, c requires 0 <= c < |fat| => if c in s then CLUSTER_UNUSED else fat[c])
  }

  /** A link that lets a release go on: another cluster, or the end of the chain. */
  predicate IsGoodLink(fat: Fat, link: nat) {
    IsCluster(fat, link) || link == CLUSTER_EOF
  }

  /** The cluster a release from c looks at after giving back s. */
  function NextOf(fat: Fat, c: nat, s: seq<nat>): nat
    requires AreClusters(fat, s)
  {
    if s == [] then c else fat[s[|s| - 1]]
  }

  /** A release from c has given back the clusters s, along good links, and looks at
      next. */
  ghost predicate Releasing(fat: Fat, c: nat, s: seq<nat>, next: nat) {
    && AreClusters(fat, s) && Distinct(s)
    && (s != [] ==> s[0] == c)
    && (forall i :: 0 <= i < |s| - 1 ==> fat[s[i]] == s[i + 1])
    && (forall i :: 0 <= i < |s| ==> IsGoodLink(fat, fat[s[i]]))
    && next == NextOf(fat, c, s)
  }

  /** s are the clusters a release from c gives back: it follows the links while they are
      good, and stops behind the last cluster, or where it meets a bad link or a
      cluster it has freed itself. */
  ghost predicate IsReleased(fat: Fat, c: nat, s: seq<nat>) {
    AreClusters(fat, s) && Releasing(fat, c, s, NextOf(fat, c, s)) && StopsAt(fat, s, NextOf(fat, c, s))
  }

  ghost predicate StopsAt(fat: Fat, s: seq<nat>, next: nat) {
    next == CLUSTER_EOF || next in s || (next < |fat| && !IsGoodLink(fat, fat[next]))
  }

  /** The clusters given back are determined by the table and the starting cluster. */
  lemma ReleasedIsUnique(fat: Fat, c: nat, s: seq<nat>, t: seq<nat>)
    requires IsFat(fat) && IsReleased(fat, c, s) && IsReleased(fat, c, t)
    ensures s == t
  {
    if |s| <= |t| {
      ReleasedIsLongest(fat, c, s, t);
    } else {
      ReleasedIsLongest(fat, c, t, s);
    }
  }

  lemma {:induction false} ReleasedAgree(fat: Fat, c: nat, s: seq<nat>, t: seq<nat>, n: nat)
    requires IsReleased(fat, c, s) && IsReleased(fat, c, t) && n < |s| && n < |t|
    ensures s[n] == t[n]
  {
    if n > 0 {
      ReleasedAgree(fat, c, s, t, n - 1);
      assert fat[s[n - 1]] == s[n] && fat[t[n - 1]] == t[n];
    }
  }

  lemma ReleasedIsLongest(fat: Fat, c: nat, s: seq<nat>, t: seq<nat>)
    requires IsFat(fat) && IsReleased(fat, c, s) && IsReleased(fat, c, t) && |s| <= |t|
    ensures s == t
  {
    forall n | 0 <= n < |s| ensures s[n] == t[n] {
      ReleasedAgree(fat, c, s, t, n);
    }
    assert s == t[..|s|];
    if |s| < |t| {
      ReleaseGoesOn(fat, c, t, |s|);
    }
  }

  lemma ReleaseGoesOn(fat: Fat, c: nat, t: seq<nat>, n: nat)
    requires IsFat(fat) && IsReleased(fat, c, t) && n < |t|
    ensures !StopsAt(fat, t[..n], if n == 0 then c else fat[t[n - 1]])
  {
    assert n > 0 ==> fat[t[n - 1]] == t[n];
    assert IsCluster(fat, t[n]) && IsGoodLink(fat, fat[t[n]]);
    assert forall i :: 0 <= i < n ==> t[i] != t[n];
  }

  /** A well-formed chain is given back whole. */
  lemma ChainIsReleased(fat: Fat, s: seq<nat>)
    requires IsFat(fat) && Chain(fat, s)
    ensures IsReleased(fat, s[0], s)
  {
    ChainIsFullTrail(fat, s);
    forall i | 0 <= i < |s| ensures IsGoodLink(fat, fat[s[i]]) {
      if i < |s| - 1 {
        assert fat[s[i]] == s[i + 1];
      }
    }
  }

  /** Of a chain that ends in a bad link, all but the last cluster are given back. */
  lemma LostChainIsReleasedButLast(fat: Fat, s: seq<nat>)
    requires IsFat(fat) && FullTrail(fat, s) && !Chain(fat, s)
    ensures IsReleased(fat, s[0], s[..|s| - 1])
  {
    FullTrailIsDistinct(fat, s);
    var t := s[..|s| - 1];
    forall i | 0 <= i < |t| ensures fat[t[i]] == s[i + 1] && IsCluster(fat, s[i + 1]) {
      assert fat[s[i]] == s[i + 1];
    }
  }

  /** Of a chain that runs in circles, every cluster that can be reached is given back. */
  lemma {:induction false} CycleIsReleased(fat: Fat, c: nat, s: seq<nat>, n: nat)
    requires IsFat(fat) && IsCluster(fat, c) && !HasFullTrail(fat, c) && IsReleased(fat, c, s)
    ensures |Walk(fat, c, n)| == n + 1 && Walk(fat, c, n)[n] in s
    decreases n
  {
    TailWalkEndsOrNever(fat, c);
    var w := Walk(fat, c, n + 1);
    var v := Walk(fat, c, n);
    assert |w| == n + 2 && |v| == n + 1;
    TrailsAgree(fat, w, 0, v, 0, n);
    assert fat[w[n]] == w[n + 1];
    if n == 0 {
      assert s != [];
    } else {
      CycleIsReleased(fat, c, s, n - 1);
      var before := Walk(fat, c, n - 1);
      TrailsAgree(fat, w, 0, before, 0, n - 1);
      assert fat[w[n - 1]] == w[n];
      var i :| 0 <= i < |s| && s[i] == w[n - 1];
      if i < |s| - 1 {
        assert fat[s[i]] == s[i + 1];
      }
    }
  }

  /** One turn of a release. */
  lemma ReleaseNext(fat: Fat, c: nat, s: seq<nat>, next: nat)
    requires Releasing(fat, c, s, next) && IsCluster(fat, next)
    requires IsGoodLink(fat, Freed(fat, s)[next]) && IsFat(fat)
    ensures Freed(fat, s)[next] == fat[next] != CLUSTER_UNUSED
    ensures Releasing(fat, c, s + [next], fat[next])
    ensures Freed(fat, s + [next]) == Freed(fat, s)[next := CLUSTER_UNUSED]
  {
    var t := s + [next];
    assert next !in s;
    FreedOneMore(fat, s, next);
    forall i | 0 <= i < |t| - 1 ensures fat[t[i]] == t[i + 1] {
      assert i < |s| - 1 ==> fat[s[i]] == s[i + 1];
    }
  }

  lemma ReleaseStops(fat: Fat, c: nat, s: seq<nat>, next: nat)
    requires Releasing(fat, c, s, next)
    requires next == CLUSTER_EOF || (next < |fat| && !IsGoodLink(fat, Freed(fat, s)[next]))
    ensures IsReleased(fat, c, s)
  {
  }

  lemma FreedOneMore(fat: Fat, s: seq<nat>, c: nat)
    requires IsCluster(fat, c)
    ensures Freed(fat, s + [c]) == Freed(fat, s)[c := CLUSTER_UNUSED]
  {
  }

  /** Of the clusters a release gives back, those that become unused: the last one is not
      among them if its entry cannot be changed. No other can be such a one. */
  function ReallyFreed(s: seq<nat>, stuck: set<nat>): seq<nat> {
    if s != [] && s[|s| - 1] in stuck then s[..|s| - 1] else s
  }

  lemma MaskedFreed(fat: Fat, c: nat, s: seq<nat>, stuck: set<nat>)
    requires IsFat(fat) && AreStuck(fat, stuck) && IsReleased(fat, c, s)
    ensures Masked(Freed(fat, s), stuck) == Freed(fat, ReallyFreed(s, stuck))
    ensures Masked(Freed(fat, s), stuck) == Freed(fat, s) <==> s == [] || s[|s| - 1] !in stuck
    ensures CountUnused(Freed(fat, s)) == CountUnused(fat) + |s|
    ensures CountUnused(Masked(Freed(fat, s), stuck)) == CountUnused(fat) + |ReallyFreed(s, stuck)|
  {
    var t := ReallyFreed(s, stuck);
    forall i | 0 <= i < |s|
      ensures fat[s[i]] != CLUSTER_UNUSED && (i < |s| - 1 ==> s[i] !in stuck)
    {
      assert i < |s| - 1 ==> fat[s[i]] == s[i + 1] && IsCluster(fat, s[i + 1]);
    }
    FreedCount(fat, s);
    FreedCount(fat, t);
    assert |t| < |s| ==> s == t + [s[|t|]];
    forall d | 0 <= d < |fat|
      ensures Masked(Freed(fat, s), stuck)[d] == Freed(fat, t)[d]
    {
      assert d in s <==> d in t || (|t| < |s| && d == s[|t|]);
    }
  }

  /** Giving back clusters that are in use raises the number of unused clusters by as many. */
  lemma {:induction false} FreedCount(fat: Fat, s: seq<nat>)
    requires AreClusters(fat, s) && Distinct(s)
    requires forall i :: 0 <= i < |s| ==> fat[s[i]] != CLUSTER_UNUSED
    ensures CountUnused(Freed(fat, s)) == CountUnused(fat) + |s|
  {
    if s == [] {
      assert Freed(fat, s) == fat;
    } else {
      var n := |s| - 1;
      var front := s[..n];
      FreedCount(fat, front);
      assert s == front + [s[n]];
      assert s[n] !in front;
      FreedOneMore(fat, front, s[n]);
      CountUnusedUpdate(Freed(fat, front), s[n], CLUSTER_UNUSED);
    }
  }

  /** Appending clusters lowers the number of unused clusters by as many. */
  lemma {:induction false} LinkedCount(fat: Fat, s: seq<nat>)
    requires s != [] && AreClusters(fat, s) && Distinct(s)
    requires fat[s[0]] != CLUSTER_UNUSED
    requires forall i :: 1 <= i < |s| ==> fat[s[i]] == CLUSTER_UNUSED
    ensures CountUnused(Linked(fat, s)) == CountUnused(fat) - (|s| - 1)
  {
    if |s| == 1 {
      CountUnusedUpdate(fat, s[0], CLUSTER_EOF);
    } else {
      LinkedCountAll(fat, s[1..]);
      LinkedIsChain(fat, s[1..]);
      assert forall i :: 0 <= i < |s[1..]| ==> s[1..][i] == s[i + 1] != s[0];
      CountUnusedUpdate(Linked(fat, s[1..]), s[0], s[1]);
    }
  }

  lemma {:induction false} LinkedCountAll(fat: Fat, s: seq<nat>)
    requires s != [] && AreClusters(fat, s) && Distinct(s)
    requires forall i :: 0 <= i < |s| ==> fat[s[i]] == CLUSTER_UNUSED
    ensures CountUnused(Linked(fat, s)) == CountUnused(fat) - |s|
  {
    if |s| == 1 {
      CountUnusedUpdate(fat, s[0], CLUSTER_EOF);
    } else {
      LinkedCountAll(fat, s[1..]);
      LinkedIsChain(fat, s[1..]);
      assert forall i :: 0 <= i < |s[1..]| ==> s[1..][i] == s[i + 1] != s[0];
      CountUnusedUpdate(Linked(fat, s[1..]), s[0], s[1]);
    }
  }

  /* ---------- extending and releasing together ---------- */

  /** Extending turns a chain into the same chain followed by the appended clusters, and
      changes no link outside of its old tail and those clusters. */
  lemma ExtendedChain(fat: Fat, s: seq<nat>, k: nat)
    requires IsFat(fat) && Chain(fat, s)
    ensures var tail := s[|s| - 1];
            var new_ := Appended(fat, tail, k);
            && Chain(Extended(fat, tail, k), s + new_)
            && CountUnused(Extended(fat, tail, k)) == CountUnused(fat) - |new_|
            && forall c :: 0 <= c < |fat| && c != tail && c !in new_ ==> Extended(fat, tail, k)[c] == fat[c]
    ensures var r, t := Extended(fat, s[|s| - 1], k), s + Appended(fat, s[|s| - 1], k);
            && (forall i :: 0 <= i < |t| ==> t[i] < |r|)
            && (forall i :: 0 <= i < |t| ==> r[t[i]] == if i < |t| - 1 then t[i + 1] else 0xFFFFFFF)
  {
    var tail := s[|s| - 1];
    var new_ := Appended(fat, tail, k);
    AppendedFacts(fat, tail, k);
    ChainIsFullTrail(fat, s);
    ExtendedLinks(fat, tail, k);
    ChainsJoin(fat, Extended(fat, tail, k), s, new_);
  }

  /** An extension leaves the table it should exactly if the entry of the tail can be changed,
      or nothing is appended. Otherwise the new clusters are a chain of their own, which no
      link leads to. */
  lemma MaskedExtended(fat: Fat, stuck: set<nat>, tail: nat, k: nat)
    requires IsFat(fat) && AreStuck(fat, stuck) && IsCluster(fat, tail) && fat[tail] == CLUSTER_EOF
    ensures Masked(Extended(fat, tail, k), stuck) == Extended(fat, tail, k) <==>
              tail !in stuck || Appended(fat, tail, k) == []
    ensures tail in stuck ==>
              var s := Appended(fat, tail, k);
              Masked(Extended(fat, tail, k), stuck) ==
              if s == [] then fat else (AppendedFacts(fat, tail, k); Linked(fat, s))
    ensures CountUnused(Masked(Extended(fat, tail, k), stuck)) == CountUnused(fat) - |Appended(fat, tail, k)|
  {
    hide Appended, Linked;
    var s, r := Appended(fat, tail, k), Extended(fat, tail, k);
    AppendedFacts(fat, tail, k);
    ExtendedLinks(fat, tail, k);
    forall c | c in stuck
      ensures !IsUnused(r, c) && (c != tail ==> r[c] == fat[c])
    {
      StuckIsKept(fat, stuck, tail, k, c);
    }
    MaskedUnused(r, stuck);
    var t := [tail] + s;
    assert r[tail] == (if s == [] then CLUSTER_EOF else s[0]) by {
      assert t[0] == tail && (s != [] ==> t[1] == s[0] && r[t[0]] == t[1]);
    }
    if tail in stuck {
      assert Masked(r, stuck)[tail] == CLUSTER_EOF && (s != [] ==> IsUnused(fat, s[0]));
      WithoutTail(fat, tail, s);
    }
    assert tail !in stuck || s == [] ==> Masked(r, stuck) == r;
  }

  lemma StuckIsKept(fat: Fat, stuck: set<nat>, tail: nat, k: nat, c: nat)
    requires AreStuck(fat, stuck) && IsCluster(fat, tail) && fat[tail] == CLUSTER_EOF && c in stuck
    ensures !IsUnused(Extended(fat, tail, k), c)
    ensures c != tail ==> Extended(fat, tail, k)[c] == fat[c]
  {
    hide Appended, Linked;
    var s, r := Appended(fat, tail, k), Extended(fat, tail, k);
    AppendedFacts(fat, tail, k);
    ExtendedLinks(fat, tail, k);
    var t := [tail] + s;
    if c == tail {
      assert t[0] == tail && if s == [] then r[t[0]] == CLUSTER_EOF else r[t[0]] == t[1] && IsCluster(r, t[1]);
    } else {
      assert c !in t;
    }
  }

  lemma WithoutTail(fat: Fat, tail: nat, s: seq<nat>)
    requires IsCluster(fat, tail) && fat[tail] == CLUSTER_EOF && AreClusters(fat, s) && Distinct([tail] + s)
    ensures AreClusters(fat, [tail] + s)
    ensures Linked(fat, [tail] + s)[tail := CLUSTER_EOF] == if s == [] then fat else Linked(fat, s)
  {
    var t := [tail] + s;
    if s != [] {
      assert t[1..] == s && Linked(fat, t) == Linked(fat, s)[tail := s[0]];
      assert Distinct(s) by {
        assert forall i :: 0 <= i < |s| ==> s[i] == t[i + 1];
      }
      LinkedIsChain(fat, s);
      assert tail !in s by {
        assert forall i :: 0 <= i < |s| ==> t[i + 1] == s[i] != t[0];
      }
    }
  }

  lemma ExtendedLinks(fat: Fat, tail: nat, k: nat)
    requires IsCluster(fat, tail) && fat[tail] == CLUSTER_EOF
    ensures var new_ := Appended(fat, tail, k);
            var r := Extended(fat, tail, k);
            && Chain(r, [tail] + new_)
            && CountUnused(r) == CountUnused(fat) - |new_|
            && forall c :: 0 <= c < |fat| && c !in [tail] + new_ ==> r[c] == fat[c]
  {
    hide Appended;
    var new_ := Appended(fat, tail, k);
    AppendedFacts(fat, tail, k);
    var link := [tail] + new_;
    assert forall i :: 0 <= i < |new_| ==> new_[i] != tail;
    assert Distinct(link);
    LinkedIsChain(fat, link);
    LinkedCount(fat, link);
  }

  lemma ChainsJoin(fat: Fat, r: Fat, s: seq<nat>, new_: seq<nat>)
    requires Chain(fat, s) && Distinct(s) && |r| == |fat|
    requires forall i :: 0 <= i < |new_| ==> IsUnused(fat, new_[i])
    requires Chain(r, [s[|s| - 1]] + new_)
    requires forall c :: 0 <= c < |fat| && c !in [s[|s| - 1]] + new_ ==> r[c] == fat[c]
    ensures Chain(r, s + new_)
  {
    var n := |s| - 1;
    var link := [s[n]] + new_;
    var t := s + new_;
    forall i | 0 <= i < |t| - 1 ensures r[t[i]] == t[i + 1] {
      if i < n {
        assert fat[s[i]] == s[i + 1];
        assert s[i] !in link;
      } else {
        assert t[i] == link[i - n] && t[i + 1] == link[i - n + 1];
      }
    }
    assert t[|t| - 1] == link[|link| - 1];
    assert forall i :: 0 <= i < |t| ==> t[i] == if i < n then s[i] else link[i - n];
  }

  /** Extending a chain and then releasing it leaves the table that releasing it at once
      leaves, exactly if the extension reached the chain. */
  lemma ExtendThenRelease(fat: Fat, stuck: set<nat>, s: seq<nat>, k: nat, released: seq<nat>)
    requires IsFat(fat) && AreStuck(fat, stuck) && Chain(fat, s)
    requires IsReleased(Masked(Extended(fat, s[|s| - 1], k), stuck), s[0], released)
    ensures var r := Masked(Extended(fat, s[|s| - 1], k), stuck);
            && IsReleased(fat, s[0], s)
            && (Masked(Freed(r, released), stuck) == Masked(Freed(fat, s), stuck) <==>
                s[|s| - 1] !in stuck || Appended(fat, s[|s| - 1], k) == [])
            && |released| == |s| + if s[|s| - 1] in stuck then 0 else |Appended(fat, s[|s| - 1], k)|
  {
    hide Appended, Linked, Extended, Freed;
    var tail := s[|s| - 1];
    ChainIsReleased(fat, s);
    MaskedExtended(fat, stuck, tail, k);
    if tail in stuck && Appended(fat, tail, k) != [] {
      DetachedRelease(fat, stuck, s, k, released);
    } else {
      var r := Extended(fat, tail, k);
      ExtendedChain(fat, s, k);
      AppendedFacts(fat, tail, k);
      ChainIsReleased(r, s + Appended(fat, tail, k));
      ReleasedIsUnique(r, s[0], released, s + Appended(fat, tail, k));
      FreedAlike(fat, r, s, Appended(fat, tail, k));
    }
  }

  /** The clusters appended behind an entry that cannot be changed are not given back. */
  lemma DetachedRelease(fat: Fat, stuck: set<nat>, s: seq<nat>, k: nat, released: seq<nat>)
    requires IsFat(fat) && AreStuck(fat, stuck) && Chain(fat, s)
    requires s[|s| - 1] in stuck && Appended(fat, s[|s| - 1], k) != []
    requires IsReleased(Masked(Extended(fat, s[|s| - 1], k), stuck), s[0], released)
    ensures released == s
    ensures Masked(Freed(Masked(Extended(fat, s[|s| - 1], k), stuck), released), stuck) != Masked(Freed(fat, s), stuck)
  {
    hide Appended, Linked, Extended;
    var tail := s[|s| - 1];
    var new_ := Appended(fat, tail, k);
    AppendedFacts(fat, tail, k);
    MaskedExtended(fat, stuck, tail, k);
    LinkedIsChain(fat, new_);
    var r := Linked(fat, new_);
    assert r == Masked(Extended(fat, tail, k), stuck);
    ChainIsFullTrail(fat, s);
    forall i | 0 <= i < |s|
      ensures s[i] !in new_ && r[s[i]] == fat[s[i]]
    {
      assert i < |s| - 1 ==> fat[s[i]] == s[i + 1];
    }
    assert Chain(r, s);
    ChainIsReleased(r, s);
    ReleasedIsUnique(r, s[0], released, s);
    var first := new_[0];
    assert first !in s by {
      assert forall i :: 0 <= i < |s| ==> s[i] !in new_;
    }
    assert first in new_ && IsUnused(fat, first) && first !in stuck;
    assert r[first] != CLUSTER_UNUSED by {
      assert |new_| > 1 ==> r[new_[0]] == new_[1];
    }
    assert Masked(Freed(r, s), stuck)[first] == r[first] && Masked(Freed(fat, s), stuck)[first] == fat[first];
  }

  lemma FreedAlike(fat: Fat, r: Fat, s: seq<nat>, new_: seq<nat>)
    requires s != [] && |r| == |fat|
    requires forall i :: 0 <= i < |new_| ==> IsUnused(fat, new_[i])
    requires forall c :: 0 <= c < |fat| && c != s[|s| - 1] && c !in new_ ==> r[c] == fat[c]
    ensures Freed(r, s + new_) == Freed(fat, s)
  {
    forall c | 0 <= c < |fat| ensures Freed(r, s + new_)[c] == Freed(fat, s)[c] {
      assert c in s + new_ <==> c in s || c in new_;
    }
  }

}
