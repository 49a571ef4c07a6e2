/**
  The table as a whole: a volume is sound when its links are exactly the chains of some
  files. Taking, appending and giving back clusters keeps it sound.
 */
module Volume {
  import opened FatChains
  import opened Allocation

  /** The chain of each file, indexed by the file's first cluster. */
  type Files = map<nat, seq<nat>>

  ghost predicate Disjoint(s: seq<nat>, t: seq<nat>) {
    forall c :: c in s ==> c !in t
  }

  ghost predicate Owned(files: Files, c: nat) {
    exists h :: h in files && c in files[h]
  }

  /** The good links of the table are exactly the links of the chains of the files, and
      no two files share a cluster. */
  ghost predicate Represents(fat: Fat, files: Files) {
    && IsFat(fat)
    && (forall h :: h in files ==> Chain(fat, files[h]) && files[h][0] == h)
    && (forall g, h :: g in files && h in files && g != h ==> Disjoint(files[g], files[h]))
    && (forall c: nat {:trigger Owned(files, c)} :: IsCluster(fat, c) && IsGoodLink(fat, fat[c]) ==> Owned(files, c))
  }

  ghost predicate Sound(fat: Fat) {
    exists files :: Represents(fat, files)
  }

  /* ---------- what soundness means ---------- */

  lemma GoodOwner(fat: Fat, files: Files, c: nat) returns (h: nat, i: nat)
    requires Represents(fat, files) && IsCluster(fat, c) && IsGoodLink(fat, fat[c])
    ensures h in files && i < |files[h]| && files[h][i] == c
    ensures if i < |files[h]| - 1 then fat[c] == files[h][i + 1] else fat[c] == CLUSTER_EOF
  {
    assert Owned(files, c);
    h :| h in files && c in files[h];
    i :| 0 <= i < |files[h]| && files[h][i] == c;
  }

  lemma MemberLink(fat: Fat, files: Files, h: nat, i: nat)
    requires Represents(fat, files) && h in files && i < |files[h]|
    ensures IsCluster(fat, files[h][i]) && IsGoodLink(fat, fat[files[h][i]])
    ensures if i < |files[h]| - 1 then fat[files[h][i]] == files[h][i + 1] else fat[files[h][i]] == CLUSTER_EOF
  {
    assert i < |files[h]| - 1 ==> IsCluster(fat, files[h][i + 1]);
  }

  /** From every linked cluster the links lead to CLUSTER_EOF without meeting a cluster
      twice, through the rest of the chain of its file. */
  lemma SoundEveryChainEnds(fat: Fat, files: Files, h: nat, i: nat)
    requires Represents(fat, files) && h in files && i < |files[h]|
    ensures Chain(fat, files[h][i..]) && FullTrail(fat, files[h][i..]) && Distinct(files[h][i..])
  {
    var s, t := files[h], files[h][i..];
    assert forall n :: 0 <= n < |t| ==> t[n] == s[i + n];
    forall n | 0 <= n < |t| - 1 ensures fat[t[n]] == t[n + 1] {
      assert fat[s[i + n]] == s[i + n + 1];
    }
    ChainIsFullTrail(fat, t);
  }

  /** A cluster has one place in one file. */
  lemma OnePlace(fat: Fat, files: Files, g: nat, i: nat, h: nat, j: nat)
    requires Represents(fat, files) && g in files && h in files
    requires i < |files[g]| && j < |files[h]| && files[g][i] == files[h][j]
    ensures g == h && i == j
  {
    assert files[g][i] in files[g] && files[h][j] in files[h];
    ChainIsFullTrail(fat, files[g]);
  }

  lemma SoundNoLinkToUnused(fat: Fat, c: nat)
    requires Sound(fat) && IsCluster(fat, c) && IsCluster(fat, fat[c])
    ensures IsGoodLink(fat, fat[fat[c]])
  {
    var files :| Represents(fat, files);
    var h, i := GoodOwner(fat, files, c);
    MemberLink(fat, files, h, i + 1);
  }

  lemma SoundOnePredecessor(fat: Fat, b: nat, c: nat)
    requires Sound(fat) && IsCluster(fat, b) && IsCluster(fat, c)
    requires fat[b] == fat[c] && IsCluster(fat, fat[b])
    ensures b == c
  {
    var files :| Represents(fat, files);
    var g, i := GoodOwner(fat, files, b);
    var h, j := GoodOwner(fat, files, c);
    OnePlace(fat, files, g, i + 1, h, j + 1);
  }

  ghost predicate HasPredecessor(fat: Fat, c: nat) {
    exists p: nat :: IsCluster(fat, p) && fat[p] == c
  }

  /** Of the clusters in use, those no link leads to are the first clusters of files. */
  lemma SoundHeads(fat: Fat, files: Files, c: nat)
    requires Represents(fat, files) && IsCluster(fat, c) && Owned(files, c)
    ensures c in files <==> !HasPredecessor(fat, c)
  {
    var h :| h in files && c in files[h];
    var i :| 0 <= i < |files[h]| && files[h][i] == c;
    if c in files {
      OnePlace(fat, files, h, i, c, 0);
    }
    if i > 0 {
      MemberLink(fat, files, h, i - 1);
    }
    if HasPredecessor(fat, c) {
      var p: nat :| IsCluster(fat, p) && fat[p] == c;
      var g, j := GoodOwner(fat, files, p);
      OnePlace(fat, files, h, i, g, j + 1);
    }
  }

  lemma UnusedIsNotOwned(fat: Fat, files: Files, c: nat)
    requires Represents(fat, files) && IsUnused(fat, c)
    ensures !Owned(files, c)
  {
    if Owned(files, c) {
      var h :| h in files && c in files[h];
      var i :| 0 <= i < |files[h]| && files[h][i] == c;
      MemberLink(fat, files, h, i);
    }
  }

  /* ---------- the requests that change the table ---------- */

  /** Linking unused clusters up to a chain of their own. */
  lemma NewChainKeepsVolume(fat: Fat, files: Files, s: seq<nat>)
    requires Represents(fat, files) && s != [] && Distinct(s) && forall i :: 0 <= i < |s| ==> IsUnused(fat, s[i])
    ensures AreClusters(fat, s)
    ensures Represents(Linked(fat, s), files[s[0] := s])
  {
    hide Linked;
    var fat' := Linked(fat, s);
    LinkedIsChain(fat, s);
    forall g | g in files && g != s[0]
      ensures Disjoint(files[g], s) && Chain(fat', files[g])
    {
      UnusedOutside(fat, files, g, s);
      ChainUnchanged(fat, fat', files[g]);
    }
    forall c: nat | IsCluster(fat', c) && IsGoodLink(fat', fat'[c]) ensures Owned(files[s[0] := s], c) {
      if c in s {
        assert c in files[s[0] := s][s[0]];
      } else {
        assert s[0] !in files by {
          UnusedIsNoFile(fat, files, s[0]);
        }
        StillOwned(fat, files, c, s[0], s);
      }
    }
    ReplacedChain(fat, files, s[0], fat', s);
  }

  lemma UnusedIsNoFile(fat: Fat, files: Files, c: nat)
    requires Represents(fat, files) && IsUnused(fat, c)
    ensures c !in files
  {
    if c in files {
      MemberLink(fat, files, c, 0);
    }
  }

  lemma UnusedOutside(fat: Fat, files: Files, h: nat, s: seq<nat>)
    requires Represents(fat, files) && h in files && forall i :: 0 <= i < |s| ==> IsUnused(fat, s[i])
    ensures Disjoint(files[h], s) && Disjoint(s, files[h])
  {
    forall c | c in files[h]
      ensures c !in s
    {
      assert Owned(files, c);
      if c in s {
        UnusedIsNotOwned(fat, files, c);
      }
    }
  }

  /** Taking an unused cluster for the first cluster of a file. */
  lemma CreateKeepsVolume(fat: Fat, files: Files, r: nat)
    requires Represents(fat, files) && IsUnused(fat, r)
    ensures Represents(fat[r := CLUSTER_EOF], files[r := [r]])
  {
    NewChainKeepsVolume(fat, files, [r]);
  }

  lemma ChainUnchanged(fat: Fat, fat': Fat, s: seq<nat>)
    requires Chain(fat, s) && |fat'| == |fat|
    requires forall c :: c in s && IsCluster(fat, c) ==> fat'[c] == fat[c]
    ensures Chain(fat', s)
  {
    forall i | 0 <= i < |s| ensures fat'[s[i]] == fat[s[i]] {
      assert s[i] in s;
    }
  }

  /** A cluster owned by one of the other files, or by the part of a chain that remains. */
  lemma StillOwned(fat: Fat, files: Files, c: nat, h: nat, s: seq<nat>)
    requires Represents(fat, files) && IsCluster(fat, c) && IsGoodLink(fat, fat[c])
    requires h in files && c in files[h] ==> c in s
    ensures Owned(files[h := s], c)
  {
    assert Owned(files, c);
    var g :| g in files && c in files[g];
    assert c in files[h := s][g];
  }

  lemma ReplacedChain(fat: Fat, files: Files, h: nat, fat': Fat, s: seq<nat>)
    requires Represents(fat, files) && IsFat(fat') && Chain(fat', s) && s[0] == h
    requires forall g :: g in files && g != h ==> Chain(fat', files[g]) && Disjoint(files[g], s)
    requires forall c: nat {:trigger Owned(files[h := s], c)} :: IsCluster(fat', c) && IsGoodLink(fat', fat'[c]) ==>
               Owned(files[h := s], c)
    ensures Represents(fat', files[h := s])
  {
    var files' := files[h := s];
    forall f, g | f in files' && g in files' && f != g ensures Disjoint(files'[f], files'[g]) {
      assert f != h ==> files'[f] == files[f];
      assert g != h ==> files'[g] == files[g];
      assert f == h ==> Disjoint(files[g], s);
    }
  }

  /** Appending clusters to the chain of one file. */
  lemma AppendKeepsVolume(fat: Fat, files: Files, h: nat, k: nat)
    requires Represents(fat, files) && h in files
    ensures var tail := files[h][|files[h]| - 1];
            Represents(Extended(fat, tail, k), files[h := files[h] + Appended(fat, tail, k)])
  {
    var s := files[h];
    var tail := s[|s| - 1];
    var fat', s' := Extended(fat, tail, k), s + Appended(fat, tail, k);
    ExtendedChain(fat, s, k);
    forall g | g in files && g != h ensures Chain(fat', files[g]) && Disjoint(files[g], s') {
      OtherFileUnchanged(fat, files, h, k, g);
    }
    forall c: nat | IsCluster(fat', c) && IsGoodLink(fat', fat'[c]) ensures Owned(files[h := s'], c) {
      ExtendedOwned(fat, files, h, k, c);
    }
    ReplacedChain(fat, files, h, fat', s');
  }

  lemma OtherFileUnchanged(fat: Fat, files: Files, h: nat, k: nat, g: nat)
    requires Represents(fat, files) && h in files && g in files && g != h
    ensures var tail := files[h][|files[h]| - 1];
            Chain(Extended(fat, tail, k), files[g]) && Disjoint(files[g], files[h] + Appended(fat, tail, k))
  {
    var s := files[h];
    var tail := s[|s| - 1];
    AppendedFacts(fat, tail, k);
    ExtendedChain(fat, s, k);
    assert tail in s && Disjoint(files[g], s);
    forall c | c in files[g] ensures c !in Appended(fat, tail, k) {
      assert Owned(files, c);
      if c in Appended(fat, tail, k) {
        UnusedIsNotOwned(fat, files, c);
      }
    }
    ChainUnchanged(fat, Extended(fat, tail, k), files[g]);
  }

  lemma ExtendedOwned(fat: Fat, files: Files, h: nat, k: nat, c: nat)
    requires Represents(fat, files) && h in files && IsCluster(fat, c)
    requires IsGoodLink(fat, Extended(fat, files[h][|files[h]| - 1], k)[c])
    ensures Owned(files[h := files[h] + Appended(fat, files[h][|files[h]| - 1], k)], c)
  {
    var s := files[h];
    var tail := s[|s| - 1];
    var new_ := Appended(fat, tail, k);
    ExtendedChain(fat, s, k);
    if c in s || c in new_ {
      assert c in files[h := s + new_][h];
    } else {
      assert tail in s;
      StillOwned(fat, files, c, h, s + new_);
    }
  }

  /** The files after an extension of file h by the clusters s: they are appended to it, or,
      if the entry of its tail cannot be changed, a file of their own. */
  function FilesExtended(files: Files, h: nat, s: seq<nat>, stuck: set<nat>): Files
    requires h in files && files[h] != []
  {
    if s != [] && files[h][|files[h]| - 1] in stuck then files[s[0] := s] else files[h := files[h] + s]
  }

  lemma ExtendKeepsVolume(fat: Fat, files: Files, stuck: set<nat>, h: nat, k: nat)
    requires Represents(fat, files) && AreStuck(fat, stuck) && h in files
    ensures var tail := files[h][|files[h]| - 1];
            Represents(Masked(Extended(fat, tail, k), stuck), FilesExtended(files, h, Appended(fat, tail, k), stuck))
  {
    hide Appended, Linked;
    var tail := files[h][|files[h]| - 1];
    var s := Appended(fat, tail, k);
    AppendedFacts(fat, tail, k);
    MaskedExtended(fat, stuck, tail, k);
    if tail in stuck && s != [] {
      NewChainKeepsVolume(fat, files, s);
    } else {
      AppendKeepsVolume(fat, files, h, k);
    }
  }

  /** An extension that stops before it closes the chain leaves a volume sound only if it has
      not linked anything, or nothing that shows: a chain then leads to a cluster that still
      counts as unused, or to one that is linked to itself. */
  lemma TurnedIsSound(fat: Fat, stuck: set<nat>, tail: nat, n: nat)
    requires IsFat(fat) && Sound(fat) && AreStuck(fat, stuck) && IsCluster(fat, tail) && fat[tail] == CLUSTER_EOF
    requires n <= MaxTurns(fat)
    ensures Sound(Masked(Turned(fat, tail, n), stuck)) <==> n == 0 || (n == 1 && tail in stuck)
  {
    hide Sound, Turned, LastAfter;
    var r := Masked(Turned(fat, tail, n), stuck);
    NothingMasked(fat, stuck);
    NothingTurned(fat, tail);
    if n > 0 {
      LastIsLinked(fat, stuck, tail, n);
      TurnLinks(fat, stuck, tail, n);
      if Sound(r) && n > CountUnused(fat) && !(n == 1 && tail in stuck) {
        SoundNoLinkToItself(r, LastAfter(fat, tail, n));
      } else if Sound(r) && !(n == 1 && tail in stuck) {
        SoundNoLinkToUnused(r, LastAfter(fat, tail, n - 1));
      }
    }
  }

  /** The link a turn makes, unless it is in an entry that cannot be changed. */
  lemma TurnLinks(fat: Fat, stuck: set<nat>, tail: nat, n: nat)
    requires IsFat(fat) && AreStuck(fat, stuck) && IsCluster(fat, tail) && fat[tail] == CLUSTER_EOF
    requires 1 <= n <= MaxTurns(fat)
    ensures var last := LastAfter(fat, tail, n - 1);
            && IsCluster(fat, last) && IsCluster(fat, LastAfter(fat, tail, n))
            && if n == 1 && tail in stuck then Masked(Turned(fat, tail, n), stuck) == fat
               else Masked(Turned(fat, tail, n), stuck)[last] == LastAfter(fat, tail, n)
    ensures n > CountUnused(fat) ==> LastAfter(fat, tail, n) == LastAfter(fat, tail, n - 1)
  {
    hide Turned, LastAfter, Masked;
    TurnedUnused(fat, tail, n - 1, tail);
    TurnedUnused(fat, tail, n, tail);
    var last, next := LastAfter(fat, tail, n - 1), LastAfter(fat, tail, n);
    LastInOrder(fat, tail, n);
    TurnedNext(fat, tail, n - 1);
    TurnMasked(fat, stuck, tail, n);
  }

  /** Which clusters the turns link: the tail, and then the unused ones, the last of them twice. */
  lemma LastInOrder(fat: Fat, tail: nat, n: nat)
    requires IsCluster(fat, tail) && 1 <= n <= MaxTurns(fat)
    ensures if n == 1 then LastAfter(fat, tail, n - 1) == tail else IsUnused(fat, LastAfter(fat, tail, n - 1))
    ensures n > CountUnused(fat) ==> LastAfter(fat, tail, n) == LastAfter(fat, tail, n - 1)
  {
    var u := UnusedFrom(fat, tail + 1);
    assert |u| == CountUnused(fat) && (n > 1 ==> IsUnused(fat, u[n - 2])) by {
      UnusedFromIsSearchOrder(fat, tail + 1);
    }
    hide UnusedFrom, UnusedIn, IsUnused;
  }

  lemma TurnMasked(fat: Fat, stuck: set<nat>, tail: nat, n: nat)
    requires IsFat(fat) && AreStuck(fat, stuck) && IsCluster(fat, tail) && fat[tail] == CLUSTER_EOF
    requires 1 <= n <= MaxTurns(fat)
    requires var last := LastAfter(fat, tail, n - 1);
             && IsCluster(fat, last) && (n == 1 ==> last == tail) && (n > 1 ==> IsUnused(fat, last))
             && Turned(fat, tail, n) == Turned(fat, tail, n - 1)[last := LastAfter(fat, tail, n)]
    ensures if n == 1 && tail in stuck then Masked(Turned(fat, tail, n), stuck) == fat
            else Masked(Turned(fat, tail, n), stuck)[LastAfter(fat, tail, n - 1)] == LastAfter(fat, tail, n)
  {
    NothingTurned(fat, tail);
    hide Turned, LastAfter;
    NothingMasked(fat, stuck);
  }

  lemma SoundNoLinkToItself(fat: Fat, c: nat)
    requires Sound(fat) && IsCluster(fat, c)
    ensures fat[c] != c
  {
    var files :| Represents(fat, files);
    if fat[c] == c {
      var h, i := GoodOwner(fat, files, c);
      OnePlace(fat, files, h, i, h, i + 1);
    }
  }

  /** Giving back the whole chain of one file. */
  lemma RemoveKeepsVolume(fat: Fat, files: Files, h: nat)
    requires Represents(fat, files) && h in files
    ensures Represents(Freed(fat, files[h]), files - {h})
  {
    var fat', files' := Freed(fat, files[h]), files - {h};
    forall g | g in files' ensures Chain(fat', files'[g]) && files'[g][0] == g {
      assert Disjoint(files[g], files[h]);
      ChainUnchanged(fat, fat', files[g]);
    }
    forall c: nat | IsCluster(fat', c) && IsGoodLink(fat', fat'[c]) ensures Owned(files', c) {
      assert c !in files[h];
      assert Owned(files, c);
      var g :| g in files && c in files[g];
      assert c in files'[g];
    }
  }

  /** Giving back a chain but its last cluster, which is left as a chain of its own. */
  lemma ShortenKeepsVolume(fat: Fat, files: Files, h: nat)
    requires Represents(fat, files) && h in files
    ensures var n := |files[h]| - 1;
            var last := files[h][n];
            Represents(Freed(fat, files[h][..n]), (files - {h})[last := [last]])
  {
    var n := |files[h]| - 1;
    var last, front := files[h][n], files[h][..n];
    ChainIsFullTrail(fat, files[h]);
    assert files[h] == front + [last] && last !in front;
    RemoveKeepsVolume(fat, files, h);
    CreateKeepsVolume(Freed(fat, files[h]), files - {h}, last);
    assert Freed(fat, files[h])[last := CLUSTER_EOF] == Freed(fat, front);
  }

  /** The files after a release of file h: it is gone, or, if the entry of its last cluster
      cannot be changed, that cluster remains as a file. */
  function FilesReleased(files: Files, h: nat, stuck: set<nat>): Files
    requires h in files && files[h] != []
  {
    var last := files[h][|files[h]| - 1];
    if last in stuck then (files - {h})[last := [last]] else files - {h}
  }

  /** Every file but h is in files' as it was. */
  ghost predicate OthersKept(files: Files, h: nat, files': Files) {
    forall g :: g in files && g != h ==> g in files' && files'[g] == files[g]
  }

  lemma ReleaseKeepsOthers(fat: Fat, files: Files, stuck: set<nat>, h: nat)
    requires Represents(fat, files) && h in files
    ensures OthersKept(files, h, FilesReleased(files, h, stuck))
  {
    var last := files[h][|files[h]| - 1];
    forall g | g in files && g != h
      ensures g != last
    {
      assert files[g][0] in files[g] && last in files[h];
    }
  }

  lemma ReleaseKeepsVolume(fat: Fat, files: Files, stuck: set<nat>, h: nat)
    requires Represents(fat, files) && AreStuck(fat, stuck) && h in files
    ensures Represents(Masked(Freed(fat, files[h]), stuck), FilesReleased(files, h, stuck))
  {
    ChainIsReleased(fat, files[h]);
    MaskedFreed(fat, h, files[h], stuck);
    if files[h][|files[h]| - 1] in stuck {
      ShortenKeepsVolume(fat, files, h);
    } else {
      RemoveKeepsVolume(fat, files, h);
    }
  }

  /** A formatted table is sound: no entry leads anywhere, except that on FAT32 the chain of
      the root directory has been started. */
  lemma FormattedIsSound(fat: Fat, root: nat)
    requires IsFat(fat)
    requires forall c: nat :: IsCluster(fat, c) ==>
               if c == root then fat[c] == CLUSTER_EOF else !IsGoodLink(fat, fat[c])
    ensures Sound(fat)
  {
    if IsCluster(fat, root) {
      var files: Files := map[root := [root]];
      assert root in files[root];
      assert Represents(fat, files);
    } else {
      assert Represents(fat, map[]);
    }
  }
}
