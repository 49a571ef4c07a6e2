/**
  The cached number of unused clusters: a 32-bit counter with its highest value set aside
  for "unknown", counted up and down as entries of the table become unused or taken.
 */
module FreeCount {
  import opened FatChains

  const FSI_UNKNOWN: nat := 0xFFFF_FFFF
  const UINT_32: nat := 0x1_0000_0000

  /** Counted up by d. A count that meets the unknown mark on its way stays there. */
  function Up(n: nat, d: nat): nat {
    if n == FSI_UNKNOWN || n + d >= FSI_UNKNOWN then FSI_UNKNOWN else n + d
  }

  /** Counted down by d. Below zero lies the unknown mark. */
  function Down(n: nat, d: nat): nat {
    if n == FSI_UNKNOWN || n < d then FSI_UNKNOWN else n - d
  }

  /** The count after an entry that held link was overwritten with code. */
  function Counted(n: nat, link: nat, code: nat): nat {
    if code == CLUSTER_UNUSED && link != CLUSTER_UNUSED then Up(n, 1)
    else if code != CLUSTER_UNUSED && link == CLUSTER_UNUSED then Down(n, 1)
    else n
  }

  lemma UpUp(n: nat, d: nat, e: nat)
    requires n < UINT_32
    ensures Up(Up(n, d), e) == Up(n, d + e)
  {
  }

  lemma DownDown(n: nat, d: nat, e: nat)
    requires n < UINT_32
    ensures Down(Down(n, d), e) == Down(n, d + e)
  {
  }

  /** A count that is either unknown or right. */
  ghost predicate Tracks(n: nat, fat: Fat) {
    n == FSI_UNKNOWN || n == CountUnused(fat)
  }

  lemma CountIsKnown(fat: Fat)
    requires IsFat(fat)
    ensures CountUnused(fat) <= |fat| - 2 < FSI_UNKNOWN - 2
  {
    UnusedInBound(fat, CLUSTER_MIN_GOOD, |fat|);
  }

  /** One entry written: a right count stays right, and any other known one is as far off as
      it was, unless it has become the unknown one. */
  lemma CountedOneWrite(n: nat, fat: Fat, c: nat, code: nat)
    requires n < UINT_32 && IsFat(fat) && IsCluster(fat, c)
    ensures var n' := Counted(n, fat[c], code);
            && (n == FSI_UNKNOWN ==> n' == FSI_UNKNOWN)
            && (n == CountUnused(fat) ==> n' == CountUnused(fat[c := code]))
            && (n' == FSI_UNKNOWN || n' - CountUnused(fat[c := code]) == n - CountUnused(fat))
  {
    CountUnusedUpdate(fat, c, code);
    CountIsKnown(fat);
    CountIsKnown(fat[c := code]);
  }
}
