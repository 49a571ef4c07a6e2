/**
  How the links of the table are packed into the sectors of a FAT12, FAT16 or FAT32
  volume: reading an entry, writing one, and what writing one does to its neighbours.
 */
module FatBytes {
  import opened Arithmetic
  import opened Bytes
  import opened FatChains

  datatype FatType = FAT12 | FAT16 | FAT32

  /** The fields of the BIOS parameter block the table depends on, with the last cluster
      and the size of the cache derived from them at mount. */
  datatype Geometry = Geometry(
    kind: FatType,
    lastCluster: nat,
    sectorSize: nat,
    fatStart: nat,
    fatSize: nat,
    copies: nat,
    cacheSize: nat)
  {
    /** A volume as formatted: the entries of all clusters fit into the table, and the
        numbers of clusters stay below the reserved values of the FAT type. */
    ghost predicate Valid() {
      && sectorSize > 0 && sectorSize % 4 == 0
      && 1 <= copies
      && 1 <= cacheSize <= fatSize
      && (kind == FAT12 ==> cacheSize >= 2 || cacheSize == fatSize)
      && 1 <= lastCluster < Limit(kind) - 2
      && EntryOffset(kind, lastCluster) + EntryWidth(kind) <= fatSize * sectorSize
    }
  }

  function EntryOffset(kind: FatType, c: nat): nat {
    match kind
    case FAT12 => c + c / 2
    case FAT16 => 2 * c
    case FAT32 => 4 * c
  }

  function EntryWidth(kind: FatType): nat {
    if kind == FAT32 then 4 else 2
  }

  /** Stored values from here on mean the end of a chain. */
  function Limit(kind: FatType): nat {
    match kind
    case FAT12 => 0xFF8
    case FAT16 => 0xFFF8
    case FAT32 => 0xFFFFFF8
  }

  /* ---------- bytes of a run of sectors ---------- */

  predicate AreSectors(g: Geometry, secs: seq<Sector>) {
    forall i :: 0 <= i < |secs| ==> |secs[i]| == g.sectorSize
  }

  predicate HasByte(g: Geometry, secs: seq<Sector>, o: nat) {
    g.sectorSize > 0 && AreSectors(g, secs) && o / g.sectorSize < |secs|
  }

  function ByteAt(g: Geometry, secs: seq<Sector>, o: nat): byte
    requires HasByte(g, secs, o)
  {
    secs[o / g.sectorSize][o % g.sectorSize]
  }

  function WithByte(g: Geometry, secs: seq<Sector>, o: nat, b: byte): (r: seq<Sector>)
    requires HasByte(g, secs, o)
    ensures |r| == |secs| && AreSectors(g, r)
  {
    var i := o / g.sectorSize;
    var sector: Sector := secs[i][o % g.sectorSize := b];
    secs[i := sector]
  }

  lemma WithByteAt(g: Geometry, secs: seq<Sector>, o: nat, b: byte, p: nat)
    requires HasByte(g, secs, o) && HasByte(g, secs, p)
    ensures ByteAt(g, WithByte(g, secs, o, b), p) == if p == o then b else ByteAt(g, secs, p)
  {
    if p != o {
      DifferentParts(o, p, g.sectorSize);
    }
  }

  /* ---------- packing one entry ---------- */

  /** The value stored in the bytes of the entry of cluster c. */
  function Unpack(kind: FatType, c: nat, b: seq<byte>): nat
    requires |b| == EntryWidth(kind)
  {
    var n := (i: nat) requires i < |b| => b[i] as int;
    match kind
    case FAT12 => if c % 2 == 0 then n(0) + n(1) % 16 * 0x100 else n(0) / 16 + n(1) * 0x10
    case FAT16 => n(0) + n(1) * 0x100
    case FAT32 => n(0) + n(1) * 0x100 + n(2) * 0x10000 + n(3) * 0x1000000
  }

  /** The bytes of the entry after code was written: the half byte a FAT12 entry shares
      with its neighbour and the upper half byte of a FAT32 entry keep their value. */
  function Pack(kind: FatType, c: nat, b: seq<byte>, code: nat): (r: seq<byte>)
    requires |b| == EntryWidth(kind)
    ensures |r| == |b|
  {
    match kind
    case FAT12 =>
      if c % 2 == 0 then [code % 0x100, b[1] / 16 * 16 + code / 0x100 % 16]
      else [b[0] % 16 + code % 16 * 16, code / 0x10 % 0x100]
    case FAT16 => [code % 0x100, code / 0x100 % 0x100]
    case FAT32 => [code % 0x100, code / 0x100 % 0x100, code / 0x10000 % 0x100, b[3] / 16 * 16 + code / 0x1000000 % 16]
  }

  /** The link an entry stands for: every value from the limit on is an end of chain. */
  function LinkOf(kind: FatType, stored: nat): nat {
    if stored >= Limit(kind) then CLUSTER_EOF else stored
  }

  /** The half byte of a FAT32 entry that writing leaves alone but reading does not mask. */
  predicate ReservedClear(kind: FatType, b: seq<byte>)
    requires |b| == EntryWidth(kind)
  {
    kind == FAT32 ==> b[3] < 16
  }

  /** How many values an entry can hold, its reserved bits left aside. */
  function Values(kind: FatType): nat {
    match kind
    case FAT12 => 0x1000
    case FAT16 => 0x10000
    case FAT32 => 0x10000000
  }

  /** What is read after code was written to an entry. */
  function ReadBack(kind: FatType, clear: bool, code: nat): nat {
    if clear then LinkOf(kind, code % Values(kind)) else CLUSTER_EOF
  }

  /** The codes that stand for themselves: numbers below the end marks, and CLUSTER_EOF. */
  predicate IsCode(kind: FatType, code: nat) {
    code < Limit(kind) || code == CLUSTER_EOF
  }

  /** Those are exactly the codes that are read back; when reserved bits are set, only
      CLUSTER_EOF is. */
  lemma ReadBackIsCode(kind: FatType, clear: bool, code: nat)
    ensures ReadBack(kind, clear, code) == code <==> code == CLUSTER_EOF || (clear && IsCode(kind, code))
  {
    assert CLUSTER_EOF % 0x1000 == 0xFFF && CLUSTER_EOF % 0x10000 == 0xFFFF;
  }

  /** Whatever is written to an entry is cut to the width of the entry, and to an entry of
      a FAT32 volume whose reserved bits are set it makes no difference at all: that one
      reads as an end of chain. */
  lemma UnpackPack(kind: FatType, c: nat, b: seq<byte>, code: nat)
    requires |b| == EntryWidth(kind)
    ensures LinkOf(kind, Unpack(kind, c, Pack(kind, c, b, code))) == ReadBack(kind, ReservedClear(kind, b), code)
    ensures ReservedClear(kind, Pack(kind, c, b, code)) == ReservedClear(kind, b)
  {
    match kind {
      case FAT12 => UnpackPack12(c, b, code);
      case FAT16 => UnpackPack16(c, b, code);
      case FAT32 =>
        UnpackPack32(c, b, code);
        LinkOfWide(code % Values(kind), (b[3] as int) / 16);
    }
  }

  lemma LinkOfWide(v: nat, upper: nat)
    requires v < Values(FAT32)
    ensures LinkOf(FAT32, v + upper * 0x10000000) == if upper == 0 then LinkOf(FAT32, v) else CLUSTER_EOF
  {
  }

  lemma UnpackPack12(c: nat, b: seq<byte>, code: nat)
    requires |b| == 2
    ensures Unpack(FAT12, c, Pack(FAT12, c, b, code)) == code % 0x1000
  {
    if c % 2 == 0 {
      LowByteHighNibble(code);
    } else {
      LowNibbleHighByte(code);
    }
  }

  lemma LowByteHighNibble(code: nat)
    ensures code % 0x100 + code / 0x100 % 16 * 0x100 == code % 0x1000
  {
    var a, r := code / 0x1000, code % 0x1000;
    assert code / 0x100 == 16 * a + r / 0x100 && code % 0x100 == r % 0x100;
  }

  lemma LowNibbleHighByte(code: nat)
    ensures code % 16 + code / 0x10 % 0x100 * 0x10 == code % 0x1000
  {
    var a, r := code / 0x1000, code % 0x1000;
    assert code / 0x10 == 0x100 * a + r / 0x10 && code % 16 == r % 16;
  }

  lemma UnpackPack16(c: nat, b: seq<byte>, code: nat)
    requires |b| == 2
    ensures Unpack(FAT16, c, Pack(FAT16, c, b, code)) == code % 0x10000
  {
  }

  lemma UnpackPack32(c: nat, b: seq<byte>, code: nat)
    requires |b| == 4
    ensures Unpack(FAT32, c, Pack(FAT32, c, b, code)) == code % 0x10000000 + (b[3] as int) / 16 * 0x10000000
    ensures ReservedClear(FAT32, Pack(FAT32, c, b, code)) == ReservedClear(FAT32, b)
  {
    FourBytes(code);
  }

  lemma FourBytes(code: nat)
    ensures code % 0x10000000 ==
            code % 0x100 + code / 0x100 % 0x100 * 0x100 + code / 0x10000 % 0x100 * 0x10000
            + code / 0x1000000 % 16 * 0x1000000
  {
    var q := code / 0x100;
    var r := q / 0x100;
    var t := r / 0x100;
    assert code / 0x10000 == r && code / 0x1000000 == t;
    assert code == code % 0x100 + 0x100 * q && q == q % 0x100 + 0x100 * r && r == r % 0x100 + 0x100 * t;
    assert t == t % 16 + 16 * (t / 16);
  }

  /** The mark of a bad cluster survives a write only on FAT32; the two smaller types keep
      too few bits of it, and a scan for it finds nothing. */
  lemma BadMarkNeedsFat32(kind: FatType, c: nat, b: seq<byte>)
    requires |b| == EntryWidth(kind) && ReservedClear(kind, b)
    ensures LinkOf(kind, Unpack(kind, c, Pack(kind, c, b, 0xFFFFFF7))) == 0xFFFFFF7 <==> kind == FAT32
  {
    UnpackPack(kind, c, b, CLUSTER_BAD);
    ReadBackIsCode(kind, true, CLUSTER_BAD);
  }

  /* ---------- entries within the table ---------- */

  ghost predicate IsTable(g: Geometry, secs: seq<Sector>) {
    g.Valid() && |secs| == g.fatSize && AreSectors(g, secs)
  }

  predicate InTable(g: Geometry, c: nat) {
    CLUSTER_MIN_GOOD <= c <= g.lastCluster
  }

  lemma EntryIsInside(g: Geometry, secs: seq<Sector>, c: nat, i: nat)
    requires IsTable(g, secs) && InTable(g, c) && i < EntryWidth(g.kind)
    ensures HasByte(g, secs, EntryOffset(g.kind, c) + i)
  {
    QuotientBelow(EntryOffset(g.kind, c) + i, g.sectorSize, g.fatSize);
  }

  ghost function EntryBytes(g: Geometry, secs: seq<Sector>, c: nat): (b: seq<byte>)
    requires IsTable(g, secs) && InTable(g, c)
    ensures |b| == EntryWidth(g.kind)
  {
    seq<byte>(EntryWidth(g.kind), i requires 0 <= i < EntryWidth(g.kind) =>
      (EntryIsInside(g, secs, c, i); ByteAt(g, secs, EntryOffset(g.kind, c) + i)))
  }

  ghost function Link(g: Geometry, secs: seq<Sector>, c: nat): nat
    requires IsTable(g, secs) && InTable(g, c)
  {
    LinkOf(g.kind, Unpack(g.kind, c, EntryBytes(g, secs, c)))
  }

  /** The links of the clusters below n. */
  ghost function LinksBelow(g: Geometry, secs: seq<Sector>, n: nat): (fat: Fat)
    requires IsTable(g, secs) && n <= g.lastCluster + 1
    ensures |fat| == n
  {
    if n == 0 then [] else LinksBelow(g, secs, n - 1) + [if InTable(g, n - 1) then Link(g, secs, n - 1) else 0]
  }

  /** The table of links the sectors stand for; the two entries below the first cluster
      are not links and read as zero here. */
  ghost function Links(g: Geometry, secs: seq<Sector>): (fat: Fat)
    requires IsTable(g, secs)
    ensures IsFat(fat) && |fat| == g.lastCluster + 1
  {
    LinksBelow(g, secs, g.lastCluster + 1)
  }

  lemma {:induction false} LinkBelow(g: Geometry, secs: seq<Sector>, n: nat, c: nat)
    requires IsTable(g, secs) && c < n <= g.lastCluster + 1
    ensures LinksBelow(g, secs, n)[c] == if InTable(g, c) then Link(g, secs, c) else 0
  {
    if c < n - 1 {
      LinkBelow(g, secs, n - 1, c);
    }
  }

  /** The clusters whose entries have reserved bits set. */
  ghost function Stuck(g: Geometry, secs: seq<Sector>): set<nat>
    requires IsTable(g, secs)
  {
    set c: nat | c <= g.lastCluster && InTable(g, c) && !ReservedClear(g.kind, EntryBytes(g, secs, c))
  }

  lemma StuckReadsEnd(kind: FatType, c: nat, b: seq<byte>)
    requires |b| == EntryWidth(kind) && !ReservedClear(kind, b)
    ensures LinkOf(kind, Unpack(kind, c, b)) == CLUSTER_EOF
  {
  }

  lemma StuckAreStuck(g: Geometry, secs: seq<Sector>)
    requires IsTable(g, secs)
    ensures AreStuck(Links(g, secs), Stuck(g, secs))
  {
    forall c | c in Stuck(g, secs)
      ensures IsCluster(Links(g, secs), c) && Links(g, secs)[c] == CLUSTER_EOF
    {
      LinkBelow(g, secs, g.lastCluster + 1, c);
      StuckReadsEnd(g.kind, c, EntryBytes(g, secs, c));
    }
  }

  /** secs' is secs with the bytes b written at offset o. */
  ghost predicate BytesWritten(g: Geometry, secs: seq<Sector>, o: nat, b: seq<byte>, secs': seq<Sector>) {
    && |secs'| == |secs| && AreSectors(g, secs') && AreSectors(g, secs) && g.sectorSize > 0
    && forall p: nat :: HasByte(g, secs, p) ==>
      ByteAt(g, secs', p) == if o <= p < o + |b| then b[p - o] else ByteAt(g, secs, p)
  }

  lemma EntryAfterWrite(g: Geometry, secs: seq<Sector>, c: nat, b: seq<byte>, secs': seq<Sector>)
    requires IsTable(g, secs) && InTable(g, c) && |b| == EntryWidth(g.kind)
    requires BytesWritten(g, secs, EntryOffset(g.kind, c), b, secs')
    ensures EntryBytes(g, secs', c) == b
  {
    forall i | 0 <= i < |b| ensures EntryBytes(g, secs', c)[i] == b[i] {
      EntryIsInside(g, secs, c, i);
      EntryIsInside(g, secs', c, i);
    }
  }

  /** A FAT12 entry keeps its half of the byte it shares when the entry before it is written. */
  lemma UpperHalfKept(c: nat, e: seq<byte>, b: seq<byte>, code: nat)
    requires |e| == 2 && |b| == 2 && c % 2 == 0 && e[1] == b[0]
    ensures Unpack(FAT12, c + 1, [Pack(FAT12, c, e, code)[1], b[1]]) == Unpack(FAT12, c + 1, b)
  {
    UpperHalf(b[0], code / 0x100 % 16);
  }

  /** The same when the entry behind it is written. */
  lemma LowerHalfKept(c: nat, e: seq<byte>, b: seq<byte>, code: nat)
    requires |e| == 2 && |b| == 2 && c % 2 == 1 && e[0] == b[1]
    ensures Unpack(FAT12, c - 1, [b[0], Pack(FAT12, c, e, code)[0]]) == Unpack(FAT12, c - 1, b)
  {
    LowerHalf(b[1], code % 16);
  }

  lemma UpperHalf(b: byte, x: nat)
    requires x < 16
    ensures (b / 16 * 16 + x) / 16 == b / 16
  {
  }

  lemma LowerHalf(b: byte, x: nat)
    requires x < 16
    ensures (b % 16 + x * 16) % 16 == b % 16
  {
  }

  lemma OtherEntryBytes(g: Geometry, secs: seq<Sector>, c: nat, p: seq<byte>, secs': seq<Sector>, d: nat, i: nat)
    requires IsTable(g, secs) && InTable(g, c) && InTable(g, d) && |p| == EntryWidth(g.kind) && i < |p|
    requires BytesWritten(g, secs, EntryOffset(g.kind, c), p, secs')
    ensures var o, q := EntryOffset(g.kind, d) + i, EntryOffset(g.kind, c);
            EntryBytes(g, secs', d)[i] == if q <= o < q + |p| then p[o - q] else EntryBytes(g, secs, d)[i]
  {
    EntryIsInside(g, secs, d, i);
    EntryIsInside(g, secs', d, i);
  }

  lemma OtherEntryAfterWrite(g: Geometry, secs: seq<Sector>, c: nat, code: nat, secs': seq<Sector>, d: nat)
    requires IsTable(g, secs) && InTable(g, c) && InTable(g, d) && c != d
    requires BytesWritten(g, secs, EntryOffset(g.kind, c), Pack(g.kind, c, EntryBytes(g, secs, c), code), secs')
    ensures Link(g, secs', d) == Link(g, secs, d)
    ensures ReservedClear(g.kind, EntryBytes(g, secs', d)) == ReservedClear(g.kind, EntryBytes(g, secs, d))
  {
    var b, b' := EntryBytes(g, secs, d), EntryBytes(g, secs', d);
    var e := EntryBytes(g, secs, c);
    var p := Pack(g.kind, c, e, code);
    forall i: nat | i < |b|
      ensures var o, q := EntryOffset(g.kind, d) + i, EntryOffset(g.kind, c);
              b'[i] == if q <= o < q + |p| then p[o - q] else b[i]
    {
      OtherEntryBytes(g, secs, c, p, secs', d, i);
    }
    if g.kind == FAT12 && c % 2 == 0 && d == c + 1 {
      assert b' == [p[1], b[1]];
      UpperHalfKept(c, e, b, code);
    } else if g.kind == FAT12 && c % 2 == 1 && d == c - 1 {
      assert b' == [b[0], p[0]];
      LowerHalfKept(c, e, b, code);
    } else {
      assert b' == b;
    }
  }

  /** Writing one entry changes one link and no other, and no reserved bits. */
  lemma LinksAfterWrite(g: Geometry, secs: seq<Sector>, c: nat, code: nat, secs': seq<Sector>)
    requires IsTable(g, secs) && InTable(g, c)
    requires BytesWritten(g, secs, EntryOffset(g.kind, c), Pack(g.kind, c, EntryBytes(g, secs, c), code), secs')
    ensures Links(g, secs') == Links(g, secs)[c := ReadBack(g.kind, c !in Stuck(g, secs), code)]
    ensures Stuck(g, secs') == Stuck(g, secs)
    ensures Links(g, secs)[c] == Link(g, secs, c)
  {
    hide Links, Pack, Unpack;
    var e := EntryBytes(g, secs, c);
    EntryAfterWrite(g, secs, c, Pack(g.kind, c, e, code), secs');
    UnpackPack(g.kind, c, e, code);
    forall d | InTable(g, d) && d != c
      ensures Link(g, secs', d) == Link(g, secs, d)
      ensures ReservedClear(g.kind, EntryBytes(g, secs', d)) == ReservedClear(g.kind, EntryBytes(g, secs, d))
    {
      OtherEntryAfterWrite(g, secs, c, code, secs', d);
    }
    OneLinkChanged(g, secs, c, secs');
  }

  lemma OneLinkChanged(g: Geometry, secs: seq<Sector>, c: nat, secs': seq<Sector>)
    requires IsTable(g, secs) && IsTable(g, secs') && InTable(g, c)
    requires forall d :: InTable(g, d) && d != c ==> Link(g, secs', d) == Link(g, secs, d)
    ensures Links(g, secs') == Links(g, secs)[c := Link(g, secs', c)]
    ensures Links(g, secs)[c] == Link(g, secs, c)
  {
    hide Link;
    var n := g.lastCluster + 1;
    forall d | 0 <= d < n ensures Links(g, secs')[d] == Links(g, secs)[c := Link(g, secs', c)][d] {
      LinkBelow(g, secs, n, d);
      LinkBelow(g, secs', n, d);
    }
    LinkBelow(g, secs, n, c);
  }

}
