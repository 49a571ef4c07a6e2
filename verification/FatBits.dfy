/**
  The table as a run of bits, whatever the FAT type: the entry of cluster c is the c-th
  group of 12, 16 or 32 bits, least significant bit first.
 */
module FatBits {
  import opened Arithmetic
  import opened Bytes
  import opened FatBytes

  /** Bit k of a number, counted from the least significant one. */
  function Bit(v: nat, k: nat): nat {
    Halved(v, k) % 2
  }

  /** v halved k times. */
  function Halved(v: nat, k: nat): nat {
    if k == 0 then v else Halved(v / 2, k - 1)
  }

  /** Bit j of the table: bit j % 8 of byte j / 8. */
  function TableBit(g: Geometry, secs: seq<Sector>, j: nat): nat {
    if HasByte(g, secs, j / 8) then Bit(ByteAt(g, secs, j / 8), j % 8) else 0
  }

  /** Bit k of group c, when the table is cut into groups of w bits. */
  function GroupBit(g: Geometry, secs: seq<Sector>, w: nat, c: nat, k: nat): nat {
    TableBit(g, secs, w * c + k)
  }

  /* ---------- bits of numbers ---------- */

  function Two(n: nat): nat {
    if n == 0 then 1 else 2 * Two(n - 1)
  }

  lemma TwoIs()
    ensures Two(3) == 8 && Two(4) == 0x10 && Two(8) == 0x100 && Two(9) == 0x200 && Two(12) == 0x1000
    ensures Two(13) == 0x2000 && Two(16) == 0x1_0000 && Two(20) == 0x10_0000 && Two(24) == 0x100_0000
    ensures Two(25) == 0x200_0000 && Two(28) == 0x1000_0000
  {
    assert Two(8) == 2 * Two(7) && Two(7) == 2 * Two(6) && Two(6) == 2 * Two(5) && Two(5) == 2 * Two(4);
    assert Two(4) == 2 * Two(3) && Two(3) == 2 * Two(2) && Two(2) == 2 * Two(1);
    assert Two(12) == 2 * Two(11) && Two(11) == 2 * Two(10) && Two(10) == 2 * Two(9) && Two(9) == 2 * Two(8);
    assert Two(16) == 2 * Two(15) && Two(15) == 2 * Two(14) && Two(14) == 2 * Two(13) && Two(13) == 2 * Two(12);
    assert Two(20) == 2 * Two(19) && Two(19) == 2 * Two(18) && Two(18) == 2 * Two(17) && Two(17) == 2 * Two(16);
    assert Two(24) == 2 * Two(23) && Two(23) == 2 * Two(22) && Two(22) == 2 * Two(21) && Two(21) == 2 * Two(20);
    assert Two(28) == 2 * Two(27) && Two(27) == 2 * Two(26) && Two(26) == 2 * Two(25) && Two(25) == 2 * Two(24);
  }

  /** The bits of two numbers one above the other. */
  lemma {:induction false} BitOfSum(a: nat, m: nat, b: nat, k: nat)
    requires a < Two(m)
    ensures Bit(a + Two(m) * b, k) == if k < m then Bit(a, k) else Bit(b, k - m)
  {
    if m > 0 {
      var q := Two(m - 1) * b;
      assert Two(m) * b == 2 * q;
      assert (a + 2 * q) / 2 == a / 2 + q && (a + 2 * q) % 2 == a % 2;
      if k > 0 {
        BitOfSum(a / 2, m - 1, b, k - 1);
      }
    }
  }

  lemma BitNext(v: nat, k: nat)
    ensures Bit(v, 0) == v % 2 && Bit(v, k + 1) == Bit(v / 2, k)
  {
  }

  /** Half a byte is the sum of its bits, each with its weight. */
  lemma BitsMakeNibble(v: nat)
    requires v < 16
    ensures v == Bit(v, 0) + 2 * Bit(v, 1) + 4 * Bit(v, 2) + 8 * Bit(v, 3)
    ensures Bit(v, 0) <= 1 && Bit(v, 1) <= 1 && Bit(v, 2) <= 1 && Bit(v, 3) <= 1
  {
    hide Bit;
    var a := v / 2;
    var b := a / 2;
    var c := b / 2;
    BitNext(v, 0);
    BitNext(v, 1);
    BitNext(v, 2);
    BitNext(a, 0);
    BitNext(a, 1);
    BitNext(b, 0);
    BitNext(c, 0);
  }

  /** So is a byte. */
  lemma BitsMakeByte(v: byte)
    ensures v == Bit(v, 0) + 2 * Bit(v, 1) + 4 * Bit(v, 2) + 8 * Bit(v, 3)
                 + 16 * Bit(v, 4) + 32 * Bit(v, 5) + 64 * Bit(v, 6) + 128 * Bit(v, 7)
    ensures forall k :: 0 <= k < 8 ==> Bit(v, k) <= 1
  {
    hide Bit;
    var lo, hi := v % 16, v / 16;
    BitsMakeNibble(lo);
    BitsMakeNibble(hi);
    TwoIs();
    hide Two;
    forall k | 0 <= k < 8
      ensures Bit(v, k) == if k < 4 then Bit(lo, k) else Bit(hi, k - 4)
    {
      assert v == lo + 16 * hi;
      BitOfSum(lo, 4, hi, k);
    }
    assert Bit(v, 0) == Bit(lo, 0) && Bit(v, 1) == Bit(lo, 1) && Bit(v, 2) == Bit(lo, 2) && Bit(v, 3) == Bit(lo, 3);
    assert Bit(v, 4) == Bit(hi, 0) && Bit(v, 5) == Bit(hi, 1) && Bit(v, 6) == Bit(hi, 2) && Bit(v, 7) == Bit(hi, 3);
  }

  /** The bits of a number cut in two. */
  lemma BitsOfParts(v: nat, low: nat, high: nat, m: nat, k: nat)
    requires low < Two(m) && v == low + Two(m) * high
    ensures k < m ==> Bit(low, k) == Bit(v, k)
    ensures Bit(high, k) == Bit(v, k + m)
  {
    hide Bit, Two;
    BitOfSum(low, m, high, k);
    BitOfSum(low, m, high, k + m);
  }

  /** The lowest n bits of v are all d. */
  predicate AllAre(v: nat, n: nat, d: nat) {
    forall k :: 0 <= k < n ==> Bit(v, k) == d
  }

  lemma AllButFirst(v: nat, n: nat, d: nat)
    requires n > 0
    ensures AllAre(v, n, d) <==> v % 2 == d && AllAre(v / 2, n - 1, d)
  {
    BitNext(v, 0);
    forall k | 0 <= k < n - 1
      ensures Bit(v / 2, k) == Bit(v, k + 1)
    {
      BitNext(v, k);
    }
    hide Bit;
    if AllAre(v / 2, n - 1, d) && v % 2 == d {
      forall k | 0 <= k < n
        ensures Bit(v, k) == d
      {
        assert k > 0 ==> Bit(v / 2, k - 1) == Bit(v, k);
      }
    }
  }

  lemma {:induction false} AllOnes(v: nat, n: nat)
    requires v < Two(n)
    ensures AllAre(v, n, 1) <==> v == Two(n) - 1
  {
    if n > 0 {
      AllButFirst(v, n, 1);
      AllOnes(v / 2, n - 1);
    }
  }

  lemma {:induction false} AllZeros(v: nat, n: nat)
    requires v < Two(n)
    ensures AllAre(v, n, 0) <==> v == 0
  {
    if n > 0 {
      AllButFirst(v, n, 0);
      AllZeros(v / 2, n - 1);
    }
  }

  /* ---------- bits of an entry ---------- */

  /** How many bits of the first byte of its entry belong to the cluster before. */
  function Shared(kind: FatType, c: nat): nat {
    if kind == FAT12 && c % 2 == 1 then 4 else 0
  }

  lemma UnpackBits(kind: FatType, c: nat, b: seq<byte>, k: nat)
    requires |b| == EntryWidth(kind) && k < match kind case FAT12 => 12 case FAT16 => 16 case FAT32 => 32
    ensures var i := Shared(kind, c) + k; Bit(Unpack(kind, c, b), k) == Bit(b[i / 8], i % 8)
  {
    hide Bit;
    TwoIs();
    hide Two;
    match kind {
      case FAT12 =>
        if c % 2 == 0 {
          BitOfSum(b[0], 8, b[1] % 16, k);
          if k >= 8 {
            BitsOfParts(b[1], b[1] % 16, b[1] / 16, 4, k - 8);
          }
        } else {
          BitOfSum(b[0] / 16, 4, b[1], k);
          BitsOfParts(b[0], b[0] % 16, b[0] / 16, 4, k);
        }
      case FAT16 =>
        BitOfSum(b[0], 8, b[1], k);
      case FAT32 =>
        BitOfFour(b, k, Unpack(FAT32, c, b));
    }
  }

  lemma BitOfFour(b: seq<byte>, k: nat, v: nat)
    requires |b| == 4 && k < 32
    requires v == b[0] as int + b[1] as int * 0x100 + b[2] as int * 0x10000 + b[3] as int * 0x1000000
    ensures Bit(v, k) == Bit(b[k / 8], k % 8)
  {
    hide Bit;
    TwoIs();
    hide Two;
    var high: nat := b[2] as int + 0x100 * b[3] as int;
    var upper: nat := b[1] as int + 0x100 * high;
    assert v == b[0] as int + 0x100 * upper;
    BitOfSum(b[0], 8, upper, k);
    if k >= 8 {
      BitOfSum(b[1], 8, high, k - 8);
      if k >= 16 {
        BitOfSum(b[2], 8, b[3], k - 16);
      }
    }
  }

  lemma PackBits(kind: FatType, c: nat, b: seq<byte>, code: nat, i: nat)
    requires |b| == EntryWidth(kind) && i < 8 * |b|
    ensures var s := Shared(kind, c);
            var n := match kind case FAT12 => 12 case FAT16 => 16 case FAT32 => 28;
            Bit(Pack(kind, c, b, code)[i / 8], i % 8) ==
            if s <= i < s + n then Bit(code, i - s) else Bit(b[i / 8], i % 8)
  {
    hide Bit;
    TwoIs();
    hide Two;
    match kind {
      case FAT12 =>
        if c % 2 == 0 {
          if i < 8 {
            BitsOfParts(code, code % 0x100, code / 0x100, 8, i);
          } else {
            UpperKept(b[1], code / 0x100, i - 8);
            BitsOfParts(code, code % 0x100, code / 0x100, 8, i - 8);
          }
        } else if i < 8 {
          LowerKept(b[0], code, i);
        } else {
          BitsOfParts(code / 0x10, code / 0x10 % 0x100, code / 0x10 / 0x100, 8, i - 8);
          BitsOfParts(code, code % 0x10, code / 0x10, 4, i - 8);
        }
      case FAT16 =>
        PackedBits(code, i);
      case FAT32 =>
        if i < 24 {
          PackedBits(code, i);
        } else {
          UpperKept(b[3], code / 0x1000000, i - 24);
          BitsOfParts(code, code % 0x1000000, code / 0x1000000, 24, i - 24);
        }
    }
  }

  /** The bytes of a number, one for eight bits. */
  lemma PackedBits(code: nat, i: nat)
    requires i < 24
    ensures Bit([code % 0x100, code / 0x100 % 0x100, code / 0x10000 % 0x100][i / 8], i % 8) == Bit(code, i)
  {
    hide Bit;
    TwoIs();
    hide Two;
    if i < 8 {
      BitsOfParts(code, code % 0x100, code / 0x100, 8, i);
    } else if i < 16 {
      BitsOfParts(code / 0x100, code / 0x100 % 0x100, code / 0x100 / 0x100, 8, i - 8);
      BitsOfParts(code, code % 0x100, code / 0x100, 8, i - 8);
    } else {
      BitsOfParts(code / 0x10000, code / 0x10000 % 0x100, code / 0x10000 / 0x100, 8, i - 16);
      BitsOfParts(code, code % 0x10000, code / 0x10000, 16, i - 16);
    }
  }

  lemma UpperKept(b: byte, x: nat, i: nat)
    requires i < 8
    ensures Bit(b / 16 * 16 + x % 16, i) == if i < 4 then Bit(x, i) else Bit(b, i)
  {
    hide Bit;
    TwoIs();
    hide Two;
    BitOfSum(x % 16, 4, b / 16, i);
    if i < 4 {
      BitsOfParts(x, x % 16, x / 16, 4, i);
    } else {
      BitsOfParts(b, b % 16, b / 16, 4, i - 4);
    }
  }

  lemma LowerKept(b: byte, x: nat, i: nat)
    requires i < 8
    ensures Bit(b % 16 + x % 16 * 16, i) == if i < 4 then Bit(b, i) else Bit(x, i - 4)
  {
    hide Bit;
    TwoIs();
    hide Two;
    BitOfSum(b % 16, 4, x % 16, i);
    if i < 4 {
      BitsOfParts(b, b % 16, b / 16, 4, i);
    } else {
      BitsOfParts(x, x % 16, x / 16, 4, i - 4);
    }
  }

  /* ---------- bits of the table ---------- */

  /** Bit i of the byte at place p of sector s, when the sectors are laid end to end. */
  lemma BitAtPlace(g: Geometry, secs: seq<Sector>, s: nat, p: nat, i: nat)
    requires AreSectors(g, secs) && s < |secs| && p < g.sectorSize && i < 8
    ensures TableBit(g, secs, 8 * (s * g.sectorSize + p) + i) == Bit(secs[s][p], i)
  {
    hide Bit;
    var o := s * g.sectorSize + p;
    QuotientIs(o, g.sectorSize, s, p);
    RemainderIs(o, g.sectorSize, s, p);
    assert (8 * o + i) / 8 == o && (8 * o + i) % 8 == i;
  }

  lemma EntryBit(g: Geometry, secs: seq<Sector>, c: nat, i: nat)
    requires IsTable(g, secs) && InTable(g, c) && i < 8 * EntryWidth(g.kind)
    ensures TableBit(g, secs, 8 * EntryOffset(g.kind, c) + i) == Bit(EntryBytes(g, secs, c)[i / 8], i % 8)
  {
    hide Bit, Geometry.Valid, EntryOffset;
    var o := EntryOffset(g.kind, c);
    EntryIsInside(g, secs, c, i / 8);
    assert (8 * o + i) / 8 == o + i / 8 && (8 * o + i) % 8 == i % 8;
  }

  lemma PlaceOfEntry(kind: FatType, c: nat)
    ensures 8 * EntryOffset(kind, c) + Shared(kind, c) ==
            match kind case FAT12 => 12 * c case FAT16 => 16 * c case FAT32 => 32 * c
  {
  }

  /** The value an entry stores, bit by bit. */
  lemma StoredBits(g: Geometry, secs: seq<Sector>, c: nat, k: nat)
    requires IsTable(g, secs) && InTable(g, c)
    requires k < match g.kind case FAT12 => 12 case FAT16 => 16 case FAT32 => 32
    ensures var w := match g.kind case FAT12 => 12 case FAT16 => 16 case FAT32 => 32;
            Bit(Unpack(g.kind, c, EntryBytes(g, secs, c)), k) == TableBit(g, secs, w * c + k)
  {
    var b := EntryBytes(g, secs, c);
    UnpackBits(g.kind, c, b, k);
    PlaceOfEntry(g.kind, c);
    EntryBit(g, secs, c, Shared(g.kind, c) + k);
  }

  /** Of the w bits of v, those from 3 up to m are all set, or one from m on is. */
  ghost predicate IsMark(v: nat, m: nat, w: nat) {
    (forall k :: 3 <= k < m ==> Bit(v, k) == 1) || exists k :: m <= k < w && Bit(v, k) != 0
  }

  /** Which stored values are read as the end of a chain. */
  lemma EndMarks(kind: FatType, v: nat)
    requires v < match kind case FAT12 => 0x1000 case FAT16 => 0x1_0000 case FAT32 => 0x1_0000_0000
    ensures LinkOf(kind, v) == 0xFFFFFFF <==>
            var w := match kind case FAT12 => 12 case FAT16 => 16 case FAT32 => 32;
            var m := match kind case FAT12 => 12 case FAT16 => 16 case FAT32 => 28;
            IsMark(v, m, w)
    ensures LinkOf(kind, v) != 0xFFFFFFF ==> LinkOf(kind, v) == v
  {
    hide Bit;
    TwoIs();
    hide Two;
    match kind {
      case FAT12 =>
        OnesAbove(v, 9);
      case FAT16 =>
        OnesAbove(v, 13);
      case FAT32 =>
        var lo, hi := v % 0x1000_0000, v / 0x1000_0000;
        OnesAbove(lo, 25);
        AllZeros(hi, 4);
        forall k | 0 <= k < 28
          ensures Bit(lo, k) == Bit(v, k)
        {
          BitsOfParts(v, v % 0x1000_0000, v / 0x1000_0000, 28, k);
        }
        forall k | 0 <= k < 4
          ensures Bit(hi, k) == Bit(v, k + 28)
        {
          BitsOfParts(v, v % 0x1000_0000, v / 0x1000_0000, 28, k);
        }
        if hi != 0 {
          var k :| 0 <= k < 4 && Bit(hi, k) != 0;
          assert Bit(v, k + 28) != 0;
        } else {
          forall k | 28 <= k < 32
            ensures Bit(v, k) == 0
          {
            BitsOfParts(v, v % 0x1000_0000, v / 0x1000_0000, 28, k - 28);
          }
        }
    }
  }

  lemma OnesAbove(v: nat, n: nat)
    requires v < 8 * Two(n)
    ensures (forall k :: 3 <= k < n + 3 ==> Bit(v, k) == 1) <==> v >= 8 * Two(n) - 8
  {
    TwoIs();
    AllOnes(v / 8, n);
    hide Two, Bit;
    forall k | 0 <= k < n
      ensures Bit(v / 8, k) == Bit(v, k + 3)
    {
      BitsOfParts(v, v % 8, v / 8, 3, k);
    }
    if AllAre(v / 8, n, 1) {
      forall k | 3 <= k < n + 3
        ensures Bit(v, k) == 1
      {
        BitsOfParts(v, v % 8, v / 8, 3, k - 3);
        assert Bit(v / 8, k - 3) == 1;
      }
    } else {
      var k :| 0 <= k < n && Bit(v / 8, k) != 1;
      assert Bit(v, k + 3) != 1;
    }
  }

  /* ---------- the laws of reading and writing ---------- */

  /** The same of the bits of group c of the table. */
  ghost predicate IsMarked(g: Geometry, secs: seq<Sector>, c: nat, m: nat, w: nat) {
    || (forall k :: 3 <= k < m ==> GroupBit(g, secs, w, c, k) == 1)
    || exists k :: m <= k < w && GroupBit(g, secs, w, c, k) != 0
  }

  /** The entry of c reads as link: as the number whose bits are group c of the bits of the
      table, or as the end of a chain, if all bits from 3 on are set, or one of the four
      highest of FAT32 is. */
  ghost predicate ReadsAs(g: Geometry, secs: seq<Sector>, c: nat, link: nat) {
    var w := match g.kind case FAT12 => 12 case FAT16 => 16 case FAT32 => 32;
    var m := match g.kind case FAT12 => 12 case FAT16 => 16 case FAT32 => 28;
    if IsMarked(g, secs, c, m, w) then link == 0xFFFFFFF
    else
      && link < (match g.kind case FAT12 => 0xFF8 case FAT16 => 0xFFF8 case FAT32 => 0xFFFFFF8)
      && forall k :: 0 <= k < w ==> Bit(link, k) == GroupBit(g, secs, w, c, k)
  }

  /** The bits of code have been written to the entry of c, as many as it has, and no other
      bit of the table has changed; the four highest bits of a FAT32 entry are not written. */
  ghost predicate WritesAs(g: Geometry, secs: seq<Sector>, c: nat, code: nat, secs': seq<Sector>) {
    var w := match g.kind case FAT12 => 12 case FAT16 => 16 case FAT32 => 32;
    var n := match g.kind case FAT12 => 12 case FAT16 => 16 case FAT32 => 28;
    forall j: nat :: TableBit(g, secs', j) ==
      if w * c <= j < w * c + n then Bit(code, j - w * c) else TableBit(g, secs, j)
  }

  lemma UnpackBelow(kind: FatType, c: nat, b: seq<byte>)
    requires |b| == EntryWidth(kind)
    ensures Unpack(kind, c, b) < match kind case FAT12 => 0x1000 case FAT16 => 0x1_0000 case FAT32 => 0x1_0000_0000
  {
  }

  lemma SameMarks(g: Geometry, secs: seq<Sector>, c: nat, v: nat, m: nat, w: nat)
    requires forall k :: 0 <= k < w ==> GroupBit(g, secs, w, c, k) == Bit(v, k)
    requires m <= w
    ensures IsMarked(g, secs, c, m, w) <==> IsMark(v, m, w)
  {
    hide GroupBit, Bit;
  }

  lemma AllStoredBits(g: Geometry, secs: seq<Sector>, c: nat)
    requires IsTable(g, secs) && InTable(g, c)
    ensures var w := match g.kind case FAT12 => 12 case FAT16 => 16 case FAT32 => 32;
            forall k :: 0 <= k < w ==>
              GroupBit(g, secs, w, c, k) == Bit(Unpack(g.kind, c, EntryBytes(g, secs, c)), k)
  {
    var w := match g.kind case FAT12 => 12 case FAT16 => 16 case FAT32 => 32;
    forall k | 0 <= k < w
      ensures GroupBit(g, secs, w, c, k) == Bit(Unpack(g.kind, c, EntryBytes(g, secs, c)), k)
    {
      hide Bit, TableBit, Unpack, EntryBytes;
      StoredBits(g, secs, c, k);
    }
  }

  lemma StoredIsRead(g: Geometry, secs: seq<Sector>, c: nat, v: nat, m: nat, w: nat)
    requires w == match g.kind case FAT12 => 12 case FAT16 => 16 case FAT32 => 32
    requires m == match g.kind case FAT12 => 12 case FAT16 => 16 case FAT32 => 28
    requires v < match g.kind case FAT12 => 0x1000 case FAT16 => 0x1_0000 case FAT32 => 0x1_0000_0000
    requires forall k :: 0 <= k < w ==> GroupBit(g, secs, w, c, k) == Bit(v, k)
    ensures ReadsAs(g, secs, c, LinkOf(g.kind, v))
  {
    hide Bit, GroupBit;
    EndMarks(g.kind, v);
    SameMarks(g, secs, c, v, m, w);
    hide IsMarked, IsMark;
  }

  /** The link of every cluster, on the bits of the table. */
  lemma LinkBits(g: Geometry, secs: seq<Sector>, c: nat)
    requires IsTable(g, secs) && InTable(g, c)
    ensures ReadsAs(g, secs, c, Link(g, secs, c))
  {
    hide ReadsAs, GroupBit, Bit, Unpack, EntryBytes;
    UnpackBelow(g.kind, c, EntryBytes(g, secs, c));
    AllStoredBits(g, secs, c);
    StoredIsRead(g, secs, c, Unpack(g.kind, c, EntryBytes(g, secs, c)),
                 match g.kind case FAT12 => 12 case FAT16 => 16 case FAT32 => 28,
                 match g.kind case FAT12 => 12 case FAT16 => 16 case FAT32 => 32);
  }

  /** The clusters whose entries cannot be changed: those of a FAT32 volume with one of the
      four highest bits set. */
  lemma StuckBits(g: Geometry, secs: seq<Sector>, c: nat)
    requires IsTable(g, secs) && InTable(g, c)
    ensures c in Stuck(g, secs) <==>
            g.kind == FAT32 && exists k :: 28 <= k < 32 && GroupBit(g, secs, 32, c, k) != 0
  {
    if g.kind == FAT32 {
      ReservedBits(g, secs, c);
    }
  }

  lemma ReservedBits(g: Geometry, secs: seq<Sector>, c: nat)
    requires IsTable(g, secs) && InTable(g, c) && g.kind == FAT32
    ensures EntryBytes(g, secs, c)[3] >= 16 <==> exists k :: 28 <= k < 32 && GroupBit(g, secs, 32, c, k) != 0
  {
    var b := EntryBytes(g, secs, c);
    var high := b[3] as nat / 16;
    TwoIs();
    AllZeros(high, 4);
    hide Bit, Two, EntryBytes, TableBit;
    forall k | 28 <= k < 32
      ensures GroupBit(g, secs, 32, c, k) == Bit(high, k - 28)
    {
      EntryBit(g, secs, c, k);
      BitsOfParts(b[3], b[3] as nat % 16, high, 4, k - 28);
    }
    hide GroupBit;
    if high != 0 {
      var k :| 0 <= k < 4 && Bit(high, k) != 0;
      assert GroupBit(g, secs, 32, c, k + 28) != 0;
    }
  }

  /** Writing the packed bytes of an entry, on the bits of the table. */
  lemma EntryWritten(g: Geometry, secs: seq<Sector>, c: nat, code: nat, secs': seq<Sector>)
    requires IsTable(g, secs) && InTable(g, c)
    requires BytesWritten(g, secs, EntryOffset(g.kind, c), Pack(g.kind, c, EntryBytes(g, secs, c), code), secs')
    ensures WritesAs(g, secs, c, code, secs')
  {
    var b := EntryBytes(g, secs, c);
    var p := Pack(g.kind, c, b, code);
    var o := EntryOffset(g.kind, c);
    PlaceOfEntry(g.kind, c);
    forall j: nat | true
      ensures var w := match g.kind case FAT12 => 12 case FAT16 => 16 case FAT32 => 32;
              var n := match g.kind case FAT12 => 12 case FAT16 => 16 case FAT32 => 28;
              TableBit(g, secs', j) == if w * c <= j < w * c + n then Bit(code, j - w * c) else TableBit(g, secs, j)
    {
      hide Bit, Pack, EntryBytes, EntryOffset, Geometry.Valid;
      if 8 * o <= j < 8 * (o + |p|) {
        var i := j - 8 * o;
        assert j / 8 == o + i / 8 && j % 8 == i % 8;
        EntryIsInside(g, secs, c, i / 8);
        EntryBit(g, secs, c, i);
        PackBits(g.kind, c, b, code, i);
      } else {
        assert j / 8 < o || j / 8 >= o + |p|;
      }
    }
  }
}
