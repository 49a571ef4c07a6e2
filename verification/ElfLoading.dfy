/**
  The memory image of an ELF file: each segment is laid over a buffer that grows with
  zeros to hold it, and shrinks again by what the file does not back of the segment.
 */
module ElfLoading {
  import opened Bytes

  /** A segment: its address, its size in memory, and its bytes in the file. */
  datatype Segment = Segment(vaddr: nat, memsz: nat, data: seq<byte>)

  /** The byte at offset o, where a buffer goes on with zeros behind its end. */
  function At(b: seq<byte>, o: nat): byte {
    if o < |b| then b[o] else 0
  }

  /** As the ELF specification demands, no segment has more bytes in the file than in memory. */
  predicate IsElf(segments: seq<Segment>) {
    forall i :: 0 <= i < |segments| ==> |segments[i].data| <= segments[i].memsz
  }

  predicate AllFrom(segments: seq<Segment>, lowest: nat) {
    forall i :: 0 <= i < |segments| ==> lowest <= segments[i].vaddr
  }

  /** The lowest address of all segments; zero if there are none. */
  function Lowest(segments: seq<Segment>): (lowest: nat)
    ensures AllFrom(segments, lowest)
    ensures segments != [] ==> exists i :: 0 <= i < |segments| && segments[i].vaddr == lowest
    decreases |segments|
  {
    if segments == [] then 0
    else
      var n := |segments| - 1;
      var before := Lowest(segments[..n]);
      if n > 0 && before <= segments[n].vaddr then before else segments[n].vaddr
  }

  /* ---------- what memory holds once every segment is loaded ---------- */

  /** Where a segment holds its bytes, and zeros behind them. */
  function SegmentByte(s: Segment, position: nat, o: nat): byte
    requires position <= o
  {
    At(s.data, o - position)
  }

  /** The memory at offset o from the lowest address: the segment loaded last there counts. */
  function Loaded(segments: seq<Segment>, lowest: nat, o: nat): byte
    requires AllFrom(segments, lowest)
    decreases |segments|
  {
    if segments == [] then 0
    else
      var n := |segments| - 1;
      var position := segments[n].vaddr - lowest;
      if position <= o < position + segments[n].memsz then SegmentByte(segments[n], position, o)
      else Loaded(segments[..n], lowest, o)
  }

  /** The segment takes up the byte of memory at an address. */
  predicate Reaches(s: Segment, address: nat) {
    s.vaddr <= address < s.vaddr + s.memsz
  }

  /** What a loader leaves at an offset: the byte of the last segment that reaches it, or a zero
      behind the bytes of that segment. */
  lemma {:induction false} LoadedLast(segments: seq<Segment>, lowest: nat, i: nat, o: nat)
    requires AllFrom(segments, lowest) && i < |segments|
    requires Reaches(segments[i], lowest + o) && forall j :: i < j < |segments| ==> !Reaches(segments[j], lowest + o)
    ensures Loaded(segments, lowest, o) ==
            var k := lowest + o - segments[i].vaddr;
            if k < |segments[i].data| then segments[i].data[k] else 0
    decreases |segments|
  {
    var n := |segments| - 1;
    if i < n {
      LoadedLast(segments[..n], lowest, i, o);
    }
  }

  /** A zero if no segment reaches it. */
  lemma {:induction false} LoadedNowhere(segments: seq<Segment>, lowest: nat, o: nat)
    requires AllFrom(segments, lowest)
    requires forall j :: 0 <= j < |segments| ==> !Reaches(segments[j], lowest + o)
    ensures Loaded(segments, lowest, o) == 0
    decreases |segments|
  {
    if segments != [] {
      LoadedNowhere(segments[..|segments| - 1], lowest, o);
    }
  }

  /* ---------- one segment ---------- */

  /** The buffer after one segment was laid over it. */
  function Placed(b: seq<byte>, position: nat, s: Segment): seq<byte> {
    var end := position + s.memsz;
    Spliced(if end > |b| then b + Zeros(end - |b|) else b, position, end, s.data)
  }

  /** Laying the segment over b puts its bytes in their place and moves no others. */
  ghost predicate LoadsInto(b: seq<byte>, position: nat, s: Segment) {
    forall o: nat :: At(Placed(b, position, s), o) ==
      if position <= o < position + s.memsz then SegmentByte(s, position, o) else At(b, o)
  }

  /** A segment that shrinks the buffer has to be the last in it. */
  predicate KeepsShape(length: nat, position: nat, s: Segment) {
    |s.data| == s.memsz || position + s.memsz >= length
  }

  /** What lies behind a segment moves down by what the file does not back of it. */
  lemma RestMoves(b: seq<byte>, position: nat, s: Segment, o: nat)
    requires |s.data| <= s.memsz && o >= position + |s.data|
    ensures At(Placed(b, position, s), o) == At(b, o + s.memsz - |s.data|)
  {
  }

  lemma LoadsByte(b: seq<byte>, position: nat, s: Segment, o: nat)
    requires |s.data| <= s.memsz && KeepsShape(|b|, position, s)
    ensures At(Placed(b, position, s), o) ==
            if position <= o < position + s.memsz then SegmentByte(s, position, o) else At(b, o)
  {
  }

  /** A segment is laid right over every buffer of a given length exactly if the buffer does
      not shrink or ends with the segment. */
  lemma LoadsIntoIff(length: nat, position: nat, s: Segment)
    requires |s.data| <= s.memsz
    ensures KeepsShape(length, position, s) <==> forall b: seq<byte> :: |b| == length ==> LoadsInto(b, position, s)
  {
    if !KeepsShape(length, position, s) {
      var end := position + s.memsz;
      var b := Zeros(length)[end := 1];
      RestMoves(b, position, s, end);
      assert At(Placed(b, position, s), end) == 0 != At(b, end);
      assert !LoadsInto(b, position, s);
    }
  }

  /* ---------- all segments ---------- */

  /** The buffer after every segment was laid over it in turn. */
  function Built(segments: seq<Segment>, lowest: nat): seq<byte>
    requires AllFrom(segments, lowest)
    decreases |segments|
  {
    if segments == [] then []
    else
      var n := |segments| - 1;
      Placed(Built(segments[..n], lowest), segments[n].vaddr - lowest, segments[n])
  }

  lemma NothingBuilt(lowest: nat)
    ensures Built([], lowest) == []
  {
  }

  lemma OneMoreBuilt(segments: seq<Segment>, lowest: nat, n: nat)
    requires AllFrom(segments, lowest) && n < |segments|
    ensures Built(segments[..n + 1], lowest) ==
            Placed(Built(segments[..n], lowest), segments[n].vaddr - lowest, segments[n])
  {
    assert segments[..n + 1][..n] == segments[..n];
  }

  /** The size of that buffer, from addresses and sizes alone. */
  function BuiltSize(segments: seq<Segment>, lowest: nat): (size: nat)
    requires AllFrom(segments, lowest)
    decreases |segments|
  {
    if segments == [] then 0
    else
      var n := |segments| - 1;
      var before, end := BuiltSize(segments[..n], lowest), segments[n].vaddr - lowest + segments[n].memsz;
      (if end > before then end else before) - segments[n].memsz + |segments[n].data|
  }

  lemma {:induction false} BuiltHasSize(segments: seq<Segment>, lowest: nat)
    requires AllFrom(segments, lowest)
    ensures |Built(segments, lowest)| == BuiltSize(segments, lowest)
    decreases |segments|
  {
    if segments != [] {
      BuiltHasSize(segments[..|segments| - 1], lowest);
    }
  }

  /** No segment shrinks the buffer in front of others. */
  ghost predicate AllKeepShape(segments: seq<Segment>, lowest: nat)
    requires AllFrom(segments, lowest)
  {
    forall n :: 0 <= n < |segments| ==>
      KeepsShape(BuiltSize(segments[..n], lowest), segments[n].vaddr - lowest, segments[n])
  }

  /** The last segment, over what was loaded before it. */
  lemma LastLoads(segments: seq<Segment>, lowest: nat, o: nat)
    requires AllFrom(segments, lowest) && AllKeepShape(segments, lowest) && segments != []
    requires |segments[|segments| - 1].data| <= segments[|segments| - 1].memsz
    requires var before := segments[..|segments| - 1];
             At(Built(before, lowest), o) == Loaded(before, lowest, o)
    ensures At(Built(segments, lowest), o) == Loaded(segments, lowest, o)
  {
    hide Placed, At, SegmentByte, KeepsShape;
    var n := |segments| - 1;
    BuiltHasSize(segments[..n], lowest);
    LoadsByte(Built(segments[..n], lowest), segments[n].vaddr - lowest, segments[n], o);
  }

  lemma FirstKeepShape(segments: seq<Segment>, lowest: nat, n: nat)
    requires AllFrom(segments, lowest) && AllKeepShape(segments, lowest) && n <= |segments|
    ensures AllKeepShape(segments[..n], lowest)
  {
    hide BuiltSize, KeepsShape;
    forall k | 0 <= k < n
      ensures KeepsShape(BuiltSize(segments[..n][..k], lowest), segments[k].vaddr - lowest, segments[k])
    {
      assert segments[..n][..k] == segments[..k];
    }
  }

  /** Segments in any order, overlapping or not, are loaded right if none moves others. */
  lemma {:induction false} BuiltIsLoaded(segments: seq<Segment>, lowest: nat, o: nat)
    requires IsElf(segments) && AllFrom(segments, lowest) && AllKeepShape(segments, lowest)
    ensures At(Built(segments, lowest), o) == Loaded(segments, lowest, o)
    decreases |segments|
  {
    hide Placed, SegmentByte, KeepsShape;
    if segments == [] {
      assert Built(segments, lowest) == [];
    } else {
      hide Built, Loaded, AllKeepShape;
      FirstKeepShape(segments, lowest, |segments| - 1);
      BuiltIsLoaded(segments[..|segments| - 1], lowest, o);
      LastLoads(segments, lowest, o);
    }
  }

  /** Ascending in memory, and no two overlapping. */
  predicate InOrder(segments: seq<Segment>) {
    forall i, j :: 0 <= i < j < |segments| ==> segments[i].vaddr + segments[i].memsz <= segments[j].vaddr
  }

  /** How far the buffer reaches: to the end of the bytes of the last segment. */
  lemma {:induction false} BuiltLength(segments: seq<Segment>, lowest: nat)
    requires IsElf(segments) && AllFrom(segments, lowest) && InOrder(segments) && segments != []
    ensures var last := segments[|segments| - 1];
            |Built(segments, lowest)| == last.vaddr - lowest + |last.data|
    decreases |segments|
  {
    var n := |segments| - 1;
    if n > 0 {
      BuiltLength(segments[..n], lowest);
      assert segments[..n][n - 1] == segments[n - 1];
    }
  }

  lemma InOrderKeepsShape(segments: seq<Segment>, lowest: nat)
    requires IsElf(segments) && AllFrom(segments, lowest) && InOrder(segments)
    ensures AllKeepShape(segments, lowest)
  {
    forall n | 0 <= n < |segments|
      ensures KeepsShape(BuiltSize(segments[..n], lowest), segments[n].vaddr - lowest, segments[n])
    {
      if n > 0 {
        BuiltLength(segments[..n], lowest);
        BuiltHasSize(segments[..n], lowest);
        assert segments[..n][n - 1] == segments[n - 1];
      }
    }
  }

  /** In any order, and no two overlapping. */
  predicate Apart(segments: seq<Segment>) {
    forall i, j :: 0 <= i < j < |segments| ==> AreApart(segments[i], segments[j])
  }

  predicate AreApart(s: Segment, t: Segment) {
    s.memsz == 0 || t.memsz == 0 || s.vaddr + s.memsz <= t.vaddr || t.vaddr + t.memsz <= s.vaddr
  }

  /** Memory loaded from segments that do not overlap holds the bytes of each in its place. */
  lemma {:induction false} LoadedByte(segments: seq<Segment>, lowest: nat, i: nat, o: nat)
    requires IsElf(segments) && AllFrom(segments, lowest) && Apart(segments)
    requires i < |segments| && segments[i].vaddr - lowest <= o < segments[i].vaddr - lowest + segments[i].memsz
    ensures Loaded(segments, lowest, o) == SegmentByte(segments[i], segments[i].vaddr - lowest, o)
    decreases |segments|
  {
    var n := |segments| - 1;
    if i < n {
      assert AreApart(segments[i], segments[n]);
      LoadedByte(segments[..n], lowest, i, o);
    }
  }

  predicate InNoSegment(segments: seq<Segment>, lowest: nat, o: nat)
    requires AllFrom(segments, lowest)
  {
    forall i :: 0 <= i < |segments| ==>
      !(segments[i].vaddr - lowest <= o < segments[i].vaddr - lowest + |segments[i].data|)
  }

  /** And zeros where no segment has a byte. */
  lemma {:induction false} LoadedGap(segments: seq<Segment>, lowest: nat, o: nat)
    requires AllFrom(segments, lowest)
    requires InNoSegment(segments, lowest, o)
    ensures Loaded(segments, lowest, o) == 0
    decreases |segments|
  {
    if segments != [] {
      LoadedGap(segments[..|segments| - 1], lowest, o);
    }
  }

  predicate HoldsSegment(b: seq<byte>, s: Segment, lowest: nat)
    requires lowest <= s.vaddr
  {
    var p := s.vaddr - lowest;
    p + |s.data| <= |b| && b[p..p + |s.data|] == s.data
  }

  lemma InOrderHolds(segments: seq<Segment>, lowest: nat, i: nat)
    requires IsElf(segments) && AllFrom(segments, lowest) && InOrder(segments) && i < |segments|
    ensures HoldsSegment(Built(segments, lowest), segments[i], lowest)
  {
    hide Loaded, Built;
    InOrderKeepsShape(segments, lowest);
    BuiltLength(segments, lowest);
    var b, s := Built(segments, lowest), segments[i];
    var p := s.vaddr - lowest;
    forall k | 0 <= k < |s.data|
      ensures p + k < |b| && b[p + k] == s.data[k]
    {
      BuiltIsLoaded(segments, lowest, p + k);
      LoadedByte(segments, lowest, i, p + k);
    }
  }

  /** From segments in order the buffer holds the bytes of every segment at its address
      less the lowest, and zeros in between, although every segment may have shrunk it. */
  lemma InOrderIsLoaded(segments: seq<Segment>, lowest: nat)
    requires IsElf(segments) && AllFrom(segments, lowest) && InOrder(segments) && segments != []
    ensures var b, last := Built(segments, lowest), segments[|segments| - 1];
            && |b| == last.vaddr - lowest + |last.data|
            && (forall i :: 0 <= i < |segments| ==> HoldsSegment(b, segments[i], lowest))
            && (forall o: nat | o < |b| && InNoSegment(segments, lowest, o) :: b[o] == 0)
  {
    hide Loaded, Built, HoldsSegment;
    InOrderKeepsShape(segments, lowest);
    BuiltLength(segments, lowest);
    var b := Built(segments, lowest);
    forall i | 0 <= i < |segments|
      ensures HoldsSegment(b, segments[i], lowest)
    {
      InOrderHolds(segments, lowest, i);
    }
    forall o: nat | o < |b| && InNoSegment(segments, lowest, o)
      ensures b[o] == 0
    {
      BuiltIsLoaded(segments, lowest, o);
      LoadedGap(segments, lowest, o);
    }
  }

  /** Out of order, a segment the file does not back pulls down what was laid behind it. */
  lemma OutOfOrderMoves()
    ensures var segments := [Segment(1, 1, [7]), Segment(0, 1, [])];
            && IsElf(segments) && Lowest(segments) == 0
            && At(Built(segments, 0), 0) == 7 && Loaded(segments, 0, 0) == 0
            && At(Built(segments, 0), 1) == 0 && Loaded(segments, 0, 1) == 7
  {
    var segments := [Segment(1, 1, [7]), Segment(0, 1, [])];
    assert segments[..1] == [segments[0]] && segments[..1][..0] == [];
    assert Built(segments[..1], 0) == [0, 7];
    assert Built(segments, 0) == [7];
    assert segments[1].vaddr == 0;
  }

  /* ---------- exactly when segments that do not overlap are loaded right ---------- */

  /** The buffer is memory as a loader leaves it. */
  ghost predicate BuiltRight(segments: seq<Segment>, lowest: nat) {
    AllFrom(segments, lowest) && forall o: nat :: At(Built(segments, lowest), o) == Loaded(segments, lowest, o)
  }

  /** A file with the same addresses and sizes. */
  predicate SameShape(file: seq<Segment>, segments: seq<Segment>) {
    && |file| == |segments|
    && forall i :: 0 <= i < |file| ==>
      && file[i].vaddr == segments[i].vaddr && file[i].memsz == segments[i].memsz
      && |file[i].data| == |segments[i].data|
  }

  /** Only a segment the file backs fully comes after one that has bytes above it. */
  predicate Harmless(segments: seq<Segment>) {
    forall m, n :: 0 <= m < n < |segments| ==> !Pulls(segments[m], segments[n])
  }

  /** Laid later, t moves the bytes of s. */
  predicate Pulls(s: Segment, t: Segment) {
    s.data != [] && t.vaddr < s.vaddr && |t.data| != t.memsz
  }

  lemma FirstHarmless(segments: seq<Segment>, n: nat)
    requires n <= |segments| && IsElf(segments) && Apart(segments) && Harmless(segments)
    ensures IsElf(segments[..n]) && Apart(segments[..n]) && Harmless(segments[..n])
  {
    hide AreApart, Pulls;
    var before := segments[..n];
    assert forall i :: 0 <= i < n ==> before[i] == segments[i];
  }

  /** Where a segment is not fully backed, everything with bytes lies below it. */
  lemma NothingAbove(segments: seq<Segment>, lowest: nat, o: nat)
    requires segments != [] && IsElf(segments) && AllFrom(segments, lowest) && Apart(segments) && Harmless(segments)
    requires var last := segments[|segments| - 1];
             |last.data| != last.memsz && o >= last.vaddr - lowest
    ensures InNoSegment(segments[..|segments| - 1], lowest, o)
  {
    var n := |segments| - 1;
    forall i | 0 <= i < n
      ensures !(segments[i].vaddr - lowest <= o < segments[i].vaddr - lowest + |segments[i].data|)
    {
      assert !Pulls(segments[i], segments[n]) && AreApart(segments[i], segments[n]);
    }
  }

  lemma {:induction false} HarmlessIsLoaded(segments: seq<Segment>, lowest: nat, o: nat)
    requires IsElf(segments) && AllFrom(segments, lowest) && Apart(segments) && Harmless(segments)
    ensures At(Built(segments, lowest), o) == Loaded(segments, lowest, o)
    decreases |segments|
  {
    hide Placed, At, SegmentByte;
    if segments == [] {
      NothingBuilt(lowest);
      NothingAt(o);
    } else {
      hide Built, Loaded, IsElf, Apart, Harmless, InNoSegment;
      var n := |segments| - 1;
      var before, s := segments[..n], segments[n];
      assert |s.data| <= s.memsz by {
        FirstHarmless(segments, n);
      }
      var moved := o + s.memsz - |s.data|;
      FirstHarmless(segments, n);
      HarmlessIsLoaded(before, lowest, o);
      HarmlessIsLoaded(before, lowest, moved);
      if |s.data| != s.memsz && o >= s.vaddr - lowest {
        NothingAbove(segments, lowest, o);
        NothingAbove(segments, lowest, moved);
        LoadedGap(before, lowest, o);
        LoadedGap(before, lowest, moved);
      }
      LastIsLoaded(segments, lowest, o);
    }
  }

  lemma NothingAt(o: nat)
    ensures At([], o) == 0
  {
  }

  /** One step of that: what lies above a segment that shrinks the buffer is zero anyway. */
  lemma LastIsLoaded(segments: seq<Segment>, lowest: nat, o: nat)
    requires segments != [] && AllFrom(segments, lowest)
    requires var s := segments[|segments| - 1];
             var before := segments[..|segments| - 1];
             && |s.data| <= s.memsz
             && At(Built(before, lowest), o) == Loaded(before, lowest, o)
             && (|s.data| != s.memsz && o >= s.vaddr - lowest ==>
                   At(Built(before, lowest), o) == At(Built(before, lowest), o + s.memsz - |s.data|) == 0)
    ensures At(Built(segments, lowest), o) == Loaded(segments, lowest, o)
  {
    var n := |segments| - 1;
    var s, b := segments[n], Built(segments[..n], lowest);
    var p := s.vaddr - lowest;
    assert Built(segments, lowest) == Placed(b, p, s);
    hide Built;
    if |s.data| == s.memsz {
      LoadsByte(b, p, s, o);
    } else if o >= p + |s.data| {
      RestMoves(b, p, s, o);
    }
  }

  /* The other way: a file that shows the damage. */

  /** The file of that shape in which the first byte of segment m is one, and all others zero. */
  function Marked(segments: seq<Segment>, m: nat): (file: seq<Segment>)
    requires m < |segments| && segments[m].data != []
    ensures SameShape(file, segments)
  {
    seq(|segments|, i requires 0 <= i < |segments| =>
      var zeros := Zeros(|segments[i].data|);
      Segment(segments[i].vaddr, segments[i].memsz, if i == m then zeros[0 := 1] else zeros))
  }

  lemma SameShapeKeeps(file: seq<Segment>, segments: seq<Segment>, lowest: nat)
    requires SameShape(file, segments) && IsElf(segments) && AllFrom(segments, lowest) && Apart(segments)
    ensures IsElf(file) && AllFrom(file, lowest) && Apart(file)
    ensures Harmless(segments) ==> Harmless(file)
  {
    forall i, j | 0 <= i < j < |file|
      ensures AreApart(file[i], file[j]) && (Pulls(file[i], file[j]) ==> Pulls(segments[i], segments[j]))
    {
      assert AreApart(segments[i], segments[j]);
    }
  }

  /** From offset o on there are only zeros. */
  ghost predicate ZeroFrom(b: seq<byte>, o: nat) {
    forall q: nat :: q >= o ==> At(b, q) == 0
  }

  /** Laying a segment whose bytes are zero from offset o on over a buffer that is zero from
      there on leaves it so. */
  lemma ZerosStay(b: seq<byte>, position: nat, s: Segment, o: nat)
    requires |s.data| <= s.memsz && ZeroFrom(b, o)
    requires forall k :: 0 <= k < |s.data| && position + k >= o ==> s.data[k] == 0
    ensures ZeroFrom(Placed(b, position, s), o)
  {
    forall q: nat | q >= o
      ensures At(Placed(b, position, s), q) == 0
    {
      if q >= position + |s.data| {
        RestMoves(b, position, s, q);
        var moved: nat := q + s.memsz - |s.data|;
        assert At(b, moved) == 0;
      } else if q >= position {
        assert At(Placed(b, position, s), q) == s.data[q - position];
      } else {
        assert At(Placed(b, position, s), q) == At(b, q);
      }
    }
  }

  /** A segment below o that is not fully backed pulls the last byte there down. */
  lemma ZerosPulled(b: seq<byte>, position: nat, s: Segment, o: nat)
    requires |s.data| < s.memsz && position + s.memsz <= o && ZeroFrom(b, o + 1)
    ensures ZeroFrom(Placed(b, position, s), o)
  {
    forall q: nat | q >= o
      ensures At(Placed(b, position, s), q) == 0
    {
      RestMoves(b, position, s, q);
      var moved: nat := q + s.memsz - |s.data|;
      assert At(b, moved) == 0;
    }
  }

  /** The offset from which on there are only zeros when k segments of that file are laid: the
      marked byte is never above its place, and not at it either once n is laid. */
  function MarkBound(segments: seq<Segment>, lowest: nat, m: nat, n: nat, k: nat): nat
    requires m < |segments| && lowest <= segments[m].vaddr
  {
    segments[m].vaddr - lowest + if k <= n then 1 else 0
  }

  lemma MarkStep(segments: seq<Segment>, lowest: nat, m: nat, n: nat, k: nat, b: seq<byte>)
    requires IsElf(segments) && AllFrom(segments, lowest) && Apart(segments)
    requires m < n < |segments| && k < |segments| && Pulls(segments[m], segments[n])
    requires ZeroFrom(b, MarkBound(segments, lowest, m, n, k))
    ensures ZeroFrom(Placed(b, segments[k].vaddr - lowest, Marked(segments, m)[k]),
                     MarkBound(segments, lowest, m, n, k + 1))
  {
    hide Placed, ZeroFrom;
    var s := Marked(segments, m)[k];
    var place: nat := segments[m].vaddr - lowest;
    if k == n {
      assert AreApart(segments[m], segments[n]);
      ZerosPulled(b, s.vaddr - lowest, s, place);
    } else {
      ZerosStay(b, s.vaddr - lowest, s, MarkBound(segments, lowest, m, n, k));
    }
  }

  lemma {:induction false} MarkIsPulled(segments: seq<Segment>, lowest: nat, m: nat, n: nat, k: nat)
    requires IsElf(segments) && AllFrom(segments, lowest) && Apart(segments)
    requires m < n < |segments| && k <= |segments| && Pulls(segments[m], segments[n])
    ensures AllFrom(Marked(segments, m), lowest)
    ensures ZeroFrom(Built(Marked(segments, m)[..k], lowest), MarkBound(segments, lowest, m, n, k))
    decreases k
  {
    hide Placed, MarkBound, Apart;
    var file := Marked(segments, m);
    if k == 0 {
      assert file[..0] == [];
      NothingBuilt(lowest);
    } else {
      hide ZeroFrom, Built;
      MarkIsPulled(segments, lowest, m, n, k - 1);
      OneMoreBuilt(file, lowest, k - 1);
      MarkStep(segments, lowest, m, n, k - 1, Built(file[..k - 1], lowest));
    }
  }

  lemma MarkIsLost(segments: seq<Segment>, lowest: nat, m: nat, n: nat)
    requires IsElf(segments) && AllFrom(segments, lowest) && Apart(segments)
    requires m < n < |segments| && Pulls(segments[m], segments[n])
    ensures var file, place := Marked(segments, m), segments[m].vaddr - lowest;
            && AllFrom(file, lowest) && place >= 0
            && At(Built(file, lowest), place) == 0 && Loaded(file, lowest, place) == 1
  {
    hide Built, Loaded;
    var file, place := Marked(segments, m), segments[m].vaddr - lowest;
    SameShapeKeeps(file, segments, lowest);
    MarkIsPulled(segments, lowest, m, n, |segments|);
    assert file[..|segments|] == file;
    LoadedByte(file, lowest, m, place);
  }

  /** Whether a file whose segments do not overlap is built right, whatever its bytes, can be
      told from its addresses and sizes: exactly if no segment that the file does not back
      fully is laid below one that has been laid before. */
  lemma LoadedIff(segments: seq<Segment>, lowest: nat)
    requires IsElf(segments) && AllFrom(segments, lowest) && Apart(segments)
    ensures Harmless(segments) <==>
            forall file: seq<Segment> :: SameShape(file, segments) ==> BuiltRight(file, lowest)
  {
    hide Built, Loaded, At;
    if Harmless(segments) {
      forall file: seq<Segment> | SameShape(file, segments)
        ensures BuiltRight(file, lowest)
      {
        SameShapeKeeps(file, segments, lowest);
        forall o: nat | true
          ensures At(Built(file, lowest), o) == Loaded(file, lowest, o)
        {
          HarmlessIsLoaded(file, lowest, o);
        }
      }
    } else {
      var m, n :| 0 <= m < n < |segments| && Pulls(segments[m], segments[n]);
      var file := Marked(segments, m);
      MarkIsLost(segments, lowest, m, n);
      assert !BuiltRight(file, lowest);
    }
  }

  /* ---------- the same for segments that may overlap ---------- */

  /** The segment a byte comes from, and its place in it. */
  datatype Origin = Nowhere | From(segment: nat, index: nat)

  /** The byte with that origin in a file. */
  function ByteFrom(file: seq<Segment>, origin: Origin): byte {
    match origin
    case Nowhere => 0
    case From(m, k) => if m < |file| && k < |file[m].data| then file[m].data[k] else 0
  }

  /** Where the byte at offset o of the buffer comes from. A segment that was not backed fully
      has made up for it with what lay behind it. */
  function BuiltFrom(segments: seq<Segment>, lowest: nat, o: nat): Origin
    requires IsElf(segments) && AllFrom(segments, lowest)
    decreases |segments|
  {
    if segments == [] then Nowhere
    else
      var n := |segments| - 1;
      var position, s := segments[n].vaddr - lowest, segments[n];
      if o < position then BuiltFrom(segments[..n], lowest, o)
      else if o < position + |s.data| then From(n, o - position)
      else BuiltFrom(segments[..n], lowest, o + s.memsz - |s.data|)
  }

  /** Where the byte at offset o of memory comes from. */
  function LoadedFrom(segments: seq<Segment>, lowest: nat, o: nat): Origin
    requires AllFrom(segments, lowest)
    decreases |segments|
  {
    if segments == [] then Nowhere
    else
      var n := |segments| - 1;
      var position, s := segments[n].vaddr - lowest, segments[n];
      if !(position <= o < position + s.memsz) then LoadedFrom(segments[..n], lowest, o)
      else if o < position + |s.data| then From(n, o - position)
      else Nowhere
  }

  /** An origin among the first n segments. */
  predicate IsWithin(origin: Origin, segments: seq<Segment>, n: nat)
    requires n <= |segments|
  {
    origin.From? ==> origin.segment < n && origin.index < |segments[origin.segment].data|
  }

  lemma {:induction false} BuiltFromWithin(segments: seq<Segment>, lowest: nat, o: nat)
    requires IsElf(segments) && AllFrom(segments, lowest)
    ensures IsWithin(BuiltFrom(segments, lowest, o), segments, |segments|)
    decreases |segments|
  {
    if segments != [] {
      var n := |segments| - 1;
      BuiltFromWithin(segments[..n], lowest, o);
      BuiltFromWithin(segments[..n], lowest, o + segments[n].memsz - |segments[n].data|);
    }
  }

  lemma {:induction false} LoadedFromWithin(segments: seq<Segment>, lowest: nat, o: nat)
    requires AllFrom(segments, lowest)
    ensures IsWithin(LoadedFrom(segments, lowest, o), segments, |segments|)
    decreases |segments|
  {
    if segments != [] {
      LoadedFromWithin(segments[..|segments| - 1], lowest, o);
    }
  }

  lemma SameByteFrom(file: seq<Segment>, n: nat, origin: Origin)
    requires n <= |file| && IsWithin(origin, file[..n], n)
    ensures ByteFrom(file[..n], origin) == ByteFrom(file, origin)
  {
  }

  /** The bytes built are those of their origins. */
  lemma {:induction false} BuiltByteFrom(file: seq<Segment>, lowest: nat, o: nat)
    requires IsElf(file) && AllFrom(file, lowest)
    ensures At(Built(file, lowest), o) == ByteFrom(file, BuiltFrom(file, lowest, o))
    decreases |file|
  {
    hide Placed;
    if file == [] {
      NothingBuilt(lowest);
    } else {
      var n := |file| - 1;
      var before, s := file[..n], file[n];
      var p, moved := s.vaddr - lowest, o + s.memsz - |s.data|;
      BuiltByteFrom(before, lowest, o);
      BuiltByteFrom(before, lowest, moved);
      BuiltFromWithin(before, lowest, o);
      BuiltFromWithin(before, lowest, moved);
      SameByteFrom(file, n, BuiltFrom(before, lowest, o));
      SameByteFrom(file, n, BuiltFrom(before, lowest, moved));
      hide At, ByteFrom;
      if o >= p + |s.data| {
        RestMoves(Built(before, lowest), p, s, o);
      } else {
        FrontStays(Built(before, lowest), p, s, o);
        BytesOfLast(file, o - p);
      }
    }
  }

  lemma FrontStays(b: seq<byte>, position: nat, s: Segment, o: nat)
    requires |s.data| <= s.memsz && o < position + |s.data|
    ensures At(Placed(b, position, s), o) == if o < position then At(b, o) else s.data[o - position]
  {
  }

  lemma BytesOfLast(file: seq<Segment>, k: int)
    requires file != []
    ensures 0 <= k < |file[|file| - 1].data| ==> ByteFrom(file, From(|file| - 1, k)) == file[|file| - 1].data[k]
  {
  }

  /** And so are the bytes loaded. */
  lemma {:induction false} LoadedByteFrom(file: seq<Segment>, lowest: nat, o: nat)
    requires IsElf(file) && AllFrom(file, lowest)
    ensures Loaded(file, lowest, o) == ByteFrom(file, LoadedFrom(file, lowest, o))
    decreases |file|
  {
    if file != [] {
      var n := |file| - 1;
      LoadedByteFrom(file[..n], lowest, o);
      LoadedFromWithin(file[..n], lowest, o);
      SameByteFrom(file, n, LoadedFrom(file[..n], lowest, o));
    }
  }

  lemma {:induction false} SameOrigins(file: seq<Segment>, segments: seq<Segment>, lowest: nat, o: nat)
    requires SameShape(file, segments) && IsElf(segments) && AllFrom(segments, lowest)
    ensures IsElf(file) && AllFrom(file, lowest)
    ensures BuiltFrom(file, lowest, o) == BuiltFrom(segments, lowest, o)
    ensures LoadedFrom(file, lowest, o) == LoadedFrom(segments, lowest, o)
    decreases |segments|
  {
    if segments != [] {
      var n := |segments| - 1;
      assert SameShape(file[..n], segments[..n]);
      SameOrigins(file[..n], segments[..n], lowest, o);
      SameOrigins(file[..n], segments[..n], lowest, o + segments[n].memsz - |segments[n].data|);
    }
  }

  /** The file of that shape in which byte k of segment m is one, and all others zero. */
  function MarkedAt(segments: seq<Segment>, m: nat, k: nat): (file: seq<Segment>)
    requires m < |segments| && k < |segments[m].data|
    ensures SameShape(file, segments)
    ensures forall origin :: IsWithin(origin, segments, |segments|) ==>
              ByteFrom(file, origin) == if origin == From(m, k) then 1 else 0
  {
    seq(|segments|, i requires 0 <= i < |segments| =>
      var zeros := Zeros(|segments[i].data|);
      Segment(segments[i].vaddr, segments[i].memsz, if i == m then zeros[k := 1] else zeros))
  }

  /** The offset at which the memory of all segments has ended. */
  function End(segments: seq<Segment>, lowest: nat): nat
    requires AllFrom(segments, lowest)
    decreases |segments|
  {
    if segments == [] then 0
    else
      var n := |segments| - 1;
      var before, end := End(segments[..n], lowest), segments[n].vaddr - lowest + segments[n].memsz;
      if end > before then end else before
  }

  lemma {:induction false} NothingBeyond(segments: seq<Segment>, lowest: nat, o: nat)
    requires IsElf(segments) && AllFrom(segments, lowest) && o >= End(segments, lowest)
    ensures BuiltFrom(segments, lowest, o) == LoadedFrom(segments, lowest, o) == Nowhere
    decreases |segments|
  {
    if segments != [] {
      var n := |segments| - 1;
      NothingBeyond(segments[..n], lowest, o);
      NothingBeyond(segments[..n], lowest, o + segments[n].memsz - |segments[n].data|);
    }
  }

  /** Every byte comes from where it should. */
  predicate OriginsAgree(segments: seq<Segment>, lowest: nat)
    requires IsElf(segments) && AllFrom(segments, lowest)
  {
    forall o :: 0 <= o < End(segments, lowest) ==> BuiltFrom(segments, lowest, o) == LoadedFrom(segments, lowest, o)
  }

  lemma OriginsAgreeIsLoaded(file: seq<Segment>, segments: seq<Segment>, lowest: nat)
    requires SameShape(file, segments) && IsElf(segments) && AllFrom(segments, lowest) && OriginsAgree(segments, lowest)
    ensures BuiltRight(file, lowest)
  {
    hide Built, Loaded, BuiltFrom, LoadedFrom, At, ByteFrom, End;
    SameOrigins(file, segments, lowest, 0);
    forall o: nat | true
      ensures At(Built(file, lowest), o) == Loaded(file, lowest, o)
    {
      SameOrigins(file, segments, lowest, o);
      BuiltByteFrom(file, lowest, o);
      LoadedByteFrom(file, lowest, o);
      if o >= End(segments, lowest) {
        NothingBeyond(segments, lowest, o);
      }
    }
  }

  /** For segments of every kind, overlapping or not: which bytes come from where can be told
      from addresses and sizes, and every file that has these is built right exactly if each
      byte comes from where it should. */
  lemma LoadedIffOriginsAgree(segments: seq<Segment>, lowest: nat)
    requires IsElf(segments) && AllFrom(segments, lowest)
    ensures OriginsAgree(segments, lowest) <==>
            forall file: seq<Segment> :: SameShape(file, segments) ==> BuiltRight(file, lowest)
  {
    hide Built, Loaded, BuiltFrom, LoadedFrom, At, ByteFrom, End;
    if OriginsAgree(segments, lowest) {
      forall file: seq<Segment> | SameShape(file, segments)
        ensures BuiltRight(file, lowest)
      {
        OriginsAgreeIsLoaded(file, segments, lowest);
      }
    } else {
      var o: nat :|
        o < End(segments, lowest) && BuiltFrom(segments, lowest, o) != LoadedFrom(segments, lowest, o);
      BuiltFromWithin(segments, lowest, o);
      LoadedFromWithin(segments, lowest, o);
      var b, l := BuiltFrom(segments, lowest, o), LoadedFrom(segments, lowest, o);
      var marked := if b.From? then b else l;
      var file := MarkedAt(segments, marked.segment, marked.index);
      SameOrigins(file, segments, lowest, o);
      BuiltByteFrom(file, lowest, o);
      LoadedByteFrom(file, lowest, o);
      assert At(Built(file, lowest), o) != Loaded(file, lowest, o);
    }
  }

  /* ---------- the program ---------- */

  method LowestAddress(segments: seq<Segment>) returns (lowest: nat)
    ensures lowest == Lowest(segments)
  {
    lowest := 0;
    for n := 0 to |segments|
      invariant lowest == Lowest(segments[..n])
    {
      var s := segments[n];
      assert segments[..n + 1][..n] == segments[..n];
      if n == 0 {
        lowest := s.vaddr;
      }
      if lowest > s.vaddr {
        lowest := s.vaddr;
      }
    }
    assert segments[..|segments|] == segments;
  }

  /** Builds the buffer, which starts empty. */
  method Build(segments: seq<Segment>) returns (data: seq<byte>)
    ensures data == Built(segments, Lowest(segments))
  {
    hide Lowest, Built, Spliced;
    var lowest := LowestAddress(segments);
    data := [];
    NothingBuilt(lowest);
    for n := 0 to |segments|
      invariant data == Built(segments[..n], lowest)
    {
      var segment := segments[n];
      var position := segment.vaddr - lowest;
      var size := segment.memsz;
      var resize := position + size - |data|;
      if resize > 0 {
        data := data + Zeros(resize);
      }
      OneMoreBuilt(segments, lowest, n);
      data := Spliced(data, position, position + size, segment.data);
    }
    assert segments[..|segments|] == segments;
  }
}
