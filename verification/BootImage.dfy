/**
  The image a boot ROM loads: a vector table, boot data and device configuration in front
  of an application, laid out once, given their addresses, and then written again in place.
 */
module BootImage {
  import opened Bytes
  import opened ElfLoading

  const SECTOR_SIZE: int := 0x200
  const VECTOR_SIZE: nat := 32
  const BOOT_SIZE: nat := 12
  const DCD_SIZE: nat := 8
  const HEADERS_SIZE: nat := 52

  datatype Field = MemoryAddress | BaseAddress | HeaderAddress | EntryAddress
  datatype Error = OutOfRange(field: Field) | OutOfOrder | NegativeGap | NotPackable
  datatype Result<+T> = Ok(value: T) | Err(error: Error)

  /* ---------- the application ---------- */

  datatype Application = Application(memory: int, header: int, base: int, entry: int, data: seq<byte>)
  {
    predicate InRange() {
      Fits(memory) && Fits(header) && Fits(base) && Fits(entry)
    }

    predicate InOrder() {
      memory < header < base <= entry
    }
  }

  /** At most 32 bits without the sign. */
  predicate Fits(v: int) {
    -TWO_TO_THE_32 < v < TWO_TO_THE_32
  }

  /** The application of an ELF file, whose header gives the entry address. */
  method FromElf(memory: int, header: int, base: int, entry: nat, segments: seq<Segment>)
    returns (r: Result<Application>)
    ensures r.Ok? <==>
      && -0x1_0000_0000 < memory < 0x1_0000_0000 && -0x1_0000_0000 < base < 0x1_0000_0000
      && -0x1_0000_0000 < header < 0x1_0000_0000 && entry < 0x1_0000_0000
    ensures r.Ok? ==> r.value == Application(memory, header, base, entry, Built(segments, Lowest(segments)))
    ensures r.Err? ==>
      r.error == OutOfRange(if !(-0x1_0000_0000 < memory < 0x1_0000_0000) then MemoryAddress
                            else if !(-0x1_0000_0000 < base < 0x1_0000_0000) then BaseAddress
                            else if !(-0x1_0000_0000 < header < 0x1_0000_0000) then HeaderAddress
                            else EntryAddress)
  {
    if !Fits(memory) {
      return Err(OutOfRange(MemoryAddress));
    }
    if !Fits(base) {
      return Err(OutOfRange(BaseAddress));
    }
    if !Fits(header) {
      return Err(OutOfRange(HeaderAddress));
    }
    if !Fits(entry) {
      return Err(OutOfRange(EntryAddress));
    }
    var data := Build(segments);
    return Ok(Application(memory, header, base, entry, data));
  }

  /* ---------- the parts in front of it ---------- */

  function Pack(v: int): (r: Result<seq<byte>>)
    ensures r.Ok? <==> 0 <= v < TWO_TO_THE_32
    ensures r.Ok? ==> |r.value| == 4 && WordAt(r.value, 0) == v
  {
    if 0 <= v < TWO_TO_THE_32 then
      WordOfPacked(v, Packed(v), 0);
      Ok(Packed(v))
    else Err(NotPackable)
  }

  /** A tag, a length, most significant byte first, and a version. */
  function Tagged(tag: byte, length: nat, version: byte): (b: seq<byte>)
    requires length < 0x10000
    ensures |b| == 4
  {
    [tag, length / 0x100, length % 0x100, version]
  }

  /** The words are stored in b one after the other, from offset o on. */
  predicate HoldsWords(b: seq<byte>, o: nat, words: seq<int>) {
    && o + 4 * |words| <= |b|
    && forall k :: 0 <= k < |words| ==> WordAt(b, o + 4 * k) == words[k]
  }

  predicate AllPack(words: seq<int>) {
    forall k :: 0 <= k < |words| ==> 0 <= words[k] < TWO_TO_THE_32
  }

  method PackWords(words: seq<int>) returns (r: Result<seq<byte>>)
    ensures r.Ok? <==> AllPack(words)
    ensures r.Ok? ==> |r.value| == 4 * |words| && HoldsWords(r.value, 0, words)
    ensures r.Ok? ==> forall k :: 0 <= k < |words| ==> IsWord(r.value, 4 * k, words[k])
    ensures r.Err? ==> r.error == NotPackable
  {
    var data: seq<byte> := [];
    for n := 0 to |words|
      invariant |data| == 4 * n && HoldsWords(data, 0, words[..n])
      invariant AllPack(words[..n])
    {
      var word := Pack(words[n]);
      if word.Err? {
        assert !(0 <= words[n] < TWO_TO_THE_32);
        return Err(NotPackable);
      }
      WordsAppended(data, words[..n], word.value, words[n]);
      assert words[..n + 1] == words[..n] + [words[n]];
      data := data + word.value;
    }
    assert words[..|words|] == words;
    forall k | 0 <= k < |words|
      ensures IsWord(data, 4 * k, words[k])
    {
      WordBytes(data, 4 * k);
    }
    return Ok(data);
  }

  lemma WordsAppended(b: seq<byte>, words: seq<int>, c: seq<byte>, word: int)
    requires |b| == 4 * |words| && HoldsWords(b, 0, words) && |c| == 4 && WordAt(c, 0) == word
    ensures HoldsWords(b + c, 0, words + [word])
  {
  }

  class ImageVectorTable {
    const tag: byte := 0xD1
    const length: nat := 0x20
    const version: byte := 0x41
    var entry: int
    var dcd: int
    var boot: int
    var ivt: int
    var csf: int

    constructor ()
      ensures Words() == [0, 0, 0, 0, 0, 0, 0]
    {
      entry, dcd, boot, ivt, csf := 0, 0, 0, 0, 0;
    }

    function Words(): seq<int>
      reads this
    {
      [entry, 0, dcd, boot, ivt, csf, 0]
    }

    method ToBytes() returns (r: Result<seq<byte>>)
      ensures r.Ok? <==> AllPack(Words())
      ensures r.Ok? ==> |r.value| == VECTOR_SIZE && IsVectorTable(r.value, Words())
      ensures r.Err? ==> r.error == NotPackable
    {
      var words := PackWords(Words());
      if words.Err? {
        return words;
      }
      return Ok(Tagged(tag, length, version) + words.value);
    }
  }

  predicate IsVectorTable(b: seq<byte>, words: seq<int>) {
    |words| == 7 && |b| == VECTOR_SIZE && b[..4] == [0xD1, 0x00, 0x20, 0x41] && HoldsWords(b, 4, words)
  }

  class BootDataStructure {
    var start: int
    var length: int
    var plugin: int

    constructor ()
      ensures Words() == [0, 0, 0]
    {
      start, length, plugin := 0, 0, 0;
    }

    function Words(): seq<int>
      reads this
    {
      [start, length, plugin]
    }

    method ToBytes() returns (r: Result<seq<byte>>)
      ensures r.Ok? <==> AllPack(Words())
      ensures r.Ok? ==> |r.value| == BOOT_SIZE && HoldsWords(r.value, 0, Words())
      ensures r.Err? ==> r.error == NotPackable
    {
      r := PackWords(Words());
    }
  }

  class DeviceConfigData {
    const tag: byte := 0xD2
    const version: byte := 0x40
    var length: nat

    constructor () {
      length := 0;
    }

    method ToBytes() returns (b: seq<byte>)
      modifies this
      ensures |b| == DCD_SIZE && IsDeviceConfig(b)
    {
      length := 8;
      WordOfPacked(0x040400CC, Packed(0x040400CC), 0);
      b := Tagged(tag, length, version) + Packed(0x040400CC);
    }
  }

  predicate IsDeviceConfig(b: seq<byte>) {
    b == [0xD2, 0x00, 0x08, 0x40, 0xCC, 0x00, 0x04, 0x04]
  }

  /* ---------- the image ---------- */

  predicate IsLeastMultiple(m: int, unit: int, n: int)
    requires unit > 0
  {
    m % unit == 0 && n <= m < n + unit
  }

  /** What the boot ROM finds in b, following the addresses b itself gives: the fields are
      those of the application. */
  predicate Describes(b: seq<byte>, app: Application) {
    && |b| >= HEADERS_SIZE
    && b[..4] == [0xD1, 0x00, 0x20, 0x41]
    && WordAt(b, 4) == app.entry && WordAt(b, 8) == 0
    && var here := WordAt(b, 20);
    && here == app.header
    && (var bootAt := WordAt(b, 16) - here;
       && VECTOR_SIZE == bootAt
       && WordAt(b, bootAt) == app.memory
       && IsLeastMultiple(WordAt(b, bootAt + 4), SECTOR_SIZE, here - app.memory + |b|)
       && WordAt(b, bootAt + 8) == 0)
    && (var dcdAt := WordAt(b, 12) - here;
       VECTOR_SIZE + BOOT_SIZE == dcdAt && IsDeviceConfig(b[dcdAt..dcdAt + DCD_SIZE]))
    && WordAt(b, 24) == 0 && WordAt(b, 28) == 0
    && (var appAt := app.base - here;
       && HEADERS_SIZE <= appAt <= |b|
       && b[HEADERS_SIZE..appAt] == Zeros(appAt - HEADERS_SIZE)
       && b[appAt..] == app.data)
  }

  /** The ten words in front of the configuration: the seven of the vector table, behind its
      tag, and the three of the boot data. */
  predicate StoresAddresses(b: seq<byte>, app: Application, length: int) {
    && IsWord(b, 4, app.entry) && IsWord(b, 8, 0) && IsWord(b, 12, app.header + 44) && IsWord(b, 16, app.header + 32)
    && IsWord(b, 20, app.header) && IsWord(b, 24, 0) && IsWord(b, 28, 0)
    && IsWord(b, 32, app.memory) && IsWord(b, 36, length) && IsWord(b, 40, 0)
  }

  /** An image that describes an application has these bytes; the length it gives is that of
      the program and what lies in front of it, rounded up to whole sectors of 512 bytes. */
  lemma DescribedAddresses(b: seq<byte>, app: Application)
    requires Describes(b, app)
    ensures exists length ::
              && length % 512 == 0 && 0 <= length - (app.base - app.memory + |app.data|) < 512
              && StoresAddresses(b, app, length)
  {
    hide WordAt, IsWord;
    WordBytes(b, 4);
    WordBytes(b, 8);
    WordBytes(b, 12);
    WordBytes(b, 16);
    WordBytes(b, 20);
    WordBytes(b, 24);
    WordBytes(b, 28);
    WordBytes(b, 32);
    WordBytes(b, 36);
    WordBytes(b, 40);
    assert StoresAddresses(b, app, WordAt(b, 36));
  }

  class Image {
    const app: Application
    const ivt: ImageVectorTable
    const boot: BootDataStructure
    const dcd: DeviceConfigData

    /** The addresses are those of the start, or those the image was given last time. */
    ghost predicate Valid()
      reads this, ivt, boot
    {
      && app.InRange() && app.InOrder()
      && ((ivt.Words() == [0, 0, 0, 0, 0, 0, 0] && boot.Words() == [0, 0, 0])
         || (HasRoom() && ivt.Words() == SolvedVector(app) && HasSolvedBoot()))
    }

    predicate HasRoom() {
      app.base - app.header >= HEADERS_SIZE
    }

    ghost predicate HasSolvedBoot()
      reads boot
    {
      && boot.start == app.memory && boot.plugin == 0
      && IsLeastMultiple(boot.length, SECTOR_SIZE, app.base - app.memory + |app.data|)
    }

    constructor (app: Application)
      requires app.InRange() && app.InOrder()
      ensures Valid() && this.app == app && fresh(ivt) && fresh(boot) && fresh(dcd)
    {
      this.app := app;
      ivt := new ImageVectorTable();
      boot := new BootDataStructure();
      dcd := new DeviceConfigData();
    }

    method ToBytes() returns (r: Result<seq<byte>>)
      requires Valid()
      modifies ivt, boot, dcd
      ensures Valid()
      ensures r == Err(NegativeGap) <==> !HasRoom()
      ensures r.Ok? <==>
        && app.base - app.header >= 52 && 0 <= app.memory
        && app.base - app.memory + |app.data| <= 0x1_0000_0000 - 512
      ensures r.Ok? ==> Describes(r.value, app)
      ensures r.Ok? ==> exists length ::
        && length % 512 == 0 && 0 <= length - (app.base - app.memory + |app.data|) < 512
        && StoresAddresses(r.value, app, length)
      ensures r.Err? ==> r.error == NegativeGap || r.error == NotPackable
    {
      hide HoldsWords, IsVectorTable, IsDeviceConfig, Spliced, Describes, AllPack, IsLeastMultiple, StoresAddresses;
      WillPack(app, boot.length);
      var result: seq<byte> := [];
      var ivtBegin := |result|;
      var vector := ivt.ToBytes();
      if vector.Err? {
        return vector;
      }
      result := result + vector.value;
      var ivtEnd := |result|;
      var bootBegin := |result|;
      var bootData := boot.ToBytes();
      if bootData.Err? {
        return bootData;
      }
      result := result + bootData.value;
      var bootEnd := |result|;
      var dcdBegin := |result|;
      var config := dcd.ToBytes();
      result := result + config;
      var dcdEnd := |result|;
      var gapSize := app.base - app.header - |result|;
      if gapSize < 0 {
        return Err(NegativeGap);
      }
      result := result + Zeros(gapSize);
      var appBegin := |result|;
      result := result + app.data;
      var appEnd := |result|;

      ghost var first := result;
      assert first[HEADERS_SIZE..HEADERS_SIZE + gapSize] == Zeros(gapSize);
      Solve(dcdBegin, bootBegin, |result|);
      WillPack(app, boot.length);

      vector := ivt.ToBytes();
      if vector.Err? {
        return vector;
      }
      result := Spliced(result, ivtBegin, ivtEnd, vector.value);
      bootData := boot.ToBytes();
      if bootData.Err? {
        return bootData;
      }
      result := Spliced(result, bootBegin, bootEnd, bootData.value);
      result := Spliced(result, appBegin, appEnd, app.data);
      config := dcd.ToBytes();
      result := Spliced(result, dcdBegin, dcdEnd, config);
      SecondPass(first, vector.value, bootData.value, config, Zeros(gapSize), app.data);
      LayoutDescribes(app, vector.value, bootData.value, boot.length, config);
      DescribedAddresses(result, app);
      return Ok(result);
    }

    /** Sets the addresses, once the layout is known. */
    method Solve(dcdBegin: nat, bootBegin: nat, size: nat)
      requires HasRoom() && dcdBegin == VECTOR_SIZE + BOOT_SIZE && bootBegin == VECTOR_SIZE
      requires size == app.base - app.header + |app.data| && boot.plugin == 0
      modifies ivt, boot
      ensures ivt.Words() == SolvedVector(app) && HasSolvedBoot()
    {
      var length := size + (app.header - app.memory);
      length := (length + SECTOR_SIZE - 1) / SECTOR_SIZE;
      length := length * SECTOR_SIZE;
      boot.length := length;
      ivt.ivt := app.header;
      ivt.boot := app.header + bootBegin;
      ivt.csf := 0;
      ivt.entry := app.entry;
      ivt.dcd := app.header + dcdBegin;
      boot.start := app.memory;
    }
  }

  function SolvedVector(app: Application): seq<int> {
    [app.entry, 0, app.header + VECTOR_SIZE + BOOT_SIZE, app.header + VECTOR_SIZE, app.header, 0, 0]
  }

  /** Every address and the size of the program fit into 32 bits. */
  predicate Packable(app: Application) {
    0 <= app.memory && app.base - app.memory + |app.data| <= TWO_TO_THE_32 - SECTOR_SIZE
  }

  lemma WillPack(app: Application, length: int)
    requires app.InRange() && app.InOrder()
    ensures AllPack([0, 0, 0, 0, 0, 0, 0]) && AllPack([0, 0, 0])
    ensures app.base - app.header >= HEADERS_SIZE &&
            IsLeastMultiple(length, SECTOR_SIZE, app.base - app.memory + |app.data|) ==>
      (AllPack(SolvedVector(app)) && AllPack([app.memory, length, 0]) <==> Packable(app))
  {
    var v, w := SolvedVector(app), [app.memory, length, 0];
    if AllPack(w) {
      assert 0 <= w[0] && w[1] < TWO_TO_THE_32;
    }
  }

  /** Writing every part again, at the places of the first time, moves nothing. */
  lemma SecondPass(first: seq<byte>, vector: seq<byte>, bootData: seq<byte>, config: seq<byte>, gap: seq<byte>,
                   data: seq<byte>)
    requires |vector| == VECTOR_SIZE && |bootData| == BOOT_SIZE && |config| == DCD_SIZE
    requires |first| == HEADERS_SIZE + |gap| + |data|
    requires first[HEADERS_SIZE..HEADERS_SIZE + |gap|] == gap
    ensures var appBegin := HEADERS_SIZE + |gap|;
            var a := Spliced(first, 0, VECTOR_SIZE, vector);
            var b := Spliced(a, VECTOR_SIZE, VECTOR_SIZE + BOOT_SIZE, bootData);
            var c := Spliced(b, appBegin, |first|, data);
            Spliced(c, VECTOR_SIZE + BOOT_SIZE, HEADERS_SIZE, config) == vector + bootData + config + gap + data
  {
    var appBegin := HEADERS_SIZE + |gap|;
    var a := Spliced(first, 0, VECTOR_SIZE, vector);
    assert a == vector + first[VECTOR_SIZE..];
    var b := Spliced(a, VECTOR_SIZE, VECTOR_SIZE + BOOT_SIZE, bootData);
    assert b == vector + bootData + first[VECTOR_SIZE + BOOT_SIZE..];
    var c := Spliced(b, appBegin, |first|, data);
    assert c == vector + bootData + first[VECTOR_SIZE + BOOT_SIZE..appBegin] + data;
    assert first[VECTOR_SIZE + BOOT_SIZE..appBegin] == first[VECTOR_SIZE + BOOT_SIZE..HEADERS_SIZE] + gap;
  }

  lemma WordWithin(b: seq<byte>, i: nat, c: seq<byte>, o: nat)
    requires i + |c| <= |b| && b[i..i + |c|] == c && o + 4 <= |c|
    ensures WordAt(b, i + o) == WordAt(c, o)
  {
    assert forall k :: o <= k < o + 4 ==> b[i..i + |c|][k] == c[k];
  }

  lemma WordsWithin(b: seq<byte>, i: nat, c: seq<byte>, o: nat, words: seq<int>)
    requires i + |c| <= |b| && b[i..i + |c|] == c && HoldsWords(c, o, words)
    ensures HoldsWords(b, i + o, words)
  {
    hide WordAt;
    forall k | 0 <= k < |words|
      ensures WordAt(b, i + o + 4 * k) == words[k]
    {
      WordWithin(b, i, c, o + 4 * k);
    }
  }

  /** The parts one after the other are an image in which the ROM finds the application. */
  lemma LayoutDescribes(app: Application, vector: seq<byte>, bootData: seq<byte>, length: int, config: seq<byte>)
    requires IsVectorTable(vector, SolvedVector(app))
    requires |bootData| == BOOT_SIZE && HoldsWords(bootData, 0, [app.memory, length, 0])
    requires IsDeviceConfig(config) && app.base - app.header >= HEADERS_SIZE
    requires IsLeastMultiple(length, SECTOR_SIZE, app.base - app.memory + |app.data|)
    ensures Describes(vector + bootData + config + Zeros(app.base - app.header - HEADERS_SIZE) + app.data, app)
  {
    hide WordAt, IsLeastMultiple;
    var gap := Zeros(app.base - app.header - HEADERS_SIZE);
    var b := vector + bootData + config + gap + app.data;
    var v, w := SolvedVector(app), [app.memory, length, 0];
    assert b[0..VECTOR_SIZE] == vector && b[VECTOR_SIZE..VECTOR_SIZE + BOOT_SIZE] == bootData;
    WordsWithin(b, 0, vector, 4, v);
    WordsWithin(b, VECTOR_SIZE, bootData, 0, w);
    assert WordAt(b, 4) == v[0] && WordAt(b, 8) == v[1] && WordAt(b, 12) == v[2] && WordAt(b, 16) == v[3];
    assert WordAt(b, 20) == v[4] && WordAt(b, 24) == v[5] && WordAt(b, 28) == v[6];
    assert WordAt(b, 32) == w[0] && WordAt(b, 36) == w[1] && WordAt(b, 40) == w[2];
    assert b[..4] == vector[..4] && b[VECTOR_SIZE + BOOT_SIZE..HEADERS_SIZE] == config;
    assert b[HEADERS_SIZE..HEADERS_SIZE + |gap|] == gap && b[HEADERS_SIZE + |gap|..] == app.data;
  }

  /** No two applications to be loaded at the same base have the same image. */
  lemma SameImageSameApplication(b: seq<byte>, app: Application, other: Application)
    requires Describes(b, app) && Describes(b, other) && app.base == other.base
    ensures app == other
  {
  }

  lemma SameWordAt(a: seq<byte>, b: seq<byte>, o: nat)
    requires o + 4 <= |a| && o + 4 <= |b| && WordAt(a, o) == WordAt(b, o)
    ensures a[o..o + 4] == b[o..o + 4]
  {
    SameWord(a[o..o + 4], b[o..o + 4]);
  }

  lemma SameMultiple(m: int, n: int, least: int)
    requires IsLeastMultiple(m, SECTOR_SIZE, least) && IsLeastMultiple(n, SECTOR_SIZE, least)
    ensures m == n
  {
  }

  lemma Joined(a: seq<byte>, b: seq<byte>, o: nat, p: nat)
    requires o <= p <= |a| && p <= |b| && a[..o] == b[..o] && a[o..p] == b[o..p]
    ensures a[..p] == b[..p]
  {
    assert a[..p] == a[..o] + a[o..p] && b[..p] == b[..o] + b[o..p];
  }

  lemma {:induction false} SameWords(a: seq<byte>, b: seq<byte>, o: nat, p: nat)
    requires o <= p <= |a| && p <= |b| && o % 4 == 0 && p % 4 == 0
    requires a[..o] == b[..o]
    requires forall i :: o <= i < p && i % 4 == 0 ==> WordAt(a, i) == WordAt(b, i)
    ensures a[..p] == b[..p]
    decreases p - o
  {
    hide WordAt;
    if o < p {
      SameWordAt(a, b, o);
      Joined(a, b, o, o + 4);
      SameWords(a, b, o + 4, p);
    }
  }

  /** No application has two images. */
  lemma SameApplicationSameImage(app: Application, a: seq<byte>, b: seq<byte>)
    requires Describes(a, app) && Describes(b, app)
    ensures a == b
  {
    hide WordAt, IsLeastMultiple;
    var dcdAt, appAt := VECTOR_SIZE + BOOT_SIZE, app.base - app.header;
    SameMultiple(WordAt(a, 36), WordAt(b, 36), app.header - app.memory + |a|);
    SameWords(a, b, 4, dcdAt);
    Joined(a, b, dcdAt, HEADERS_SIZE);
    Joined(a, b, HEADERS_SIZE, appAt);
    assert a[appAt..] == b[appAt..];
    Joined(a, b, appAt, |a|);
    assert a[..|a|] == a && b[..|b|] == b;
  }

  /* ---------- the tool ---------- */

  /** Checks the order of the addresses. */
  method CreateImage(app: Application) returns (r: Result<Image>)
    requires app.InRange()
    ensures r == Err(OutOfOrder) <==> !app.InOrder()
    ensures r.Ok? <==> app.InOrder()
    ensures r.Ok? ==>
              && r.value.Valid() && r.value.app == app && fresh(r.value)
              && fresh(r.value.ivt) && fresh(r.value.boot) && fresh(r.value.dcd)
  {
    if !app.InOrder() {
      return Err(OutOfOrder);
    }
    var image := new Image(app);
    return Ok(image);
  }

  /** The image of an ELF file. Segments in order lie in it, each at its address less the
      lowest one, as far behind the header as the base address. It can be made exactly if the
      addresses are in range and in order and leave room for the headers, none is negative,
      and the program fits into 32 bits. */
  method ActionElf(memory: int, header: int, base: int, entry: nat, segments: seq<Segment>)
    returns (r: Result<seq<byte>>)
    ensures r.Ok? <==>
      && 0 <= memory < header && header + 52 <= base <= entry < 0x1_0000_0000
      && base - memory + BuiltSize(segments, Lowest(segments)) <= 0x1_0000_0000 - 512
    ensures r.Ok? ==> Describes(r.value, Application(memory, header, base, entry, Built(segments, Lowest(segments))))
    ensures r.Ok? ==> exists length ::
      && length % 512 == 0
      && 0 <= length - (base - memory + BuiltSize(segments, Lowest(segments))) < 512
      && StoresAddresses(r.value, Application(memory, header, base, entry, Built(segments, Lowest(segments))), length)
    ensures r.Ok? && IsElf(segments) && ElfLoading.InOrder(segments) ==>
      forall i :: 0 <= i < |segments| ==> HoldsSegment(r.value[base - header..], segments[i], Lowest(segments))
    ensures r.Ok? && IsElf(segments) &&
            ((Apart(segments) && Harmless(segments)) || OriginsAgree(segments, Lowest(segments))) ==>
      forall o: nat :: At(r.value[base - header..], o) == Loaded(segments, Lowest(segments), o)
    ensures !(-0x1_0000_0000 < memory < 0x1_0000_0000) ==> r == Err(OutOfRange(MemoryAddress))
    ensures -0x1_0000_0000 < memory < 0x1_0000_0000 ==>
      && (!(-0x1_0000_0000 < base < 0x1_0000_0000) ==> r == Err(OutOfRange(BaseAddress)))
      && (-0x1_0000_0000 < base < 0x1_0000_0000 ==>
        && (!(-0x1_0000_0000 < header < 0x1_0000_0000) ==> r == Err(OutOfRange(HeaderAddress)))
        && (-0x1_0000_0000 < header < 0x1_0000_0000 && entry >= 0x1_0000_0000 ==> r == Err(OutOfRange(EntryAddress))))
    ensures r.Err? && !r.error.OutOfRange? ==>
      r.error == if !(memory < header < base <= entry) then OutOfOrder
                 else if base - header < 52 then NegativeGap
                 else NotPackable
    ensures r.Err? && r.error.OutOfRange? ==>
      !(-0x1_0000_0000 < memory < 0x1_0000_0000 && -0x1_0000_0000 < base < 0x1_0000_0000
        && -0x1_0000_0000 < header < 0x1_0000_0000 && entry < 0x1_0000_0000)
  {
    hide Lowest, Built, BuiltSize, Loaded, At, Harmless, Apart, OriginsAgree, StoresAddresses;
    BuiltHasSize(segments, Lowest(segments));
    var app := FromElf(memory, header, base, entry, segments);
    if app.Err? {
      return Err(app.error);
    }
    var image := CreateImage(app.value);
    if image.Err? {
      return Err(image.error);
    }
    r := image.value.ToBytes();
    if r.Ok? {
      assert r.value[base - header..] == Built(segments, Lowest(segments));
      if IsElf(segments) && ElfLoading.InOrder(segments) && segments != [] {
        InOrderIsLoaded(segments, Lowest(segments));
      }
      if IsElf(segments) && Apart(segments) && Harmless(segments) {
        forall o: nat | true
          ensures At(Built(segments, Lowest(segments)), o) == Loaded(segments, Lowest(segments), o)
        {
          HarmlessIsLoaded(segments, Lowest(segments), o);
        }
      } else if IsElf(segments) && OriginsAgree(segments, Lowest(segments)) {
        OriginsAgreeIsLoaded(segments, segments, Lowest(segments));
      }
    }
  }
}
