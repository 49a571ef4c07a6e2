/**
  The re-blocking copy of a file: the source is read in pieces of any size, the target is
  written in blocks of another, and a last incomplete block is written in place.
 */
module BlockCopy {
  import opened Arithmetic
  import opened Bytes

  /** A file after b was written at position p: what lay there is overwritten, and a gap
      behind the end of the file is filled with zeros. Writing nothing changes nothing. */
  function Written(file: seq<byte>, p: nat, b: seq<byte>): (r: seq<byte>) {
    if b == [] then file
    else if p + |b| <= |file| then file[..p] + b + file[p + |b|..]
    else if p <= |file| then file[..p] + b
    else file + Zeros(p - |file|) + b
  }

  lemma WrittenAt(file: seq<byte>, p: nat, b: seq<byte>)
    requires b != []
    ensures |Written(file, p, b)| == if p + |b| <= |file| then |file| else p + |b|
    ensures forall i :: 0 <= i < |Written(file, p, b)| ==>
      Written(file, p, b)[i] == if p <= i < p + |b| then b[i - p] else if i < |file| then file[i] else 0
  {
  }

  /** Two writes, one behind the other, are one write. */
  lemma WrittenTwice(file: seq<byte>, p: nat, a: seq<byte>, b: seq<byte>)
    ensures Written(Written(file, p, a), p + |a|, b) == Written(file, p, a + b)
  {
    if a == [] {
      assert a + b == b;
    } else if b == [] {
      assert a + b == a;
    } else {
      BothWritten(file, p, a, b);
    }
  }

  lemma BothWritten(file: seq<byte>, p: nat, a: seq<byte>, b: seq<byte>)
    requires a != [] && b != []
    ensures Written(Written(file, p, a), p + |a|, b) == Written(file, p, a + b)
  {
    hide Written;
    var w := Written(file, p, a);
    var r, s := Written(w, p + |a|, b), Written(file, p, a + b);
    ByteWritten(file, p, a, 0);
    ByteWritten(w, p + |a|, b, 0);
    ByteWritten(file, p, a + b, 0);
    forall i: nat | i < |r|
      ensures r[i] == s[i]
    {
      ByteWritten(file, p, a, i);
      ByteWritten(w, p + |a|, b, i);
      ByteWritten(file, p, a + b, i);
    }
  }

  lemma ByteWritten(file: seq<byte>, p: nat, b: seq<byte>, i: nat)
    requires b != []
    ensures |Written(file, p, b)| == if p + |b| <= |file| then |file| else p + |b|
    ensures i < |Written(file, p, b)| ==>
              Written(file, p, b)[i] == if p <= i < p + |b| then b[i - p] else if i < |file| then file[i] else 0
  {
  }

  /** The bytes of file from p on, at most n of them. */
  function Slice(file: seq<byte>, p: nat, n: nat): (r: seq<byte>)
    ensures |r| == if p >= |file| then 0 else if p + n <= |file| then n else |file| - p
  {
    if p >= |file| then [] else if p + n <= |file| then file[p..p + n] else file[p..]
  }

  /** The bytes of file from p on. */
  function Rest(file: seq<byte>, p: nat): seq<byte> {
    if p <= |file| then file[p..] else []
  }

  lemma RestInTwo(file: seq<byte>, p: nat, k: nat)
    requires k == 0 ==> file == []
    ensures var s := Slice(file, p, k);
            && Rest(file, p) == s + Rest(file, p + |s|)
            && (s == [] ==> Rest(file, p) == [])
  {
  }

  lemma SliceInTwo(file: seq<byte>, p: nat, n: nat, k: nat)
    requires k <= n && (k == 0 ==> n == 0)
    ensures var s := Slice(file, p, k);
            && Slice(file, p, n) == s + Slice(file, p + |s|, n - |s|)
            && (s == [] ==> Slice(file, p, n) == [])
  {
  }

  /** How many zeros close an incomplete block of remains bytes at position p: as many as
      the file has bytes in the rest of that block. */
  function Padding(file: seq<byte>, p: nat, remains: nat, blockSize: nat): nat {
    var there := |Slice(file, p, blockSize)|;
    if there > remains then there - remains else 0
  }

  /** What a copy has to leave: the source at the seek position, and after an incomplete
      last block zeros as far as the old file reaches within that block. */
  function Copied(target: seq<byte>, seek: nat, source: seq<byte>, blockSize: nat): seq<byte> {
    if blockSize == 0 || |source| % blockSize == 0 then Written(target, seek, source)
    else
      var r := |source| % blockSize;
      Written(target, seek, source + Zeros(Padding(target, seek + |source| - r, r, blockSize)))
  }

  class ReadFile {
    const content: seq<byte>
    const blockSize: nat
    const size: nat
    var position: nat
    var readed: nat

    /** The file opened and moved to where the copy starts. */
    constructor (content: seq<byte>, startFrom: nat, blockSize: nat, size: nat)
      ensures this.content == content && this.blockSize == blockSize && this.size == size
      ensures position == startFrom && readed == 0
    {
      this.content, this.blockSize, this.size := content, blockSize, size;
      this.position, this.readed := startFrom, 0;
    }

    /** Everything reading will still deliver. The size is a limit only for reading by block. */
    ghost function Remaining(): seq<byte>
      reads this
    {
      if blockSize > 0 && size > 0
      then Slice(content, position, if readed <= size then size - readed else 0)
      else Rest(content, position)
    }

    /** What a file just opened delivers, byte by byte: all from the start on, but no more than
        the size if it is read by blocks and one was given. */
    lemma Delivered()
      requires readed == 0
      ensures var there: nat := if position <= |content| then |content| - position else 0;
              var n := if blockSize > 0 && 0 < size < there then size else there;
              |Remaining()| == n && forall i :: 0 <= i < n ==> Remaining()[i] == content[position + i]
    {
    }

    method Take(n: nat) returns (data: seq<byte>)
      modifies this`position
      ensures data == Slice(content, old(position), n) && position == old(position) + |data|
    {
      data := Slice(content, position, n);
      position := position + |data|;
    }

    method Read() returns (data: seq<byte>)
      requires readed <= size || size == 0 || blockSize == 0
      modifies this
      ensures readed <= size || size == 0 || blockSize == 0
      ensures old(Remaining()) == data + Remaining()
      ensures data == [] ==> old(Remaining()) == []
      ensures var there: nat := if old(position) <= |content| then |content| - old(position) else 0;
              var n := if blockSize == 0 then (if size == 0 then there else size)
                       else if size == 0 || blockSize < size - old(readed) then blockSize else size - old(readed);
              |data| == if n <= there then n else there
    {
      hide Slice, Rest;
      if blockSize == 0 && size == 0 {
        RestInTwo(content, position, |content|);
        data := Take(|content|);
      } else if blockSize == 0 && size > 0 {
        RestInTwo(content, position, size);
        data := Take(size);
      } else if blockSize > 0 && size == 0 {
        RestInTwo(content, position, blockSize);
        data := Take(blockSize);
      } else {
        var remains := size - readed;
        var readSize := if remains > blockSize then blockSize else remains;
        SliceInTwo(content, position, remains, readSize);
        data := Take(readSize);
        readed := readed + |data|;
      }
    }
  }

  class WriteFile {
    const blockSize: nat
    const seek: nat
    const original: seq<byte>
    var content: seq<byte>
    var position: nat
    var data: seq<byte>

    /** Of source, whole blocks have been written and the rest waits. */
    ghost predicate Buffers(source: seq<byte>)
      reads this
    {
      var n := |source| - |data|;
      && n >= 0 && source[n..] == data
      && position == seek + n && content == Written(original, seek, source[..n])
      && (if blockSize == 0 then data == [] else n % blockSize == 0)
    }

    /** Besides, no whole block waits. */
    ghost predicate Holds(source: seq<byte>)
      reads this
    {
      Buffers(source) && (blockSize > 0 ==> |data| < blockSize)
    }

    constructor (content: seq<byte>, startFrom: nat, blockSize: nat)
      ensures this.blockSize == blockSize && this.seek == startFrom && this.original == content && Holds([])
    {
      this.blockSize, this.seek, this.original := blockSize, startFrom, content;
      this.content, this.position, this.data := content, startFrom, [];
    }

    method WriteOut(b: seq<byte>)
      modifies this`content, this`position
      ensures content == Written(old(content), old(position), b) && position == old(position) + |b|
    {
      content := Written(content, position, b);
      position := position + |b|;
    }

    method WriteAll(b: seq<byte>, ghost source: seq<byte>)
      requires blockSize == 0 && Holds(source)
      modifies this`content, this`position
      ensures Holds(source + b)
    {
      hide Written;
      WrittenTwice(original, seek, source, b);
      assert source[..|source|] == source && (source + b)[..|source + b|] == source + b;
      WriteOut(b);
    }

    /** Writes the first waiting block. */
    method WriteFirstBlock(ghost source: seq<byte>)
      requires blockSize > 0 && Buffers(source) && |data| >= blockSize
      modifies this
      ensures Buffers(source) && |data| == |old(data)| - blockSize
    {
      hide Written;
      ghost var n := |source| - |data|;
      WrittenTwice(original, seek, source[..n], data[..blockSize]);
      assert source[..n] + data[..blockSize] == source[..n + blockSize];
      OneMoreBlock(n, blockSize);
      WriteOut(data[..blockSize]);
      data := data[blockSize..];
    }

    method WriteBlock(b: seq<byte>, ghost source: seq<byte>)
      requires blockSize > 0 && Holds(source)
      modifies this
      ensures Holds(source + b)
    {
      ghost var n := |source| - |data|;
      assert (source + b)[..n] == source[..n];
      data := data + b;
      while |data| >= blockSize
        invariant Buffers(source + b)
        decreases |data|
      {
        WriteFirstBlock(source + b);
      }
    }

    method Write(b: seq<byte>, ghost source: seq<byte>)
      requires Holds(source)
      modifies this
      ensures Holds(source + b)
    {
      if blockSize == 0 {
        WriteAll(b, source);
      } else {
        WriteBlock(b, source);
      }
    }

    /** Writes the incomplete block that waits, over a block of zeros as long as what the
        file has there. */
    method WriteRemains(ghost source: seq<byte>)
      requires Holds(source)
      modifies this
      ensures content == Copied(original, seek, source, blockSize)
    {
      hide Written, Copied, Slice;
      var remains := |data|;
      RemainsWritten(original, seek, source, |source| - |data|, blockSize);
      if remains == 0 {
        return;
      }
      var toRead := Slice(content, position, blockSize);
      var toWrite := if |toRead| <= remains then data else data + Zeros(|toRead| - remains);
      assert toWrite == data + Zeros(Padding(content, position, remains, blockSize));
      WriteOut(toWrite);
    }
  }

  /** Whole blocks, and then the incomplete one with its padding, make a copy. */
  lemma RemainsWritten(original: seq<byte>, seek: nat, source: seq<byte>, n: nat, blockSize: nat)
    requires n <= |source| && (if blockSize == 0 then n == |source| else n % blockSize == 0 && |source| - n < blockSize)
    ensures var content := Written(original, seek, source[..n]);
            var padded := source[n..] + Zeros(Padding(content, seek + n, |source| - n, blockSize));
            Copied(original, seek, source, blockSize) ==
            if n == |source| then content else Written(content, seek + n, padded)
  {
    hide Written, Slice, Padding;
    var r := |source| - n;
    if r == 0 {
      assert source[..n] == source;
    } else {
      BlocksAndRest(n, r, blockSize);
      SamePadding(original, seek, source[..n], r, blockSize);
      var zeros := Zeros(Padding(original, seek + n, r, blockSize));
      assert source[..n] + (source[n..] + zeros) == source + zeros;
      WrittenTwice(original, seek, source[..n], source[n..] + zeros);
    }
  }

  lemma OneMoreBlock(n: nat, b: nat)
    requires b > 0 && n % b == 0
    ensures (n + b) % b == 0
  {
    Split(n, b);
    RemainderIs(n + b, b, n / b + 1, 0);
  }

  lemma BlocksAndRest(n: nat, r: nat, b: nat)
    requires r < b && n % b == 0
    ensures (n + r) % b == r
  {
    Split(n, b);
    assert n == n / b * b;
    RemainderIs(n + r, b, n / b, r);
  }

  /** Writing blocks does not change what a file has behind them. */
  lemma SamePadding(file: seq<byte>, p: nat, b: seq<byte>, remains: nat, n: nat)
    ensures Padding(Written(file, p, b), p + |b|, remains, n) == Padding(file, p + |b|, remains, n)
  {
    if b != [] {
      WrittenAt(file, p, b);
    }
  }

  /** m is where a block that n bytes have begun ends; with no blocks, the bytes end there. */
  predicate IsBlockEnd(m: nat, n: nat, blockSize: nat) {
    if blockSize == 0 then m == n else m % blockSize == 0 && n <= m < n + blockSize
  }

  /** A copy, byte by byte: the source at the seek position, zeros behind it as far as the
      old file has bytes up to place m, and the old file, or zeros in a gap behind its end,
      everywhere else. */
  ghost predicate IsCopyUpTo(m: nat, target: seq<byte>, seek: nat, source: seq<byte>, copy: seq<byte>) {
    var end := seek + |source|;
    && |copy| == (if source == [] || end <= |target| then |target| else end)
    && forall i :: 0 <= i < |copy| ==>
         copy[i] == if seek <= i < end then source[i - seek]
                    else if end <= i < seek + m then 0
                    else if i < |target| then target[i] else 0
  }

  /** The zeros reach to where the last block ends. */
  ghost predicate IsCopy(target: seq<byte>, seek: nat, source: seq<byte>, blockSize: nat, copy: seq<byte>) {
    forall m :: IsBlockEnd(m, |source|, blockSize) ==> IsCopyUpTo(m, target, seek, source, copy)
  }

  lemma CopiedBytes(target: seq<byte>, seek: nat, source: seq<byte>, blockSize: nat)
    ensures IsCopy(target, seek, source, blockSize, Copied(target, seek, source, blockSize))
  {
    forall m: nat | IsBlockEnd(m, |source|, blockSize)
      ensures IsCopyUpTo(m, target, seek, source, Copied(target, seek, source, blockSize))
    {
      hide IsBlockEnd, IsCopyUpTo, Copied;
      BlockEnd(m, |source|, blockSize);
      if blockSize == 0 || |source| % blockSize == 0 {
        WholeBlocks(target, seek, source, blockSize);
      } else {
        LastBlock(target, seek, source, blockSize);
      }
    }
  }

  lemma WholeBlocks(target: seq<byte>, seek: nat, source: seq<byte>, blockSize: nat)
    requires blockSize == 0 || |source| % blockSize == 0
    ensures IsCopyUpTo(|source|, target, seek, source, Copied(target, seek, source, blockSize))
  {
    hide Written;
    if source == [] {
      NothingWritten(target, seek);
    } else {
      WrittenAt(target, seek, source);
    }
  }

  lemma LastBlock(target: seq<byte>, seek: nat, source: seq<byte>, blockSize: nat)
    requires blockSize > 0 && |source| % blockSize > 0
    ensures var r := |source| % blockSize;
            IsCopyUpTo(|source| - r + blockSize, target, seek, source, Copied(target, seek, source, blockSize))
  {
    hide Written, Slice, Padding;
    var r := |source| % blockSize;
    var zeros := Zeros(Padding(target, seek + |source| - r, r, blockSize));
    PaddingIs(target, seek + |source| - r, r, blockSize);
    WrittenAt(target, seek, source + zeros);
  }

  lemma NothingWritten(file: seq<byte>, p: nat)
    ensures Written(file, p, []) == file
  {
  }

  lemma BlockEnd(m: nat, n: nat, blockSize: nat)
    requires IsBlockEnd(m, n, blockSize)
    ensures m == if blockSize == 0 || n % blockSize == 0 then n else n - n % blockSize + blockSize
  {
    if blockSize == 0 {
      return;
    }
    var d, r := n / blockSize, n % blockSize;
    var s: nat := m - n + r;
    Split(n, blockSize);
    assert blockSize * d == d * blockSize;
    if s < blockSize {
      RemainderIs(m, blockSize, d, s);
    } else {
      assert (d + 1) * blockSize == d * blockSize + blockSize;
      RemainderIs(m, blockSize, d + 1, s - blockSize);
    }
  }

  /** The zeros close the block, but not beyond the end of the old file. */
  lemma PaddingIs(file: seq<byte>, p: nat, remains: nat, blockSize: nat)
    requires remains <= blockSize
    ensures p + remains + Padding(file, p, remains, blockSize) ==
            if p + blockSize <= |file| then p + blockSize else if p + remains <= |file| then |file| else p + remains
  {
  }

  /** The copy loop: reads until nothing comes, and hands every piece on. */
  method CopyFile(source: ReadFile, target: WriteFile)
    requires source.readed == 0 && target.Holds([])
    modifies source, target
    ensures target.content == Copied(target.original, target.seek, old(source.Remaining()), target.blockSize)
    ensures IsCopy(target.original, target.seek, old(source.Remaining()), target.blockSize, target.content)
  {
    hide Copied, IsCopy, ReadFile.Remaining, WriteFile.Holds;
    ghost var all := source.Remaining();
    ghost var done: seq<byte> := [];
    var data := source.Read();
    while |data| > 0
      invariant source.readed <= source.size || source.size == 0 || source.blockSize == 0
      invariant target.Holds(done)
      invariant all == done + data + source.Remaining()
      invariant data == [] ==> source.Remaining() == []
      decreases |all| - |done|
    {
      target.Write(data, done);
      done := done + data;
      data := source.Read();
    }
    assert done == all;
    target.WriteRemains(all);
    CopiedBytes(target.original, target.seek, all, target.blockSize);
  }
}
