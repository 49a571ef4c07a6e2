/**
  One line of a directory listing, built into a caller's buffer by a chain of appends, each
  of which may be cut off by the end of the buffer.
 */
module DirectoryListing {

  const IO_ERROR: int := -1

  datatype Mode = Unix | Msdos | Filename

  /** The formatted parts of a line; the name is the long one if it could be read. */
  datatype Line = Line(
    msdos: string, kind: string, owner: string, length: string, day: string, year: string,
    longName: string, shortName: string, hasLongName: bool)

  /** The columns before the name. */
  function Columns(mode: Mode, line: Line): string {
    match mode
    case Unix => line.kind + line.owner + line.length + line.day + line.year
    case Msdos => line.msdos
    case Filename => ""
  }

  /** The whole line. */
  function Text(mode: Mode, line: Line): string {
    Columns(mode, line) + ((if line.hasLongName then line.longName else line.shortName) + "\r\n")
  }

  /** text has part at offset o. */
  predicate HasAt(text: string, o: nat, part: string) {
    o + |part| <= |text| && text[o..o + |part|] == part
  }

  /** Where the parts of a line lie: in the Unix layout kind, owner, length, day and year one
      after the other, in the other one those of MS-DOS, or none; behind them the long name if
      there is one, and the short one otherwise; and the end of the line. */
  lemma LineLayout(mode: Mode, line: Line)
    ensures var text := Text(mode, line);
            var name := if line.hasLongName then line.longName else line.shortName;
            var n := match mode
              case Unix => |line.kind| + |line.owner| + |line.length| + |line.day| + |line.year|
              case Msdos => |line.msdos|
              case Filename => 0;
            && |text| == n + |name| + 2
            && HasAt(text, n, name) && HasAt(text, n + |name|, "\r\n")
            && (mode == Msdos ==> HasAt(text, 0, line.msdos))
            && (mode == Unix ==>
                  && HasAt(text, 0, line.kind)
                  && HasAt(text, |line.kind|, line.owner)
                  && HasAt(text, |line.kind| + |line.owner|, line.length)
                  && HasAt(text, |line.kind| + |line.owner| + |line.length|, line.day)
                  && HasAt(text, n - |line.year|, line.year))
  {
    var name := if line.hasLongName then line.longName else line.shortName;
    TwoPutBehind(Columns(mode, line), name, "\r\n");
    hide HasAt;
    if mode == Unix {
      var a := line.kind + line.owner;
      var b := a + line.length;
      var c := b + line.day;
      OnePutBehind(line.kind, line.owner);
      OnePutBehind(a, line.length);
      OnePutBehind(b, line.day);
      OnePutBehind(c, line.year);
      OnePutBehind(c + line.year, name + "\r\n");
      OnePutBehind("", line.kind);
      assert "" + line.kind == line.kind;
    } else if mode == Msdos {
      OnePutBehind("", line.msdos);
      OnePutBehind(line.msdos, name + "\r\n");
      assert "" + line.msdos == line.msdos;
    }
  }

  /** Text put behind other text is at its end, and what was in the other text still is. */
  lemma OnePutBehind(text: string, part: string)
    ensures HasAt(text + part, |text|, part)
    ensures forall o, p :: HasAt(text, o, p) ==> HasAt(text + part, o, p)
  {
    forall o: nat, p: string | HasAt(text, o, p)
      ensures HasAt(text + part, o, p)
    {
      assert (text + part)[o..o + |p|] == text[o..o + |p|];
    }
  }

  lemma TwoPutBehind(text: string, p: string, q: string)
    ensures HasAt(text + (p + q), |text|, p) && HasAt(text + (p + q), |text| + |p|, q)
  {
    var n := |text| + |p|;
    assert (text + (p + q))[|text|..n] == p && (text + (p + q))[n..n + |q|] == q;
  }

  /** How many characters of text fit into a buffer of the given size with its terminator. */
  function Fitting(text: string, size: nat): nat {
    if size == 0 then 0 else if |text| < size then |text| else size - 1
  }

  /** now is was with as much of text as fits into the max characters at offset ofs, and a
      terminator behind it. */
  ghost predicate IsPut(was: seq<char>, ofs: nat, max: nat, text: string, now: seq<char>) {
    var n := Fitting(text, max);
    && |now| == |was| && ofs + max <= |was|
    && (max == 0 ==> now == was)
    && (max > 0 ==> now[ofs..ofs + n] == text[..n] && now[ofs + n] == '\0')
    && forall i :: 0 <= i < |was| && !(ofs <= i <= ofs + n) ==> now[i] == was[i]
  }

  /** The formatter: puts text at offset ofs of the buffer, where max characters are left
      for it and its terminator, and returns the length of the whole text. */
  method Snprintf(buffer: array<char>, ofs: nat, max: nat, text: string) returns (len: nat)
    requires ofs + max <= buffer.Length
    modifies buffer
    ensures len == |text| && IsPut(old(buffer[..]), ofs, max, text, buffer[..])
  {
    len := 0;
    var str := ofs;
    while len < |text|
      invariant len <= |text| && str == ofs + Fitting(text[..len], max)
      invariant buffer[ofs..str] == text[..str - ofs]
      invariant forall i :: 0 <= i < buffer.Length && !(ofs <= i < str) ==> buffer[i] == old(buffer[i])
    {
      var c := text[len];
      len := len + 1;
      if max > len {
        buffer[str] := c;
        str := str + 1;
      }
    }
    assert text[..len] == text;
    assert max == 0 ==> buffer[..] == old(buffer[..]);
    if max != 0 {
      buffer[str] := '\0';
    }
  }

  /** What the buffer holds before anything, or after the first part of a line, was put in. */
  ghost predicate HoldsSoFar(was: seq<char>, size: nat, text: string, now: seq<char>) {
    (text == "" && now == was) || IsPut(was, 0, size, text, now)
  }

  /** Text put behind what fitted of the text before it is as much as fits of both. */
  lemma PutBehind(was: seq<char>, size: nat, before: string, cut: seq<char>, text: string, now: seq<char>)
    requires HoldsSoFar(was, size, before, cut) && size <= |was|
    requires var ofs := if |before| < size then |before| else size;
             IsPut(cut, ofs, size - ofs, text, now)
    ensures IsPut(was, 0, size, before + text, now)
  {
    var ofs := if |before| < size then |before| else size;
    var whole := before + text;
    var n := Fitting(whole, size);
    if ofs < size {
      var m := Fitting(text, size - ofs);
      assert n == ofs + m;
      assert now[..ofs] == cut[..ofs] == before;
      assert now[0..n] == now[..ofs] + now[ofs..n] == whole[..n];
    } else {
      assert now == cut && whole[..n] == before[..n];
    }
  }

  /** One append: the text so far has length len, of which part may have been cut off. */
  method Append(buffer: array<char>, size: nat, len: nat, text: string, ghost was: seq<char>,
                ghost before: string) returns (total: nat)
    requires size <= buffer.Length && len == |before|
    requires HoldsSoFar(was, size, before, buffer[..])
    modifies buffer
    ensures total == |before + text| && IsPut(was, 0, size, before + text, buffer[..])
    ensures HoldsSoFar(was, size, before + text, buffer[..])
  {
    var ofs := if len < size then len else size;
    ghost var cut := buffer[..];
    var written := Snprintf(buffer, ofs, size - ofs, text);
    PutBehind(was, size, before, cut, text, buffer[..]);
    total := len + written;
  }

  class DirectoryStruct {
    const mode: Mode
    var first: bool

    constructor (mode: Mode)
      ensures this.mode == mode && first
    {
      this.mode, this.first := mode, true;
    }

    /** The columns of a line, in the layout of this listing. */
    method PutColumns(buffer: array<char>, size: nat, line: Line) returns (len: nat)
      requires size <= buffer.Length
      modifies buffer
      ensures len == |Columns(mode, line)|
      ensures HoldsSoFar(old(buffer[..]), size, Columns(mode, line), buffer[..])
    {
      ghost var was := buffer[..];
      len := 0;
      match mode {
        case Msdos =>
          len := Append(buffer, size, len, line.msdos, was, "");
        case Unix =>
          hide HoldsSoFar;
          hide IsPut;
          assert HoldsSoFar(was, size, "", buffer[..]);
          len := Append(buffer, size, len, line.kind, was, "");
          len := Append(buffer, size, len, line.owner, was, line.kind);
          len := Append(buffer, size, len, line.length, was, line.kind + line.owner);
          len := Append(buffer, size, len, line.day, was, line.kind + line.owner + line.length);
          len := Append(buffer, size, len, line.year, was, line.kind + line.owner + line.length + line.day);
        case Filename =>
      }
    }

    /** Puts the line of the next entry into the buffer, as much of it as fits; found tells
        whether the search came back with an entry. Returns the length of the whole line. */
    method Read(buffer: array<char>, size: nat, found: bool, line: Line) returns (len: int)
      requires size <= buffer.Length
      modifies this, buffer
      ensures !first
      ensures !found ==> len == -1 && buffer[..] == old(buffer[..])
      ensures found ==>
                && len == |Text(mode, line)|
                && IsPut(if size == 0 then old(buffer[..]) else old(buffer[..])[size - 1 := '\0'],
                         0, size, Text(mode, line), buffer[..])
      ensures found ==>
                var text := Text(mode, line);
                && (forall i :: 0 <= i < |text| && i + 1 < size ==> buffer[i] == text[i])
                && (size > 0 ==> buffer[if |text| < size then |text| else size - 1] == '\0')
                && (forall i :: size <= i < buffer.Length ==> buffer[i] == old(buffer[i]))
    {
      ghost var was := buffer[..];
      first := false;
      if !found {
        return IO_ERROR;
      }
      var n := PutColumns(buffer, size, line);
      if line.hasLongName {
        n := Append(buffer, size, n, line.longName + "\r\n", was, Columns(mode, line));
      } else {
        n := Append(buffer, size, n, line.shortName + "\r\n", was, Columns(mode, line));
      }
      if size > 0 {
        buffer[size - 1] := '\0';
      }
      return n;
    }
  }
}
