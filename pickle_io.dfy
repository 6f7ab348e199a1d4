/**
 * The stream routines of PickleUtils.cs: readline and readline_into, which
 * read up to and including the next LF, readbyte, and readbytes_into, which
 * keeps calling Stream.Read until the requested number of bytes has arrived.
 *
 * Each routine is a method with the source's loop, proved against a function
 * of the bytes left in the stream.
 */
module PickleIO {
  import opened Wrappers
  import opened PickleUtils
  import opened Streams

  const NewLine: byte := 10

  // ---------------------------------------------------------------------------
  // Reference definition of a line
  // ---------------------------------------------------------------------------

  /** How many bytes a line read takes from `rest`: everything up to and
      including the first LF, or all of `rest` when it holds no LF. */
  function LineLength(rest: seq<byte>): (n: nat)
    ensures n <= |rest|
  {
    if rest == [] then 0
    else if rest[0] == NewLine then 1
    else 1 + LineLength(rest[1..])
  }

  /** The line a line read returns: the bytes it takes, without the LF unless
      includeLF is set. */
  function Line(rest: seq<byte>, includeLF: bool): (line: seq<byte>)
  {
    if rest == [] then []
    else if rest[0] == NewLine then (if includeLF then [NewLine] else [])
    else [rest[0]] + Line(rest[1..], includeLF)
  }

  /** Writing a line and its LF, then reading a line back, gives the line. */
  lemma {:induction false} LineOfTerminated(line: seq<byte>, more: seq<byte>, includeLF: bool)
    requires NewLine !in line
    ensures Line(line + [NewLine] + more, includeLF) == line + (if includeLF then [NewLine] else [])
    ensures LineLength(line + [NewLine] + more) == |line| + 1
  {
    if line != [] {
      assert (line + [NewLine] + more)[1..] == line[1..] + [NewLine] + more;
      LineOfTerminated(line[1..], more, includeLF);
      assert line == [line[0]] + line[1..];
    } else {
      assert line + [NewLine] + more == [NewLine] + more;
    }
  }

  /** The line of an input whose first LF is at index k. */
  lemma LineAt(rest: seq<byte>, k: nat, includeLF: bool)
    requires k < |rest| && rest[k] == NewLine && NewLine !in rest[..k]
    ensures Line(rest, includeLF) == rest[..k] + (if includeLF then [NewLine] else [])
    ensures LineLength(rest) == k + 1
  {
    assert rest == rest[..k] + [NewLine] + rest[k + 1..];
    LineOfTerminated(rest[..k], rest[k + 1..], includeLF);
  }

  /** A last line with no LF is read up to the end of input. */
  lemma {:induction false} LineOfUnterminated(line: seq<byte>, includeLF: bool)
    requires NewLine !in line
    ensures Line(line, includeLF) == line
    ensures LineLength(line) == |line|
  {
    if line != [] {
      LineOfUnterminated(line[1..], includeLF);
      assert line == [line[0]] + line[1..];
    }
  }

  /** The shape of every line read: it takes a non-empty prefix of a
      non-empty input ending at the first LF (or at the end of input), and
      keeps exactly those bytes, less the LF unless asked to keep it. */
  lemma {:induction false} LineShape(rest: seq<byte>)
    ensures LineLength(rest) <= |rest|
    ensures rest != [] ==> LineLength(rest) > 0
    ensures NewLine in rest ==> rest[LineLength(rest) - 1] == NewLine
    ensures Line(rest, true) == rest[..LineLength(rest)]
    ensures Line(rest, false) == rest[..LineLength(rest) - (if NewLine in rest then 1 else 0)]
    ensures NewLine !in Line(rest, false)
  {
    if rest != [] && rest[0] != NewLine {
      LineShape(rest[1..]);
      assert rest == [rest[0]] + rest[1..];
      assert NewLine in rest <==> NewLine in rest[1..];
    }
  }

  // ---------------------------------------------------------------------------
  // Buffer growth in readline_into
  // ---------------------------------------------------------------------------

  /** One growth step of readline_into's buffer: 16 when empty, else double. */
  function Grow(length: nat): (g: nat)
    ensures g > length
  {
    if length == 0 then 16 else 2 * length
  }

  /** The buffer length readline_into ends with after keeping `need` bytes in a
      buffer that started with `length`: grown step by step until it fits. */
  function Capacity(length: nat, need: nat): (c: nat)
    decreases need - length
  {
    if need <= length then length else Capacity(Grow(length), need)
  }

  /** Keeping one more byte grows the buffer exactly when it is full. */
  lemma {:induction false} CapacityStep(length: nat, n: nat)
    ensures Capacity(length, n + 1) ==
      if Capacity(length, n) > n then Capacity(length, n) else Grow(Capacity(length, n))
    decreases n - length
  {
    if n > length {
      CapacityStep(Grow(length), n);
    }
  }

  /** The buffer always fits the line, never shrinks, and is never more than
      one growth step larger than needed: below twice the line, or 16. */
  lemma {:induction false} CapacityBounds(length: nat, need: nat)
    ensures Capacity(length, need) >= need && Capacity(length, need) >= length
    ensures need > length ==> Capacity(length, need) < 2 * need || Capacity(length, need) == 16
    decreases need - length
  {
    if need > length {
      CapacityBounds(Grow(length), need);
    }
  }

  // ---------------------------------------------------------------------------
  // readbyte, readline, readline_into
  // ---------------------------------------------------------------------------

  /** readbyte: the next byte, or "premature end of input stream". */
  method ReadByte(input: ByteStream) returns (r: Result<byte>)
    requires input.Valid()
    modifies input
    ensures input.Valid()
    ensures old(input.Rest()) == [] ==> r == Err(PrematureEnd) && input.Rest() == []
    ensures old(input.Rest()) != [] ==> r == Ok(old(input.Rest())[0]) && input.Rest() == old(input.Rest())[1..]
  {
    var b := input.ReadByte();
    if b < 0 {
      return Err(PrematureEnd);
    }
    r := Ok(b);
  }

  /** readline: the chars of the next line (one char per byte); an error only
      when the input is already at its end. */
  method ReadLine(input: ByteStream, includeLF: bool) returns (r: Result<Text>)
    requires input.Valid()
    modifies input
    ensures input.Valid()
    ensures input.Rest() == old(input.Rest())[LineLength(old(input.Rest()))..]
    ensures old(input.Rest()) == [] ==> r == Err(PrematureEnd)
    ensures old(input.Rest()) != [] ==> r.Ok? && r.value == Line(old(input.Rest()), includeLF)
  {
    ghost var rest0 := input.Rest();
    ghost var pos0 := input.pos;
    var sb: seq<byte> := [];
    while true
      invariant input.Valid() && input.pos == pos0 + |sb| <= |input.data|
      invariant sb == rest0[..|sb|]
      invariant NewLine !in sb
      decreases |input.data| - input.pos
    {
      var c := input.ReadByte();
      if c == -1 {
        if |sb| == 0 {
          return Err(PrematureEnd);
        }
        assert sb == rest0;
        LineOfUnterminated(sb, includeLF);
        break;
      }
      assert c == rest0[|sb|];
      if c == NewLine as int {
        assert rest0 == sb + [NewLine] + rest0[|sb| + 1..];
        LineOfTerminated(sb, rest0[|sb| + 1..], includeLF);
        if includeLF {
          sb := sb + [c];
        }
        break;
      }
      sb := sb + [c];
    }
    r := Ok(sb);
  }

  /** One store of readline_into: `buffer[count++] = c`, after doubling the
      buffer (to 16 when empty) if it is full. */
  method Put(buffer: array<byte>, count: nat, c: byte, ghost startLength: nat) returns (b: array<byte>)
    requires count <= buffer.Length == Capacity(startLength, count)
    modifies buffer
    ensures b == buffer || fresh(b)
    ensures b != buffer <==> count == buffer.Length
    ensures count < b.Length == Capacity(startLength, count + 1)
    ensures b[..count + 1] == old(buffer[..count]) + [c]
  {
    CapacityStep(startLength, count);
    b := buffer;
    if count == b.Length {
      b := Resize(b, Grow(b.Length));
    }
    b[count] := c;
  }

  /** One pass of readline_into's loop, after the line's first bytes `kept`
      (no LF among them) are in buffer[0..count): read a byte and store it
      unless it is an LF that is not wanted. */
  method LineStep(input: ByteStream, buffer: array<byte>, count: nat, includeLF: bool,
                  ghost startLength: nat, ghost rest0: seq<byte>, ghost kept: seq<byte>)
    returns (c: int, b: array<byte>, n: nat)
    requires input.Valid() && |kept| <= |rest0| && input.Rest() == rest0[|kept|..]
    requires kept == rest0[..|kept|] && NewLine !in kept
    requires count == |kept| <= buffer.Length == Capacity(startLength, count) && buffer[..count] == kept
    modifies input, buffer
    ensures input.Valid()
    ensures b == buffer || fresh(b)
    ensures c == -1 ==>
      (kept == rest0 && b == buffer && n == count && b[..n] == kept && input.Rest() == [] &&
       Line(rest0, includeLF) == kept && LineLength(rest0) == |kept|)
    ensures c != -1 ==> |kept| < |rest0| && c == rest0[|kept|] && input.Rest() == rest0[|kept| + 1..]
    ensures c != -1 ==> n <= b.Length == Capacity(startLength, n)
    ensures c != -1 && c != NewLine as int ==> n == count + 1 && b[..n] == kept + [c as byte]
    ensures c == NewLine as int ==>
      (b[..n] == Line(rest0, includeLF) && LineLength(rest0) == |kept| + 1 && (n == count ==> b == buffer))
  {
    c := input.ReadByte();
    b, n := buffer, count;
    if c == -1 {
      assert kept == rest0;
      LineOfUnterminated(kept, includeLF);
      return;
    }
    assert c == rest0[|kept|];
    if c != NewLine as int || includeLF {
      b := Put(buffer, count, c, startLength);
      n := count + 1;
    }
    if c == NewLine as int {
      LineAt(rest0, |kept|, includeLF);
    }
  }

  /** readline_into: the next line into `buffer` (replaced by a larger array
      when it fills up); returns the line length and the buffer now in use. */
  method ReadLineInto(input: ByteStream, buffer: array<byte>, includeLF: bool) returns (r: Result<nat>, buf: array<byte>)
    requires input.Valid()
    modifies input, buffer
    ensures input.Valid()
    ensures buf == buffer || fresh(buf)
    ensures input.Rest() == old(input.Rest())[LineLength(old(input.Rest()))..]
    ensures old(input.Rest()) == [] ==> r == Err(PrematureEnd) && buf == buffer
    ensures old(input.Rest()) != [] ==>
      r.Ok? && r.value <= buf.Length && buf[..r.value] == Line(old(input.Rest()), includeLF) &&
      buf.Length == Capacity(buffer.Length, r.value)
  {
    ghost var rest0 := input.Rest();
    var localBuffer := buffer;
    var count := 0;
    ghost var kept: seq<byte> := [];
    while true
      invariant input.Valid() && |kept| <= |rest0| && input.Rest() == rest0[|kept|..]
      invariant kept == rest0[..|kept|] && NewLine !in kept
      invariant count == |kept| <= localBuffer.Length == Capacity(buffer.Length, count)
      invariant count == 0 ==> localBuffer == buffer
      invariant localBuffer == buffer || fresh(localBuffer)
      invariant localBuffer[..count] == kept
      decreases |rest0| - |kept|
    {
      var c, b, n := LineStep(input, localBuffer, count, includeLF, buffer.Length, rest0, kept);
      if c == -1 {
        if count == 0 {
          return Err(PrematureEnd), localBuffer;
        }
        return Ok(count), localBuffer;
      }
      localBuffer, count := b, n;
      if c == NewLine as int {
        return Ok(count), localBuffer;
      }
      kept := kept + [c as byte];
    }
  }

  // ---------------------------------------------------------------------------
  // readbytes_into and readbytes
  // ---------------------------------------------------------------------------

  /** One pass of readbytes_into's loop: a Read at buffer[offset + done..]
      after `done` bytes of the input have been stored. */
  method ReadStep(input: ByteStream, buffer: array<byte>, off: int, len: int,
                  ghost offset: int, ghost length: int, ghost done: nat,
                  ghost before: seq<byte>, ghost rest0: seq<byte>) returns (read: Result<nat>)
    requires off == offset + done && len == length - done
    requires input.Valid() && done < length && done <= |rest0| && input.Rest() == rest0[done..]
    requires done == 0 ==> buffer[..] == before
    requires done > 0 ==>
      ReadArgumentError(buffer.Length, offset, length).None? &&
      0 <= offset && offset + length <= buffer.Length == |before| &&
      buffer[..] == Splice(before, offset, rest0[..done])
    modifies input, buffer
    ensures input.Valid()
    ensures read.Err? ==>
      done == 0 && ReadArgumentError(buffer.Length, offset, length).Some? &&
      read.error == ReadArgumentError(buffer.Length, offset, length).value &&
      input.pos == old(input.pos) && buffer[..] == before
    ensures read.Ok? ==>
      read.value <= length - done && done + read.value <= |rest0| &&
      (read.value == 0 <==> done == |rest0|) &&
      input.pos == old(input.pos) + read.value &&
      ReadArgumentError(buffer.Length, offset, length).None? &&
      0 <= offset && offset + length <= buffer.Length == |before| &&
      buffer[..] == Splice(before, offset, rest0[..done + read.value])
  {
    ghost var cur := buffer[..];
    read := input.Read(buffer, off, len);
    if read.Ok? {
      ghost var piece := rest0[done..][..read.value];
      if done == 0 {
        assert rest0[..read.value] == piece;
      } else {
        SpliceSplice(before, offset, rest0[..done], piece);
        assert rest0[..done] + piece == rest0[..done + read.value];
      }
    }
  }

  /** readbytes_into: reads exactly `length` bytes into buffer[offset..],
      however few bytes each Stream.Read delivers; "premature end of input
      stream" when the input runs out first (the bytes that did arrive are
      stored). A non-positive length reads nothing. */
  method ReadBytesInto(input: ByteStream, buffer: array<byte>, offset: int, length: int) returns (r: Result<()>)
    requires input.Valid()
    modifies input, buffer
    ensures input.Valid()
    ensures length <= 0 ==> r.Ok? && input.pos == old(input.pos) && buffer[..] == old(buffer[..])
    ensures length > 0 && ReadArgumentError(buffer.Length, offset, length).Some? ==>
      r == Err(ReadArgumentError(buffer.Length, offset, length).value) &&
      input.pos == old(input.pos) && buffer[..] == old(buffer[..])
    ensures length > 0 && ReadArgumentError(buffer.Length, offset, length).None? ==>
      var n := Min(length, |old(input.Rest())|);
      0 <= offset && offset + n <= buffer.Length &&
      buffer[..] == Splice(old(buffer[..]), offset, old(input.Rest())[..n]) &&
      input.Rest() == old(input.Rest())[n..] &&
      (r.Ok? <==> length <= |old(input.Rest())|) &&
      (r.Err? ==> r.error == PrematureEnd)
  {
    ghost var rest0 := input.Rest();
    ghost var pos0 := input.pos;
    ghost var before := buffer[..];
    var off, len := offset, length;
    ghost var done: nat := 0;
    while len > 0
      invariant input.Valid() && input.pos == pos0 + done && done <= |rest0|
      invariant input.Rest() == rest0[done..]
      invariant off == offset + done && len == length - done
      invariant length > 0 ==> done <= length
      invariant length <= 0 ==> done == 0
      invariant done == 0 ==> buffer[..] == before
      invariant done > 0 ==>
        ReadArgumentError(buffer.Length, offset, length).None? &&
        0 <= offset && offset + length <= buffer.Length == |before| &&
        buffer[..] == Splice(before, offset, rest0[..done])
      decreases len
    {
      var read := ReadStep(input, buffer, off, len, offset, length, done, before, rest0);
      if read.Err? {
        return Err(read.error);
      }
      if read.value <= 0 {
        return Err(PrematureEnd);
      }
      off := off + read.value;
      len := len - read.value;
      done := done + read.value;
    }
    r := Ok(());
  }

  /** readbytes(int): a fresh array holding the next n bytes. */
  method ReadBytes(input: ByteStream, n: int) returns (r: Result<array<byte>>)
    requires input.Valid()
    modifies input
    ensures input.Valid()
    ensures n < 0 ==> r == Err(Overflow) && input.pos == old(input.pos)
    ensures 0 <= n <= |old(input.Rest())| ==>
      r.Ok? && fresh(r.value) && r.value[..] == old(input.Rest())[..n] &&
      input.Rest() == old(input.Rest())[n..]
    ensures n > |old(input.Rest())| ==> r == Err(PrematureEnd) && input.Rest() == []
  {
    if n < 0 {
      return Err(Overflow);
    }
    var buffer := new byte[n](_ => 0);
    var read := ReadBytesInto(input, buffer, 0, n);
    if read.Err? {
      return Err(read.error);
    }
    assert buffer[..] == old(input.Rest())[..n];
    r := Ok(buffer);
  }

  /** readbytes(long): the length is first narrowed by CheckedCast, so a
      length above int.MaxValue fails and any other long is read as its low
      32 bits: readbytes at Wrap32(n), with every outcome ReadBytes has. */
  method ReadBytesLong(input: ByteStream, n: int64) returns (r: Result<array<byte>>)
    requires input.Valid()
    modifies input
    ensures input.Valid()
    ensures n > Int32Max ==> r == Err(PickleError(TooLargeMessage(n))) && input.pos == old(input.pos)
    ensures n <= Int32Max && Wrap32(n) < 0 ==> r == Err(Overflow) && input.pos == old(input.pos)
    ensures n <= Int32Max && 0 <= Wrap32(n) <= |old(input.Rest())| ==>
      r.Ok? && fresh(r.value) && r.value[..] == old(input.Rest())[..Wrap32(n)] &&
      input.Rest() == old(input.Rest())[Wrap32(n)..]
    ensures n <= Int32Max && Wrap32(n) > |old(input.Rest())| ==> r == Err(PrematureEnd) && input.Rest() == []
  {
    var m := CheckedCast(n);
    if m.Err? {
      return Err(m.error);
    }
    r := ReadBytes(input, m.value);
  }

  /** readbytes_into(..., long length): the length is first narrowed by
      CheckedCast; below that, readbytes_into at Wrap32(length), with every
      outcome ReadBytesInto has. */
  method ReadBytesIntoLong(input: ByteStream, buffer: array<byte>, offset: int, length: int64) returns (r: Result<()>)
    requires input.Valid()
    modifies input, buffer
    ensures input.Valid()
    ensures length > Int32Max ==>
      r == Err(PickleError(TooLargeMessage(length))) && input.pos == old(input.pos) && buffer[..] == old(buffer[..])
    ensures length <= Int32Max && Wrap32(length) <= 0 ==>
      r.Ok? && input.pos == old(input.pos) && buffer[..] == old(buffer[..])
    ensures length <= Int32Max && Wrap32(length) > 0 &&
            ReadArgumentError(buffer.Length, offset, Wrap32(length)).Some? ==>
      r == Err(ReadArgumentError(buffer.Length, offset, Wrap32(length)).value) &&
      input.pos == old(input.pos) && buffer[..] == old(buffer[..])
    ensures length <= Int32Max && Wrap32(length) > 0 &&
            ReadArgumentError(buffer.Length, offset, Wrap32(length)).None? ==>
      var n := Min(Wrap32(length), |old(input.Rest())|);
      0 <= offset && offset + n <= buffer.Length &&
      buffer[..] == Splice(old(buffer[..]), offset, old(input.Rest())[..n]) &&
      input.Rest() == old(input.Rest())[n..] &&
      (r.Ok? <==> Wrap32(length) <= |old(input.Rest())|) &&
      (r.Err? ==> r.error == PrematureEnd)
  {
    var m := CheckedCast(length);
    if m.Err? {
      return Err(m.error);
    }
    r := ReadBytesInto(input, buffer, offset, m.value);
  }

  /** readbytes(long) on negative lengths: -4294967291 has the low 32 bits of
      5 and reads 5 bytes, while -1 stays -1 and cannot size an array. */
  lemma NegativeLongLengths()
    ensures CheckedCast(-4294967291) == Ok(5)
    ensures CheckedCast(-1) == Ok(-1)
  {
    assert Wrap32(-4294967291) == 5;
  }
}
