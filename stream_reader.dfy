/**
 * StreamReader.cs: the unpickler's input reader over a Stream. It owns one
 * scratch buffer that ReadBytes and ReadLineBytes fill and return a view of,
 * and that it grows (never shrinks) as longer reads come along.
 */
module Reader {
  import opened Wrappers
  import opened PickleUtils
  import opened Streams
  import PickleIO

  /** The buffer length after EnsureByteBufferLength(count): unchanged when it
      already holds count bytes, else the larger of count and twice the old. */
  function EnsuredLength(length: nat, count: int): (n: nat)
  {
    if count > length then (if count > 2 * length then count else 2 * length) else length
  }

  /** EnsureByteBufferLength makes room for count bytes, never shrinks the
      buffer, and a second call with the same count changes nothing. */
  lemma EnsuredLengthProperties(length: nat, count: int)
    ensures EnsuredLength(length, count) >= length
    ensures EnsuredLength(length, count) >= count
    ensures EnsuredLength(EnsuredLength(length, count), count) == EnsuredLength(length, count)
    ensures count > length ==> EnsuredLength(length, count) <= 2 * count
  {
  }

  /** The body of ReadBytes once the buffer holds bytesCount bytes:
      readbytes_into at offset 0, then the span over buffer[0..bytesCount),
      which a negative count cannot form. */
  method ReadSpan(input: ByteStream, buffer: array<byte>, bytesCount: int) returns (r: Result<seq<byte>>)
    requires input.Valid() && bytesCount <= buffer.Length
    modifies input, buffer
    ensures input.Valid()
    ensures bytesCount < 0 ==> r == Err(ArgumentOutOfRange) && input.pos == old(input.pos)
    ensures 0 <= bytesCount <= |old(input.Rest())| ==>
      r == Ok(old(input.Rest())[..bytesCount]) && input.Rest() == old(input.Rest())[bytesCount..]
    ensures bytesCount > |old(input.Rest())| ==> r == Err(PrematureEnd) && input.Rest() == []
    ensures r.Ok? ==> |r.value| <= buffer.Length && buffer[..|r.value|] == r.value
  {
    ghost var rest0 := input.Rest();
    ghost var before := buffer[..];
    var read := PickleIO.ReadBytesInto(input, buffer, 0, bytesCount);
    if read.Err? {
      return Err(read.error);
    }
    if bytesCount < 0 {
      return Err(ArgumentOutOfRange);
    }
    assert bytesCount <= |rest0|;
    assert buffer[..] == Splice(before, 0, rest0[..bytesCount]);
    var view := buffer[..bytesCount];
    assert view == buffer[..][0..bytesCount] == rest0[..bytesCount];
    r := Ok(view);
  }

  class StreamReader {
    const input: ByteStream
    var buffer: array<byte>

    ghost predicate Valid()
      reads this, input
    {
      input.Valid()
    }

    /** A new reader's buffer holds sizeof(long) = 8 bytes. */
    constructor (input: ByteStream)
      requires input.Valid()
      ensures Valid() && this.input == input
      ensures fresh(buffer) && buffer.Length == 8
    {
      this.input := input;
      buffer := new byte[8](_ => 0);
    }

    method EnsureByteBufferLength(bytesCount: int)
      requires Valid()
      modifies this
      ensures Valid()
      ensures buffer.Length == EnsuredLength(old(buffer.Length), bytesCount)
      ensures bytesCount <= old(buffer.Length) ==> buffer == old(buffer)
      ensures bytesCount > old(buffer.Length) ==> fresh(buffer) && buffer[..old(buffer.Length)] == old(buffer[..])
    {
      if bytesCount > buffer.Length {
        var newLength := if bytesCount > 2 * buffer.Length then bytesCount else 2 * buffer.Length;
        buffer := Resize(buffer, newLength);
      }
    }

    method ReadByte() returns (r: Result<byte>)
      requires Valid()
      modifies input
      ensures Valid()
      ensures old(input.Rest()) == [] ==> r == Err(PrematureEnd)
      ensures old(input.Rest()) != [] ==> r == Ok(old(input.Rest())[0]) && input.Rest() == old(input.Rest())[1..]
    {
      r := PickleIO.ReadByte(input);
    }

    /** The next bytesCount bytes, read into the (grown) scratch buffer. A
        negative count reads nothing and fails when the view is taken. */
    method ReadBytes(bytesCount: int) returns (r: Result<seq<byte>>)
      requires Valid()
      modifies this, input, buffer
      ensures Valid()
      ensures buffer.Length == EnsuredLength(old(buffer.Length), bytesCount)
      ensures bytesCount < 0 ==> r == Err(ArgumentOutOfRange) && input.pos == old(input.pos)
      ensures 0 <= bytesCount <= |old(input.Rest())| ==>
        r == Ok(old(input.Rest())[..bytesCount]) && input.Rest() == old(input.Rest())[bytesCount..]
      ensures bytesCount > |old(input.Rest())| ==> r == Err(PrematureEnd) && input.Rest() == []
    ensures r.Ok? ==> |r.value| <= buffer.Length && buffer[..|r.value|] == r.value
    {
      EnsureByteBufferLength(bytesCount);
      EnsuredLengthProperties(old(buffer.Length), bytesCount);
      r := ReadSpan(input, buffer, bytesCount);
    }

    method ReadLine(includeLF: bool) returns (r: Result<Text>)
      requires Valid()
      modifies input
      ensures Valid()
      ensures input.Rest() == old(input.Rest())[PickleIO.LineLength(old(input.Rest()))..]
      ensures old(input.Rest()) == [] ==> r == Err(PrematureEnd)
      ensures old(input.Rest()) != [] ==> r.Ok? && r.value == PickleIO.Line(old(input.Rest()), includeLF)
    {
      r := PickleIO.ReadLine(input, includeLF);
    }

    /** The next line, read into the scratch buffer, which is replaced by the
        grown buffer when readline_into had to enlarge it. */
    method ReadLineBytes(includeLF: bool) returns (r: Result<seq<byte>>)
      requires Valid()
      modifies this, input, buffer
      ensures Valid()
      ensures input.Rest() == old(input.Rest())[PickleIO.LineLength(old(input.Rest()))..]
      ensures old(input.Rest()) == [] ==> r == Err(PrematureEnd) && buffer == old(buffer)
      ensures old(input.Rest()) != [] ==>
        r == Ok(PickleIO.Line(old(input.Rest()), includeLF)) &&
        buffer.Length == PickleIO.Capacity(old(buffer.Length), |r.value|)
    ensures r.Ok? ==> |r.value| <= buffer.Length && buffer[..|r.value|] == r.value
    {
      var length, buf := PickleIO.ReadLineInto(input, buffer, includeLF);
      buffer := buf;
      if length.Err? {
        return Err(length.error);
      }
      r := Ok(buffer[..length.value]);
    }

    /** Skip as written: a seekable stream seeks; any other stream gets a
        single Read whose count is ignored, so it skips at most what one Read
        delivers, and running out of input is not an error. */
    method Skip(bytesCount: int) returns (r: Result<()>)
      requires Valid()
      modifies this, input, buffer
      ensures Valid()
      ensures buffer.Length >= old(buffer.Length)
      ensures input.canSeek && bytesCount >= 0 ==>
        r.Ok? && input.Rest() == old(input.Rest())[Min(bytesCount, |old(input.Rest())|)..]
      ensures !input.canSeek && bytesCount >= 0 ==>
        r.Ok? &&
        input.Rest() == old(input.Rest())[Min(bytesCount, Min(input.chunk, |old(input.Rest())|))..]
    {
      if input.canSeek {
        r := input.Seek(bytesCount);
      } else {
        EnsureByteBufferLength(bytesCount);
        EnsuredLengthProperties(old(buffer.Length), bytesCount);
        var read := input.Read(buffer, 0, bytesCount);
        if read.Err? {
          return Err(read.error);
        }
        r := Ok(());
      }
    }

    /** Skip as evidently intended: exactly bytesCount bytes are passed over on
        every kind of stream, and running out of input is the same error that
        ReadBytes reports. */
    method SkipFully(bytesCount: int) returns (r: Result<()>)
      requires Valid()
      modifies this, input, buffer
      ensures Valid()
      ensures buffer.Length >= old(buffer.Length)
      ensures 0 <= bytesCount <= |old(input.Rest())| ==>
        r.Ok? && input.Rest() == old(input.Rest())[bytesCount..]
      ensures bytesCount > |old(input.Rest())| ==> r == Err(PrematureEnd) && input.Rest() == []
    {
      EnsureByteBufferLength(bytesCount);
      EnsuredLengthProperties(old(buffer.Length), bytesCount);
      r := PickleIO.ReadBytesInto(input, buffer, 0, bytesCount);
    }
  }

  /** A non-seekable stream that hands out 4 bytes per Read: Skip(8) over
      8 bytes leaves 4 of them unread, where SkipFully leaves none. */
  method SkipShortRead() returns (leftAsWritten: nat, leftIntended: nat)
    ensures leftAsWritten == 4
    ensures leftIntended == 0
  {
    var data: seq<byte> := [1, 2, 3, 4, 5, 6, 7, 8];
    var s1 := new ByteStream(data, false, 4);
    var reader1 := new StreamReader(s1);
    var _ := reader1.Skip(8);
    leftAsWritten := |s1.data| - s1.pos;
    var s2 := new ByteStream(data, false, 4);
    var reader2 := new StreamReader(s2);
    var _ := reader2.SkipFully(8);
    leftIntended := |s2.data| - s2.pos;
  }
}
