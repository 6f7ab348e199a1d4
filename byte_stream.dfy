/**
 * The parts of System.IO.Stream and System.Array that the pickle core relies
 * on, over an in-memory byte sequence.
 *
 * A stream is its bytes, whether it can seek, and a read position. `chunk` is
 * the most bytes a single Read call hands back: Stream.Read may return fewer
 * bytes than asked for, and a fixed bound is the simplest deterministic stand-in
 * for that freedom (a MemoryStream is a stream whose chunk is at least its length).
 */
module Streams {
  import opened Wrappers
  import opened PickleUtils

  function Min(a: int, b: int): int
  {
    if a <= b then a else b
  }

  /** The argument checks Stream.Read makes before reading anything. */
  function ReadArgumentError(bufferLength: nat, offset: int, count: int): Option<Error>
  {
    if offset < 0 || count < 0 then Some(ArgumentOutOfRange)
    else if offset + count > bufferLength then Some(ArgumentError("offset and count exceed the buffer"))
    else None
  }

  /** s with piece written over it from index offset on. */
  function Splice(s: seq<byte>, offset: nat, piece: seq<byte>): (r: seq<byte>)
    requires offset + |piece| <= |s|
    ensures |r| == |s|
    ensures r[..offset] == s[..offset] && r[offset..offset + |piece|] == piece
    ensures r[offset + |piece|..] == s[offset + |piece|..]
  {
    var r := s[..offset] + piece + s[offset + |piece|..];
    assert r[..offset] == s[..offset];
    assert r[offset..offset + |piece|] == piece;
    r
  }

  /** Two writes side by side are one write of both pieces. */
  lemma SpliceSplice(s: seq<byte>, offset: nat, a: seq<byte>, b: seq<byte>)
    requires offset + |a| + |b| <= |s|
    ensures Splice(Splice(s, offset, a), offset + |a|, b) == Splice(s, offset, a + b)
  {
    var t := Splice(s, offset, a);
    assert t[..offset + |a|] == s[..offset] + a;
    assert Splice(t, offset + |a|, b) == s[..offset] + a + b + s[offset + |a| + |b|..];
  }

  class ByteStream {
    const data: seq<byte>
    const canSeek: bool
    const chunk: nat
    var pos: nat

    ghost predicate Valid()
      reads this
    {
      0 < chunk && pos <= |data|
    }

    /** The bytes not yet read. */
    function Rest(): seq<byte>
      reads this
      requires Valid()
    {
      data[pos..]
    }

    constructor (data: seq<byte>, canSeek: bool, chunk: nat)
      requires 0 < chunk
      ensures Valid()
      ensures this.data == data && this.canSeek == canSeek && this.chunk == chunk
      ensures pos == 0 && Rest() == data
    {
      this.data := data;
      this.canSeek := canSeek;
      this.chunk := chunk;
      pos := 0;
    }

    /** Stream.ReadByte: the next byte, or -1 at end of input. */
    method ReadByte() returns (c: int)
      requires Valid()
      modifies this
      ensures Valid()
      ensures old(Rest()) == [] ==> c == -1 && pos == old(pos)
      ensures old(Rest()) != [] ==> c == old(Rest())[0] && pos == old(pos) + 1
      ensures Rest() == if old(Rest()) == [] then [] else old(Rest())[1..]
    {
      if pos == |data| {
        c := -1;
      } else {
        c := data[pos];
        pos := pos + 1;
      }
    }

    /** Stream.Read(buffer, offset, count): copies up to count bytes (at most
        `chunk`, at most what is left) to buffer[offset..] and returns how many. */
    method Read(buffer: array<byte>, offset: int, count: int) returns (r: Result<nat>)
      requires Valid()
      modifies this, buffer
      ensures Valid()
      ensures r.Err? <==> ReadArgumentError(buffer.Length, offset, count).Some?
      ensures r.Err? ==> r.error == ReadArgumentError(buffer.Length, offset, count).value
      ensures r.Err? ==> pos == old(pos) && buffer[..] == old(buffer[..])
      ensures r.Ok? ==>
        r.value == Min(count, Min(chunk, |old(Rest())|)) &&
        pos == old(pos) + r.value &&
        buffer[..] == Splice(old(buffer[..]), offset, old(Rest())[..r.value])
    {
      var e := ReadArgumentError(buffer.Length, offset, count);
      if e.Some? {
        return Err(e.value);
      }
      var n := Min(count, Min(chunk, |data| - pos));
      forall i | offset <= i < offset + n {
        buffer[i] := data[pos + i - offset];
      }
      assert buffer[..] == old(buffer[..offset]) + data[pos..pos + n] + old(buffer[offset + n..]);
      assert data[pos..pos + n] == old(Rest())[..n];
      pos := pos + n;
      r := Ok(n);
    }

    /** Stream.Seek(offset, SeekOrigin.Current). Seeking before the start is an
        IOException; seeking past the end leaves nothing more to read. */
    method Seek(offset: int) returns (r: Result<()>)
      requires Valid() && canSeek
      modifies this
      ensures Valid()
      ensures r.Err? <==> old(pos) + offset < 0
      ensures r.Err? ==> r.error == SeekBeforeBegin && pos == old(pos)
      ensures r.Ok? ==> pos == Min(old(pos) + offset, |data|)
      ensures r.Ok? && offset >= 0 ==> Rest() == old(Rest())[Min(offset, |old(Rest())|)..]
    {
      if pos + offset < 0 {
        return Err(SeekBeforeBegin);
      }
      pos := Min(pos + offset, |data|);
      r := Ok(());
    }
  }

  /** Array.Resize: the same array when the length does not change, otherwise
      a fresh array holding the common prefix, padded with zeros. */
  method Resize(a: array<byte>, n: nat) returns (b: array<byte>)
    ensures b.Length == n
    ensures n == a.Length ==> b == a
    ensures n != a.Length ==> fresh(b)
    ensures b[..Min(n, a.Length)] == a[..Min(n, a.Length)]
    ensures forall i :: a.Length <= i < n ==> b[i] == 0
  {
    if n == a.Length {
      return a;
    }
    b := new byte[n](i reads a => if 0 <= i < a.Length then a[i] else 0);
    assert b[..Min(n, a.Length)] == a[..Min(n, a.Length)];
  }
}
