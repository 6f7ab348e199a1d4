/**
 * ByteArrayConstructor, in its .NET and its Java version: builds the byte
 * array for a Python bytes/bytearray from zero arguments, from one byte array
 * or list of ints, or from a string and an encoding name.
 *
 * The two versions dispatch on the arguments in the same way. They differ in
 * the list case: .NET converts each element with Convert.ToByte, which
 * rejects values outside 0..255, while Java keeps the low 8 bits of each
 * number as a signed byte and never rejects a number.
 */
module Encodings {
  import opened PickleUtils

  /** The charset lookup and string encoding of the host platform. */
  datatype Codecs = Codecs(supported: string -> bool, encode: (string, string) -> seq<byte>)

  /** The encoding-name fix-up both versions make: `latin-X` becomes `ISO-8859-X`. */
  function RenameLatin(encoding: string): (r: string)
    ensures |encoding| >= 6 && encoding[..6] == "latin-" ==> r == "ISO-8859-" + encoding[6..]
    ensures !(|encoding| >= 6 && encoding[..6] == "latin-") ==> r == encoding
  {
    if |encoding| >= 6 && encoding[..6] == "latin-" then "ISO-8859-" + encoding[6..] else encoding
  }

  /** Renaming twice is renaming once, and the part after the prefix is kept. */
  lemma RenameLatinProperties(encoding: string)
    ensures RenameLatin(RenameLatin(encoding)) == RenameLatin(encoding)
    ensures |encoding| >= 6 && encoding[..6] == "latin-" ==> RenameLatin(encoding)[9..] == encoding[6..]
    ensures RenameLatin("latin-1") == "ISO-8859-1"
    ensures RenameLatin("utf-8") == "utf-8"
  {
    var r := RenameLatin(encoding);
    if |encoding| >= 6 && encoding[..6] == "latin-" {
      assert r[..6] == "ISO-88";
    }
    assert "latin-1"[..6] == "latin-";
    assert "latin-1"[6..] == "1";
  }
}

/** The .NET ByteArrayConstructor. */
module ByteArrayCSharp {
  import opened Wrappers
  import opened PickleUtils
  import opened Values
  import opened Encodings

  /** Convert.ToByte(object), for the values an unpickled list can hold. A
      string is parsed as plain decimal digits. */
  function ToByte(v: Value): (r: Result<byte>)
    ensures v.Int? ==> (r.Ok? <==> 0 <= v.i < 0x100)
    ensures v.Int? && r.Ok? ==> r.value == v.i
    ensures v.Int? && r.Err? ==> r.error == Overflow
    ensures v.BigInt? || v.Bytes? || v.JavaBytes? || v.List? || v.Dict? ==> r == Err(InvalidCast)
  {
    match v
    case Null => Ok(0)
    case Bool(b) => Ok(if b then 1 else 0)
    case Int(i) => if 0 <= i < 0x100 then Ok(i) else Err(Overflow)
    case Str(s) =>
      (match ParseDecimal(s)
       case None => Err(FormatError)
       case Some(n) => if n < 0x100 then Ok(n) else Err(Overflow))
    case _ => Err(InvalidCast)
  }

  /** The list case: every element converted, or the first failure. */
  function ToBytes(values: seq<Value>): (r: Result<seq<byte>>)
    ensures r.Ok? ==> |r.value| == |values| && forall i :: 0 <= i < |values| ==> ToByte(values[i]) == Ok(r.value[i])
    ensures r.Ok? <==> forall i :: 0 <= i < |values| ==> ToByte(values[i]).Ok?
    ensures r.Err? ==>
      exists i :: (0 <= i < |values| && ToByte(values[i]) == Err(r.error) &&
        forall j :: 0 <= j < i ==> ToByte(values[j]).Ok?)
  {
    if values == [] then Ok([])
    else match ToByte(values[0])
      case Err(e) => Err(e)
      case Ok(b) =>
        var rest := ToBytes(values[1..]);
        assert forall i :: 0 < i < |values| ==> values[i] == values[1..][i - 1];
        match rest
        case Err(e) => Err(e)
        case Ok(bs) => Ok([b] + bs)
  }

  /** A list of ints is converted back to the same bytes exactly when every
      int is in 0..255. */
  lemma ToBytesOfInts(s: seq<int>)
    ensures ToBytes(IntList(s)).Ok? <==> forall i :: 0 <= i < |s| ==> 0 <= s[i] < 0x100
    ensures ToBytes(IntList(s)).Ok? ==> ToBytes(IntList(s)).value == s
  {
    var l := IntList(s);
    assert forall i :: 0 <= i < |s| ==> l[i] == Int(s[i]);
    if ToBytes(l).Ok? {
      assert forall i :: 0 <= i < |s| ==> ToByte(l[i]) == Ok(s[i]);
    }
  }

  function ArgCountMessage(n: nat): string
  {
    "invalid pickle data for bytearray; expected 0, 1 or 2 args, got " + Decimal(n)
  }

  /** The two-argument case: (string) data, (string) encoding, the latin
      rename, Encoding.GetEncoding, then GetBytes. */
  function FromString(data: Value, encoding: Value, codecs: Codecs): (r: Result<seq<byte>>)
    ensures r.Ok? <==> data.Str? && encoding.Str? && codecs.supported(RenameLatin(encoding.s))
    ensures r.Ok? ==> r.value == codecs.encode(RenameLatin(encoding.s), data.s)
  {
    if !(data.Str? || data.Null?) || !(encoding.Str? || encoding.Null?) then Err(InvalidCast)
    else if encoding.Null? then Err(NullReference)
    else
      var name := RenameLatin(encoding.s);
      if !codecs.supported(name) then Err(ArgumentError("not a supported encoding name"))
      else if data.Null? then Err(ArgumentError("value cannot be null"))
      else Ok(codecs.encode(name, data.s))
  }

  /** construct(args). */
  method Construct(args: seq<Value>, codecs: Codecs) returns (r: Result<array<byte>>)
    ensures |args| > 2 ==> r == Err(PickleError(ArgCountMessage(|args|)))
    ensures |args| == 0 ==> r.Ok? && fresh(r.value) && r.value.Length == 0
    ensures |args| == 1 && args[0].Bytes? ==> r == Ok(args[0].bytes)
    ensures |args| == 1 && args[0].List? ==>
      (r.Ok? <==> ToBytes(args[0].items).Ok?) &&
      (r.Ok? ==> fresh(r.value) && r.value[..] == ToBytes(args[0].items).value) &&
      (r.Err? ==> r.error == ToBytes(args[0].items).error)
    ensures |args| == 1 && args[0].Null? ==> r == Err(NullReference)
    ensures |args| == 1 && !(args[0].Bytes? || args[0].List? || args[0].Null?) ==> r == Err(InvalidCast)
    ensures |args| == 2 ==>
      var bytes := FromString(args[0], args[1], codecs);
      (r.Ok? <==> bytes.Ok?) && (r.Ok? ==> fresh(r.value) && r.value[..] == bytes.value) &&
      (r.Err? ==> r.error == bytes.error)
  {
    if |args| > 2 {
      return Err(PickleError(ArgCountMessage(|args|)));
    }
    if |args| == 0 {
      var empty := new byte[0];
      return Ok(empty);
    }
    if |args| == 1 {
      match args[0]
      case Bytes(bytes) =>
        return Ok(bytes);
      case List(values) =>
        var data := new byte[|values|](_ => 0);
        for i := 0 to data.Length
          invariant forall j :: 0 <= j < i ==> ToByte(values[j]) == Ok(data[j])
        {
          var b := ToByte(values[i]);
          if b.Err? {
            ToBytesFirstError(values, i);
            return Err(b.error);
          }
          data[i] := b.value;
        }
        assert forall j :: 0 <= j < |values| ==> ToByte(values[j]).Ok?;
        return Ok(data);
      case Null =>
        return Err(NullReference);
      case _ =>
        return Err(InvalidCast);
    }
    var bytes := FromString(args[0], args[1], codecs);
    if bytes.Err? {
      return Err(bytes.error);
    }
    var out := new byte[|bytes.value|](i requires 0 <= i < |bytes.value| => bytes.value[i]);
    r := Ok(out);
  }

  /** When element i is the first that fails, ToBytes reports its error. */
  lemma {:induction false} ToBytesFirstError(values: seq<Value>, i: nat)
    requires i < |values| && ToByte(values[i]).Err?
    requires forall j :: 0 <= j < i ==> ToByte(values[j]).Ok?
    ensures ToBytes(values) == Err(ToByte(values[i]).error)
  {
    if i > 0 {
      assert forall j :: 0 <= j < i - 1 ==> values[1..][j] == values[j + 1];
      ToBytesFirstError(values[1..], i - 1);
    }
  }
}

/** The Java ByteArrayConstructor. */
module ByteArrayJava {
  import opened Wrappers
  import opened PickleUtils
  import opened Values
  import opened Encodings

  /** Number.byteValue(): the low 8 bits, as a signed byte. */
  function Wrap8(v: int): (b: int8)
    ensures (b - v) % 0x100 == 0
  {
    (v % 0x100 + 0x80) % 0x100 - 0x80
  }

  /** byteValue keeps small values, and reads a byte 0..255 as the signed byte
      with the same bits. */
  lemma Wrap8Properties(v: int, b: byte)
    ensures -0x80 <= v < 0x80 ==> Wrap8(v) == v
    ensures Wrap8(v + 0x100) == Wrap8(v)
    ensures Wrap8(b) == Signed([b])
  {
    assert [b][|[b]| - 1] == b;
    assert Unsigned([b]) == b + 256 * Unsigned([]);
  }

  /** One list element: a Number's byteValue; anything else fails the cast. */
  function ByteValue(v: Value): (r: Result<int8>)
    ensures v.Int? || v.BigInt? ==> r == Ok(Wrap8(v.i))
    ensures v.Null? ==> r == Err(NullReference)
    ensures !(v.Int? || v.BigInt? || v.Null?) ==> r == Err(InvalidCast)
  {
    match v
    case Int(i) => Ok(Wrap8(i))
    case BigInt(i) => Ok(Wrap8(i))
    case Null => Err(NullReference)
    case _ => Err(InvalidCast)
  }

  /** A list of ints, unlike in the .NET version, always converts. */
  lemma ByteValuesOfInts(s: seq<int>)
    ensures forall i :: 0 <= i < |s| ==> ByteValue(IntList(s)[i]) == Ok(Wrap8(s[i]))
  {
  }

  function ArgCountMessage(n: nat): string
  {
    "invalid pickle data for bytearray; expected 0, 1 or 2 args, got " + Decimal(n)
  }

  /** The two-argument case: the casts, the latin rename, then
      String.getBytes, whose UnsupportedEncodingException is wrapped. */
  function FromString(data: Value, encoding: Value, codecs: Codecs): (r: Result<seq<int8>>)
    ensures r.Ok? <==> data.Str? && encoding.Str? && codecs.supported(RenameLatin(encoding.s))
    ensures r.Ok? ==>
      (|r.value| == |codecs.encode(RenameLatin(encoding.s), data.s)| &&
       forall i :: 0 <= i < |r.value| ==> r.value[i] == Wrap8(codecs.encode(RenameLatin(encoding.s), data.s)[i]))
    ensures data.Str? && encoding.Str? && !codecs.supported(RenameLatin(encoding.s)) ==>
      r == Err(PickleError("error creating bytearray: java.io.UnsupportedEncodingException: " + RenameLatin(encoding.s)))
  {
    if !(data.Str? || data.Null?) || !(encoding.Str? || encoding.Null?) then Err(InvalidCast)
    else if encoding.Null? || data.Null? then Err(NullReference)
    else
      var name := RenameLatin(encoding.s);
      if !codecs.supported(name) then
        var e: Result<seq<int8>> := Err(PickleError("error creating bytearray: java.io.UnsupportedEncodingException: " + name));
        e
      else
        var bytes := codecs.encode(name, data.s);
        Ok(seq(|bytes|, i requires 0 <= i < |bytes| => Wrap8(bytes[i])))
  }

  /** construct(args). */
  method Construct(args: seq<Value>, codecs: Codecs) returns (r: Result<array<int8>>)
    ensures |args| > 2 ==> r == Err(PickleError(ArgCountMessage(|args|)))
    ensures |args| == 0 ==> r.Ok? && fresh(r.value) && r.value.Length == 0
    ensures |args| == 1 && args[0].JavaBytes? ==> r == Ok(args[0].jbytes)
    ensures |args| == 1 && args[0].List? ==>
      var values := args[0].items;
      (r.Ok? <==> forall i :: 0 <= i < |values| ==> ByteValue(values[i]).Ok?) &&
      (r.Ok? ==>
        fresh(r.value) && r.value.Length == |values| &&
        forall i :: 0 <= i < |values| ==> ByteValue(values[i]) == Ok(r.value[i]))
    ensures |args| == 1 && args[0].Null? ==> r == Err(NullReference)
    ensures |args| == 1 && !(args[0].JavaBytes? || args[0].List? || args[0].Null?) ==> r == Err(InvalidCast)
    ensures |args| == 2 ==>
      var bytes := FromString(args[0], args[1], codecs);
      (r.Ok? <==> bytes.Ok?) && (r.Ok? ==> fresh(r.value) && r.value[..] == bytes.value) &&
      (r.Err? ==> r.error == bytes.error)
  {
    if |args| > 2 {
      return Err(PickleError(ArgCountMessage(|args|)));
    }
    if |args| == 0 {
      var empty := new int8[0];
      return Ok(empty);
    }
    if |args| == 1 {
      match args[0]
      case JavaBytes(bytes) =>
        return Ok(bytes);
      case List(values) =>
        var data := new int8[|values|](_ => 0);
        for i := 0 to data.Length
          invariant forall j :: 0 <= j < i ==> ByteValue(values[j]) == Ok(data[j])
        {
          var b := ByteValue(values[i]);
          if b.Err? {
            return Err(b.error);
          }
          data[i] := b.value;
        }
        return Ok(data);
      case Null =>
        return Err(NullReference);
      case _ =>
        return Err(InvalidCast);
    }
    var bytes := FromString(args[0], args[1], codecs);
    if bytes.Err? {
      return Err(bytes.error);
    }
    var out := new int8[|bytes.value|](i requires 0 <= i < |bytes.value| => bytes.value[i]);
    r := Ok(out);
  }
}
