/**
 * The number codec of PickleUtils.cs: fixed-width little-endian integers, the
 * arbitrary-length two's-complement decoder behind LONG1/LONG4, the raw
 * byte <-> char mapping and the long -> int length cast.
 *
 * Only the host-independent results are modelled: on a big-endian host the
 * source swaps bytes before calling BitConverter and gets the same values.
 */
module PickleUtils {
  import opened Wrappers

  type byte = b: int | 0 <= b < 0x100
  type int32 = x: int | -0x8000_0000 <= x < 0x8000_0000
  type uint32 = x: int | 0 <= x < 0x1_0000_0000
  type int64 = x: int | -0x8000_0000_0000_0000 <= x < 0x8000_0000_0000_0000
  /** A .NET char: one UTF-16 code unit (lone surrogates included). */
  type CodeUnit = c: int | 0 <= c < 0x1_0000
  /** A .NET string. */
  type Text = seq<CodeUnit>

  const Int32Max: int := 0x7fff_ffff

  predicate InInt32(x: int) { -0x8000_0000 <= x < 0x8000_0000 }
  predicate InUInt32(x: int) { 0 <= x < 0x1_0000_0000 }
  predicate InInt64(x: int) { -0x8000_0000_0000_0000 <= x < 0x8000_0000_0000_0000 }

  // ---------------------------------------------------------------------------
  // Reference definitions: the value of little-endian bytes
  // ---------------------------------------------------------------------------

  function Pow256(n: nat): (p: int)
    ensures p >= 1
  {
    if n == 0 then 1 else 256 * Pow256(n - 1)
  }

  /** Half of 256^n: the bound of the n-byte signed range. */
  function Half(n: nat): (h: int)
    requires n > 0
    ensures h >= 128 && Pow256(n) == 2 * h
  {
    128 * Pow256(n - 1)
  }

  /** The unsigned value of a little-endian byte sequence. */
  function Unsigned(s: seq<byte>): (v: nat)
  {
    if s == [] then 0 else s[0] + 256 * Unsigned(s[1..])
  }

  /** The two's-complement value of a little-endian byte sequence: the top bit
      of the last byte is the sign. The empty sequence is zero. */
  function Signed(s: seq<byte>): (v: int)
  {
    if s != [] && s[|s| - 1] >= 0x80 then Unsigned(s) - Pow256(|s|) else Unsigned(s)
  }

  /** The n little-endian bytes of v modulo 256^n (the encoding direction). */
  function LittleEndianOf(v: nat, n: nat): (s: seq<byte>)
    ensures |s| == n
  {
    if n == 0 then [] else [v % 256] + LittleEndianOf(v / 256, n - 1)
  }

  /** The n-byte two's-complement encoding of v (v taken modulo 256^n). */
  function TwosComplementOf(v: int, n: nat): (s: seq<byte>)
    ensures |s| == n
  {
    LittleEndianOf(v % Pow256(n), n)
  }

  // ---------------------------------------------------------------------------
  // Lemmas about the reference definitions
  // ---------------------------------------------------------------------------

  lemma {:induction false} UnsignedAppend(a: seq<byte>, b: seq<byte>)
    ensures Unsigned(a + b) == Unsigned(a) + Pow256(|a|) * Unsigned(b)
  {
    if a == [] {
      assert a + b == b;
    } else {
      assert (a + b)[1..] == a[1..] + b;
      UnsignedAppend(a[1..], b);
      var x, y, p := Unsigned(a[1..]), Unsigned(b), Pow256(|a| - 1);
      assert Unsigned(a + b) == a[0] + 256 * (x + p * y);
      MulDistrib(256, x, p, y);
    }
  }

  lemma MulDistrib(c: int, x: int, p: int, y: int)
    ensures c * (x + p * y) == c * x + (c * p) * y
  {
  }

  lemma {:induction false} UnsignedBound(s: seq<byte>)
    ensures Unsigned(s) < Pow256(|s|)
  {
    if s != [] {
      UnsignedBound(s[1..]);
      assert Unsigned(s) <= 255 + 256 * (Pow256(|s| - 1) - 1);
    }
  }

  /** Splitting off the last byte, which carries the sign. */
  lemma UnsignedLast(s: seq<byte>)
    requires s != []
    ensures Unsigned(s) == Unsigned(s[..|s| - 1]) + Pow256(|s| - 1) * s[|s| - 1]
    ensures Unsigned(s[..|s| - 1]) < Pow256(|s| - 1)
  {
    var init := s[..|s| - 1];
    assert s == init + [s[|s| - 1]];
    UnsignedAppend(init, [s[|s| - 1]]);
    assert Unsigned([s[|s| - 1]]) == s[|s| - 1] by {
      assert [s[|s| - 1]][1..] == [];
    }
    UnsignedBound(init);
  }

  /** A non-empty sequence of n bytes decodes into [-256^n / 2, 256^n / 2). */
  lemma SignedRange(s: seq<byte>)
    requires s != []
    ensures -Half(|s|) <= Signed(s) < Half(|s|)
    ensures Signed(s) < 0 <==> s[|s| - 1] >= 0x80
  {
    SignBitBound(s);
    UnsignedBound(s);
  }

  /** The sign bit is set exactly when the unsigned value reaches half the range. */
  lemma SignBitBound(s: seq<byte>)
    requires s != []
    ensures s[|s| - 1] >= 0x80 <==> Unsigned(s) >= Half(|s|)
  {
    var p := Pow256(|s| - 1);
    var last: int := s[|s| - 1];
    UnsignedLast(s);
    if last >= 0x80 {
      MulAtLeast(p, last, 128);
    } else {
      MulAtLeast(p, 127, last);
      assert Unsigned(s) < p + 127 * p;
    }
  }

  lemma MulAtLeast(m: int, x: int, y: int)
    requires m >= 0 && x >= y
    ensures m * x >= m * y
  {
    assert m * x == m * y + m * (x - y);
  }

  lemma {:induction false} LittleEndianOfValue(v: nat, n: nat)
    ensures Unsigned(LittleEndianOf(v, n)) == v % Pow256(n)
  {
    if n > 0 {
      var s := LittleEndianOf(v, n);
      assert s[1..] == LittleEndianOf(v / 256, n - 1);
      LittleEndianOfValue(v / 256, n - 1);
      var p := Pow256(n - 1);
      var q := v / 256;
      // v == 256 * q + v % 256 and q == p * (q / p) + q % p
      assert v == 256 * p * (q / p) + (256 * (q % p) + v % 256);
      ModUnique(v, 256 * p, q / p, 256 * (q % p) + v % 256);
    }
  }

  lemma ModUnique(v: int, m: int, k: int, b: int)
    requires m > 0 && 0 <= b < m && v == m * k + b
    ensures v % m == b && v / m == k
  {
    var r := v % m;
    var d := v / m;
    assert v == m * d + r;
    if k > d {
      MulAtLeast(m, k, d + 1);
    } else if k < d {
      MulAtLeast(m, d, k + 1);
    }
  }

  /** Encoding the value of a byte sequence gives back the sequence. */
  lemma {:induction false} LittleEndianOfUnsigned(s: seq<byte>)
    ensures LittleEndianOf(Unsigned(s), |s|) == s
  {
    if s != [] {
      var u := Unsigned(s);
      assert u == s[0] + 256 * Unsigned(s[1..]);
      assert u % 256 == s[0] && u / 256 == Unsigned(s[1..]) by {
        ModUnique(u, 256, Unsigned(s[1..]), s[0]);
      }
      LittleEndianOfUnsigned(s[1..]);
    }
  }

  /** Decoding inverts the n-byte two's-complement encoding on its whole range. */
  lemma SignedOfTwosComplement(v: int, n: nat)
    requires n > 0 && -Half(n) <= v < Half(n)
    ensures Signed(TwosComplementOf(v, n)) == v
  {
    var p := Pow256(n);
    var u := v % p;
    var s := TwosComplementOf(v, n);
    assert s == LittleEndianOf(u, n);
    LittleEndianOfValue(u, n);
    ModUnique(u, p, 0, u);
    assert Unsigned(s) == u;
    SignBitBound(s);
    if v >= 0 {
      ModUnique(v, p, 0, v);
      assert u == v < Half(n);
    } else {
      ModUnique(v, p, -1, v + p);
      assert u == v + p >= Half(n);
    }
  }

  /** Encoding the decoded value gives back the bytes: together with
      SignedOfTwosComplement, Signed is a bijection between n-byte sequences and
      the n-byte signed range. */
  lemma TwosComplementOfSigned(s: seq<byte>)
    ensures TwosComplementOf(Signed(s), |s|) == s
  {
    var p := Pow256(|s|);
    UnsignedBound(s);
    if s != [] && s[|s| - 1] >= 0x80 {
      ModUnique(Signed(s), p, -1, Unsigned(s));
    } else {
      ModUnique(Signed(s), p, 0, Unsigned(s));
    }
    LittleEndianOfUnsigned(s);
  }

  /** Appending sign bytes (0x00 for a non-negative, 0xff for a negative value)
      does not change the two's-complement value. */
  lemma SignExtend(s: seq<byte>, k: nat)
    requires s != []
    ensures Signed(s + SignBytes(s, k)) == Signed(s)
  {
    var pad := SignBytes(s, k);
    var t := s + pad;
    if k == 0 {
      assert t == s;
    } else {
      UnsignedAppend(s, pad);
      PowAdd(|s|, k);
      var ps, pk := Pow256(|s|), Pow256(k);
      assert t[|t| - 1] == pad[k - 1];
      if s[|s| - 1] >= 0x80 {
        AllFF(k);
        MulDistrib(ps, pk, -1, 1);
      } else {
        AllZero(k);
      }
    }
  }

  function SignBytes(s: seq<byte>, k: nat): (pad: seq<byte>)
    requires s != []
    ensures |pad| == k
  {
    seq(k, _ => if s[|s| - 1] >= 0x80 then 0xff else 0)
  }

  lemma {:induction false} PowAdd(a: nat, b: nat)
    ensures Pow256(a + b) == Pow256(a) * Pow256(b)
  {
    if a > 0 {
      PowAdd(a - 1, b);
    }
  }

  lemma {:induction false} AllFF(k: nat)
    ensures Unsigned(seq(k, _ => 0xff)) == Pow256(k) - 1
  {
    if k > 0 {
      var s: seq<byte> := seq(k, _ => 0xff);
      assert s[1..] == seq(k - 1, _ => 0xff);
      AllFF(k - 1);
    }
  }

  lemma {:induction false} AllZero(k: nat)
    ensures Unsigned(seq(k, _ => 0)) == 0
  {
    if k > 0 {
      var s: seq<byte> := seq(k, _ => 0);
      assert s[1..] == seq(k - 1, _ => 0);
      AllZero(k - 1);
    }
  }

  // ---------------------------------------------------------------------------
  // bytes_to_integer, bytes_to_long, bytes_to_uint, integer_to_bytes
  // ---------------------------------------------------------------------------

  /** bytes_to_integer: size 2 is an unsigned 16-bit value, size 4 a signed
      32-bit value, every other size a PickleException. BitConverter rejects an
      offset past the end (ArgumentOutOfRangeException) and a slice that runs
      past the end (ArgumentException). */
  function BytesToInteger(bytes: seq<byte>, offset: int32, size: int32): (r: Result<int>)
    ensures size != 2 && size != 4 ==> r == Err(PickleError(InvalidSizeMessage(size)))
    ensures (size == 2 || size == 4) && !(0 <= offset < |bytes|) ==> r == Err(ArgumentOutOfRange)
    ensures (size == 2 || size == 4) ==> (r.Ok? <==> 0 <= offset && offset + size <= |bytes|)
    ensures size == 2 && r.Ok? ==> 0 <= r.value < 0x1_0000 && r.value == Unsigned(bytes[offset..offset + 2])
    ensures size == 4 && r.Ok? ==> InInt32(r.value) && r.value == Signed(bytes[offset..offset + 4])
  {
    if size != 2 && size != 4 then Err(PickleError(InvalidSizeMessage(size)))
    else if offset < 0 || offset >= |bytes| then Err(ArgumentOutOfRange)
    else if offset + size > |bytes| then Err(ArgumentError("array plus offset too small"))
    else
      var s := bytes[offset..offset + size];
      SignedSmall(s);
      if size == 2 then Ok(s[0] as int + 256 * (s[1] as int))
      else
        var u := s[0] as int + 256 * (s[1] as int) + 0x1_0000 * (s[2] as int) + 0x100_0000 * (s[3] as int);
        Ok(if u >= 0x8000_0000 then u - 0x1_0000_0000 else u)
  }

  /** The message for a size other than 2 or 4, which shows the size. */
  function InvalidSizeMessage(size: int): string
  {
    "invalid amount of bytes to convert to int: " + IntDecimal(size)
  }

  /** The 2- and 4-byte values spelled out, and their ranges. */
  lemma SignedSmall(s: seq<byte>)
    ensures |s| == 2 ==> Unsigned(s) == s[0] as int + 256 * (s[1] as int) < 0x1_0000
    ensures |s| == 4 ==> Unsigned(s) == s[0] as int + 256 * (s[1] as int) + 0x1_0000 * (s[2] as int) + 0x100_0000 * (s[3] as int)
    ensures |s| == 4 ==> InInt32(Signed(s))
    ensures |s| == 4 ==> (Signed(s) < 0 <==> Unsigned(s) >= 0x8000_0000)
  {
    if |s| == 2 {
      assert s[1..][1..] == [];
    }
    if |s| == 4 {
      assert s[1..][1..][1..][1..] == [];
      assert Pow256(4) == 0x1_0000_0000;
      SignedRange(s);
    }
  }

  /** bytes_to_long: a PickleException when bytes.Length - offset, an int
      subtraction that wraps, is below 8; then BitConverter's
      ArgumentOutOfRangeException for a negative offset; else the signed
      64-bit little-endian value. For an array of at most int.MaxValue bytes
      this succeeds exactly when 8 bytes follow a valid offset. */
  function BytesToLong(bytes: seq<byte>, offset: int32): (r: Result<int>)
    ensures r == Err(PickleError("too few bytes to convert to long")) <==> Wrap32(|bytes| - offset) < 8
    ensures Wrap32(|bytes| - offset) >= 8 && offset < 0 ==> r == Err(ArgumentOutOfRange)
    ensures |bytes| <= Int32Max ==> (r.Ok? <==> 0 <= offset && offset + 8 <= |bytes|)
    ensures r.Ok? ==>
      0 <= offset && offset + 8 <= |bytes| && InInt64(r.value) && r.value == Signed(bytes[offset..offset + 8])
  {
    RemainingWraps(|bytes|, offset, 8);
    if Wrap32(|bytes| - offset) < 8 then Err(PickleError("too few bytes to convert to long"))
    else if offset < 0 then Err(ArgumentOutOfRange)
    else
      var s := bytes[offset..offset + 8];
      SignedRange(s);
      assert Pow256(8) == 0x1_0000_0000_0000_0000;
      Ok(Signed(s))
  }

  /** bytes_to_uint: the checks of bytes_to_long (with its message) for 4
      bytes, else the unsigned 32-bit little-endian value. */
  function BytesToUint(bytes: seq<byte>, offset: int32): (r: Result<int>)
    ensures r == Err(PickleError("too few bytes to convert to long")) <==> Wrap32(|bytes| - offset) < 4
    ensures Wrap32(|bytes| - offset) >= 4 && offset < 0 ==> r == Err(ArgumentOutOfRange)
    ensures |bytes| <= Int32Max ==> (r.Ok? <==> 0 <= offset && offset + 4 <= |bytes|)
    ensures r.Ok? ==>
      0 <= offset && offset + 4 <= |bytes| && InUInt32(r.value) && r.value == Unsigned(bytes[offset..offset + 4])
  {
    RemainingWraps(|bytes|, offset, 4);
    if Wrap32(|bytes| - offset) < 4 then Err(PickleError("too few bytes to convert to long"))
    else if offset < 0 then Err(ArgumentOutOfRange)
    else
      var s := bytes[offset..offset + 4];
      UnsignedBound(s);
      assert Pow256(4) == 0x1_0000_0000;
      Ok(Unsigned(s))
  }

  /** The int subtraction length - offset of bytes_to_long and bytes_to_uint
      is exact in the int range, and is at least its wrapped value's lower
      bound for a non-negative offset. */
  lemma RemainingWraps(length: nat, offset: int32, need: nat)
    requires need <= 8
    ensures InInt32(length - offset) ==> Wrap32(length - offset) == length - offset
    ensures 0 <= offset && Wrap32(length - offset) >= need ==> length - offset >= need
  {
    if InInt32(length - offset) {
      Wrap32OfInt32(length - offset);
    }
  }

  /** The (int) cast leaves every int unchanged. */
  lemma Wrap32OfInt32(x: int)
    requires InInt32(x)
    ensures Wrap32(x) == x
  {
    ModUnique(x + 0x8000_0000, 0x1_0000_0000, 0, x + 0x8000_0000);
  }

  /** integer_to_bytes: the 4 little-endian bytes of i, which bytes_to_integer
      decodes back to i. */
  function IntegerToBytes(i: int32): (r: seq<byte>)
    ensures |r| == 4
    ensures BytesToInteger(r, 0, 4) == Ok(i)
  {
    var r := TwosComplementOf(i, 4);
    assert Pow256(4) == 0x1_0000_0000;
    SignedOfTwosComplement(i, 4);
    assert r[0..4] == r;
    r
  }

  /** bytes_to_long inverts the 8-byte encoding of every 64-bit value. */
  lemma LongRoundTrip(v: int64)
    ensures BytesToLong(TwosComplementOf(v, 8), 0) == Ok(v)
  {
    assert Pow256(8) == 0x1_0000_0000_0000_0000;
    SignedOfTwosComplement(v, 8);
    assert TwosComplementOf(v, 8)[0..8] == TwosComplementOf(v, 8);
  }

  /** bytes_to_uint inverts the 4-byte encoding of every unsigned 32-bit value. */
  lemma UintRoundTrip(v: uint32)
    ensures BytesToUint(LittleEndianOf(v, 4), 0) == Ok(v)
  {
    assert Pow256(4) == 0x1_0000_0000;
    LittleEndianOfValue(v, 4);
    ModUnique(v, 0x1_0000_0000, 0, v);
    assert LittleEndianOf(v, 4)[0..4] == LittleEndianOf(v, 4);
  }

  // ---------------------------------------------------------------------------
  // decode_long
  // ---------------------------------------------------------------------------

  /** What decode_long returns: a boxed long for up to 8 bytes, a BigInteger beyond. */
  datatype LongValue = Int64(value: int) | BigInteger(value: int)

  /** ReadInt64LittleEndian on exactly 8 bytes. */
  function ReadInt64LittleEndian(s: seq<byte>): (v: int)
    requires |s| == 8
    ensures InInt64(v)
  {
    SignedRange(s);
    assert Pow256(8) == 0x1_0000_0000_0000_0000;
    Signed(s)
  }

  /** decode_long: the little-endian two's-complement value of the data, with
      no truncation; a long (in the 64-bit range) for at most 8 bytes, a
      BigInteger for more. Shorter inputs are sign-extended to 8 bytes first. */
  method DecodeLong(data: seq<byte>) returns (r: LongValue)
    ensures r.value == Signed(data)
    ensures r.Int64? <==> |data| <= 8
    ensures r.Int64? ==> InInt64(r.value)
  {
    if |data| == 0 {
      return Int64(0);
    }
    if |data| > 8 {
      // new BigInteger(byte[]) reads little-endian two's complement
      return BigInteger(Signed(data));
    }
    if |data| == 8 {
      return Int64(ReadInt64LittleEndian(data));
    }
    var larger := new byte[8](_ => 0);
    var i := 0;
    while i < |data|
      invariant 0 <= i <= |data|
      invariant forall j :: 0 <= j < i ==> larger[j] == data[j]
      invariant forall j :: i <= j < 8 ==> larger[j] == 0
    {
      larger[i] := data[i];
      i := i + 1;
    }
    if data[|data| - 1] >= 0x80 {
      i := |data|;
      while i < 8
        invariant |data| <= i <= 8
        invariant forall j :: 0 <= j < |data| ==> larger[j] == data[j]
        invariant forall j :: |data| <= j < i ==> larger[j] == 0xff
      {
        larger[i] := 0xff;
        i := i + 1;
      }
    }
    assert larger[..] == data + SignBytes(data, 8 - |data|);
    SignExtend(data, 8 - |data|);
    r := Int64(ReadInt64LittleEndian(larger[..]));
  }

  // ---------------------------------------------------------------------------
  // rawStringFromBytes, str2bytes
  // ---------------------------------------------------------------------------

  /** rawStringFromBytes: char i has the code of byte i. */
  method RawStringFromBytes(data: seq<byte>) returns (s: Text)
    ensures |s| == |data|
    ensures forall i :: 0 <= i < |data| ==> s[i] == data[i]
  {
    var result := new CodeUnit[|data|];
    for i := 0 to |data|
      invariant forall j :: 0 <= j < i ==> result[j] == data[j]
    {
      result[i] := data[i];
    }
    s := result[..];
  }

  /** str2bytes: byte i is the code of char i; an ArgumentException when some
      char is above 255. */
  method Str2Bytes(str: Text) returns (r: Result<seq<byte>>)
    ensures r.Ok? <==> forall i :: 0 <= i < |str| ==> str[i] <= 255
    ensures r.Err? ==> r.error == ArgumentError("string contained a char > 255, cannot convert to bytes")
    ensures r.Ok? ==> |r.value| == |str| && forall i :: 0 <= i < |str| ==> r.value[i] == str[i]
  {
    var b := new byte[|str|];
    for i := 0 to |str|
      invariant forall j :: 0 <= j < i ==> str[j] <= 255 && b[j] == str[j]
    {
      var c := str[i];
      if c > 255 {
        return Err(ArgumentError("string contained a char > 255, cannot convert to bytes"));
      }
      b[i] := c;
    }
    r := Ok(b[..]);
  }

  /** str2bytes undoes rawStringFromBytes. */
  method BytesRoundTrip(data: seq<byte>) returns (r: Result<seq<byte>>)
    ensures r == Ok(data)
  {
    var s := RawStringFromBytes(data);
    r := Str2Bytes(s);
    assert r.value == data;
  }

  /** rawStringFromBytes undoes str2bytes on every string whose chars are all below 256. */
  method TextRoundTrip(str: Text) returns (back: Option<Text>)
    ensures (forall i :: 0 <= i < |str| ==> str[i] <= 255) <==> back == Some(str)
  {
    var b := Str2Bytes(str);
    if b.Ok? {
      var s := RawStringFromBytes(b.value);
      assert s == str;
      back := Some(s);
    } else {
      back := None;
    }
  }

  // ---------------------------------------------------------------------------
  // CheckedCast
  // ---------------------------------------------------------------------------

  /** The C# (int) cast of a long: the low 32 bits, read as signed. */
  function Wrap32(x: int): (r: int32)
  {
    (x + 0x8000_0000) % 0x1_0000_0000 - 0x8000_0000
  }

  /** CheckedCast: a PickleException above int.MaxValue; otherwise the
      unchecked (int) cast, which keeps every value in the int range and wraps
      values below int.MinValue. */
  function CheckedCast(length: int64): (r: Result<int32>)
    ensures r.Err? <==> length > Int32Max
    ensures r.Err? ==> r.error == PickleError(TooLargeMessage(length))
    ensures r.Ok? && -0x8000_0000 <= length ==> r.value == length
    ensures r.Ok? ==> (r.value - length) % 0x1_0000_0000 == 0 && r.value == Wrap32(length)
  {
    if length > Int32Max then Err(PickleError(TooLargeMessage(length)))
    else
      var w := Wrap32(length);
      assert -0x8000_0000 <= length ==> w == length by {
        if -0x8000_0000 <= length { ModUnique(length + 0x8000_0000, 0x1_0000_0000, 0, length + 0x8000_0000); }
      }
      Ok(w)
  }

  /** The message of the PickleException for a length above int.MaxValue,
      which shows the length in decimal. */
  function TooLargeMessage(length: nat): string
  {
    "pickle too large (" + Decimal(length) + "), can't read more than maxint"
  }

  // ---------------------------------------------------------------------------
  // Decimal rendering of integers
  // ---------------------------------------------------------------------------

  /** The decimal digits of n, as string concatenation prints an int. */
  function Decimal(n: nat): (s: string)
    ensures |s| > 0
    ensures forall i :: 0 <= i < |s| ==> '0' <= s[i] <= '9'
  {
    var d := ['0', '1', '2', '3', '4', '5', '6', '7', '8', '9'][n % 10];
    if n < 10 then [d] else Decimal(n / 10) + [d]
  }

  /** An int as string concatenation prints it: a minus sign before the
      digits of a negative number. */
  function IntDecimal(n: int): (s: string)
    ensures |s| > 0 && (s[0] == '-' <==> n < 0)
    ensures n >= 0 ==> s == Decimal(n)
    ensures n < 0 ==> s[1..] == Decimal(-n)
  {
    if n < 0 then "-" + Decimal(-n) else Decimal(n)
  }

  /** The value of a string of decimal digits, None for anything else. */
  function ParseDecimal(s: string): (r: Option<nat>)
    ensures r.Some? <==> |s| > 0 && forall i :: 0 <= i < |s| ==> '0' <= s[i] <= '9'
  {
    if s == [] || !('0' <= s[|s| - 1] <= '9') then None
    else if |s| == 1 then Some(s[0] as int - '0' as int)
    else match ParseDecimal(s[..|s| - 1])
      case None => None
      case Some(high) => Some(10 * high + (s[|s| - 1] as int - '0' as int))
  }

  /** Decimal and ParseDecimal are inverse. */
  lemma {:induction false} ParseDecimalOfDecimal(n: nat)
    ensures ParseDecimal(Decimal(n)) == Some(n)
  {
    var s := Decimal(n);
    assert s[|s| - 1] as int - '0' as int == n % 10;
    if n >= 10 {
      ParseDecimalOfDecimal(n / 10);
      assert s[..|s| - 1] == Decimal(n / 10);
      assert 10 * (n / 10) + n % 10 == n;
    }
  }
}
