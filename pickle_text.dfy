/**
 * The two escape-sequence decoders of PickleUtils.cs that the text-mode
 * (protocol 0) opcodes use: decode_escaped for STRING operands and
 * decode_unicode_escaped for UNICODE operands.
 *
 * Each decoder is a method with the source's loop, proved equal to a reference
 * function that reads the string from left to right; the reference functions
 * are then proved to invert the escaping that Python applies when it writes
 * those operands.
 */
module PickleText {
  import opened Wrappers
  import opened PickleUtils

  const Backslash: CodeUnit := '\\' as int
  const Quote: CodeUnit := '\'' as int
  const LF: CodeUnit := '\n' as int
  const CR: CodeUnit := '\r' as int
  const Tab: CodeUnit := '\t' as int

  // ---------------------------------------------------------------------------
  // Hexadecimal digits (Convert.ToInt32(s, 16) on a string of hex digits)
  // ---------------------------------------------------------------------------

  function HexDigitValue(c: CodeUnit): (d: Option<nat>)
    ensures d.Some? ==> d.value < 16
  {
    if '0' as int <= c <= '9' as int then Some(c - '0' as int)
    else if 'a' as int <= c <= 'f' as int then Some(c - 'a' as int + 10)
    else if 'A' as int <= c <= 'F' as int then Some(c - 'A' as int + 10)
    else None
  }

  function Pow16(n: nat): (p: nat)
    ensures p >= 1
  {
    if n == 0 then 1 else 16 * Pow16(n - 1)
  }

  /** The value of a string of hex digits, most significant first; None (a
      FormatException in .NET) when some char is not a hex digit. */
  function ParseHex(s: Text): (r: Option<nat>)
    ensures r.Some? ==> r.value < Pow16(|s|)
    ensures r.Some? <==> forall i :: 0 <= i < |s| ==> HexDigitValue(s[i]).Some?
  {
    if s == [] then Some(0)
    else
      var init := s[..|s| - 1];
      match (ParseHex(init), HexDigitValue(s[|s| - 1]))
      case (Some(high), Some(low)) => Some(16 * high + low)
      case _ => None
  }

  function DigitChar(d: nat): (c: CodeUnit)
    requires d < 16
    ensures HexDigitValue(c) == Some(d)
  {
    if d < 10 then '0' as int + d else 'a' as int + d - 10
  }

  /** v as exactly n lower-case hex digits. */
  function HexDigits(v: nat, n: nat): (s: Text)
    ensures |s| == n
  {
    if n == 0 then [] else HexDigits(v / 16, n - 1) + [DigitChar(v % 16)]
  }

  lemma {:induction false} ParseHexDigits(v: nat, n: nat)
    requires v < Pow16(n)
    ensures ParseHex(HexDigits(v, n)) == Some(v)
  {
    if n > 0 {
      var s := HexDigits(v, n);
      assert s[..n - 1] == HexDigits(v / 16, n - 1);
      ParseHexDigits(v / 16, n - 1);
    }
  }

  // ---------------------------------------------------------------------------
  // Reference definitions of the two decoders
  // ---------------------------------------------------------------------------

  /** Puts p in front of a successful result; an error stays as it is. */
  function Prepend(p: Text, r: Result<Text>): Result<Text>
  {
    if r.Ok? then Ok(p + r.value) else r
  }

  lemma PrependEmpty(r: Result<Text>)
    ensures Prepend([], r) == r
  {
    if r.Ok? {
      assert [] + r.value == r.value;
    }
  }

  lemma PrependPrepend(a: Text, b: Text, r: Result<Text>)
    ensures Prepend(a, Prepend(b, r)) == Prepend(a + b, r)
  {
    if r.Ok? {
      assert a + (b + r.value) == (a + b) + r.value;
    }
  }

  /** What decode_escaped computes: `\\`, `\xHH`, `\n`, `\r`, `\t` and `\'`
      become one char each, any other char after a backslash is a
      PickleException, and running off the end of the string inside an escape
      is an IndexOutOfRangeException. */
  function Unescaped(s: Text): (r: Result<Text>)
    decreases |s|
  {
    if s == [] then Ok([])
    else if s[0] != Backslash then Prepend([s[0]], Unescaped(s[1..]))
    else if |s| < 2 then Err(IndexOutOfRange)
    else
      var c2 := s[1];
      if c2 == Backslash then Prepend([Backslash], Unescaped(s[2..]))
      else if c2 == 'x' as int then
        if |s| < 4 then Err(IndexOutOfRange)
        else match ParseHex(s[2..4])
          case None => Err(FormatError)
          case Some(v) => Prepend([v], Unescaped(s[4..]))
      else if c2 == 'n' as int then Prepend([LF], Unescaped(s[2..]))
      else if c2 == 'r' as int then Prepend([CR], Unescaped(s[2..]))
      else if c2 == 't' as int then Prepend([Tab], Unescaped(s[2..]))
      else if c2 == Quote then Prepend([Quote], Unescaped(s[2..]))
      else Err(InvalidEscape(c2))
  }

  /** char.ConvertFromUtf32: the UTF-16 encoding of a code point; None (an
      ArgumentOutOfRangeException) for surrogate values and values above
      U+10FFFF. */
  function Utf16Of(v: int): (r: Option<Text>)
    ensures r.Some? <==> 0 <= v <= 0x10_FFFF && !(0xD800 <= v <= 0xDFFF)
    ensures r.Some? && v < 0x1_0000 ==> r.value == [v]
    ensures r.Some? && v >= 0x1_0000 ==>
      |r.value| == 2 && 0xD800 <= r.value[0] < 0xDC00 && 0xDC00 <= r.value[1] < 0xE000 &&
      (r.value[0] as int - 0xD800) * 0x400 + (r.value[1] as int - 0xDC00) + 0x1_0000 == v
  {
    if v < 0 || v > 0x10_FFFF || 0xD800 <= v <= 0xDFFF then None
    else if v < 0x1_0000 then Some([v])
    else
      var w := v - 0x1_0000;
      Some([0xD800 + w / 0x400, 0xDC00 + w % 0x400])
  }

  /** What decode_unicode_escaped computes: `\\`, `\n`, `\r`, `\t` become one
      char each, `\uHHHH` one UTF-16 unit, `\UHHHHHHHH` the UTF-16 encoding of
      that code point; every other escape char (`\'` and `\x` among them) is a
      PickleException. */
  function UnicodeUnescaped(s: Text): (r: Result<Text>)
    decreases |s|
  {
    if s == [] then Ok([])
    else if s[0] != Backslash then Prepend([s[0]], UnicodeUnescaped(s[1..]))
    else if |s| < 2 then Err(IndexOutOfRange)
    else
      var c2 := s[1];
      if c2 == Backslash then Prepend([Backslash], UnicodeUnescaped(s[2..]))
      else if c2 == 'u' as int then
        assert Pow16(4) == 0x1_0000;
        if |s| < 6 then Err(IndexOutOfRange)
        else match ParseHex(s[2..6])
          case None => Err(FormatError)
          case Some(v) => Prepend([v], UnicodeUnescaped(s[6..]))
      else if c2 == 'U' as int then
        if |s| < 10 then Err(IndexOutOfRange)
        else match ParseHex(s[2..10])
          case None => Err(FormatError)
          case Some(v) =>
            match Utf16Of(v)
            case None => Err(ArgumentOutOfRange)
            case Some(units) => Prepend(units, UnicodeUnescaped(s[10..]))
      else if c2 == 'n' as int then Prepend([LF], UnicodeUnescaped(s[2..]))
      else if c2 == 'r' as int then Prepend([CR], UnicodeUnescaped(s[2..]))
      else if c2 == 't' as int then Prepend([Tab], UnicodeUnescaped(s[2..]))
      else Err(InvalidEscape(c2))
  }

  // ---------------------------------------------------------------------------
  // decode_escaped and decode_unicode_escaped
  // ---------------------------------------------------------------------------

  /** decode_escaped, with its early return for strings without a backslash. */
  method DecodeEscaped(str: Text) returns (r: Result<Text>)
    ensures r == Unescaped(str)
  {
    if Backslash !in str {
      NoBackslashUnescaped(str);
      return Ok(str);
    }
    var sb: Text := [];
    var i := 0;
    assert str[i..] == str;
    PrependEmpty(Unescaped(str));
    while i < |str|
      invariant 0 <= i <= |str|
      invariant Unescaped(str) == Prepend(sb, Unescaped(str[i..]))
    {
      var rest := str[i..];
      var c := str[i];
      ghost var before := sb;
      if c == Backslash {
        if i + 1 >= |str| {
          return Err(IndexOutOfRange);
        }
        i := i + 1;
        var c2 := str[i];
        assert rest[1] == c2 && rest[2..] == str[i + 1..];
        if c2 == Backslash {
          sb := sb + [c];
        } else if c2 == 'x' as int {
          if i + 2 >= |str| {
            return Err(IndexOutOfRange);
          }
          var hex := ParseHex(str[i + 1..i + 3]);
          assert rest[2..4] == str[i + 1..i + 3] && rest[4..] == str[i + 3..];
          i := i + 2;
          if hex.None? {
            return Err(FormatError);
          }
          sb := sb + [hex.value];
        } else if c2 == 'n' as int {
          sb := sb + [LF];
        } else if c2 == 'r' as int {
          sb := sb + [CR];
        } else if c2 == 't' as int {
          sb := sb + [Tab];
        } else if c2 == Quote {
          sb := sb + [Quote];
        } else {
          return Err(InvalidEscape(c2));
        }
      } else {
        assert rest[1..] == str[i + 1..];
        sb := sb + [str[i]];
      }
      i := i + 1;
      assert Unescaped(rest) == Prepend(sb[|before|..], Unescaped(str[i..]));
      assert sb == before + sb[|before|..];
      PrependPrepend(before, sb[|before|..], Unescaped(str[i..]));
    }
    assert str[i..] == [];
    assert sb + [] == sb;
    r := Ok(sb);
  }

  /** One escape sequence of decode_unicode_escaped: the characters that the
      escape starting at the backslash str[i] stands for, and the index just
      past it. */
  method UnicodeEscape(str: Text, i: nat) returns (piece: Result<Text>, next: nat)
    requires i < |str| && str[i] == Backslash
    ensures piece.Err? ==> UnicodeUnescaped(str[i..]) == Err(piece.error)
    ensures piece.Ok? ==>
      (i < next <= |str| && UnicodeUnescaped(str[i..]) == Prepend(piece.value, UnicodeUnescaped(str[next..])))
  {
    var rest := str[i..];
    if i + 1 >= |str| {
      return Err(IndexOutOfRange), i;
    }
    var c2 := str[i + 1];
    assert rest[1] == c2 && rest[2..] == str[i + 2..];
    next := i + 2;
    if c2 == Backslash {
      piece := Ok([Backslash]);
    } else if c2 == 'u' as int {
      if i + 5 >= |str| {
        return Err(IndexOutOfRange), i;
      }
      var hex := ParseHex(str[i + 2..i + 6]);
      assert Pow16(4) == 0x1_0000;
      assert rest[2..6] == str[i + 2..i + 6] && rest[6..] == str[i + 6..];
      if hex.None? {
        return Err(FormatError), i;
      }
      piece, next := Ok([hex.value]), i + 6;
    } else if c2 == 'U' as int {
      if i + 9 >= |str| {
        return Err(IndexOutOfRange), i;
      }
      var hex := ParseHex(str[i + 2..i + 10]);
      assert rest[2..10] == str[i + 2..i + 10] && rest[10..] == str[i + 10..];
      if hex.None? {
        return Err(FormatError), i;
      }
      var units := Utf16Of(hex.value);
      if units.None? {
        return Err(ArgumentOutOfRange), i;
      }
      piece, next := Ok(units.value), i + 10;
    } else if c2 == 'n' as int {
      piece := Ok([LF]);
    } else if c2 == 'r' as int {
      piece := Ok([CR]);
    } else if c2 == 't' as int {
      piece := Ok([Tab]);
    } else {
      piece := Err(InvalidEscape(c2));
    }
  }

  /** decode_unicode_escaped, with its early return for strings without a backslash. */
  method DecodeUnicodeEscaped(str: Text) returns (r: Result<Text>)
    ensures r == UnicodeUnescaped(str)
  {
    if Backslash !in str {
      NoBackslashUnicodeUnescaped(str);
      return Ok(str);
    }
    var sb: Text := [];
    var i := 0;
    assert str[i..] == str;
    PrependEmpty(UnicodeUnescaped(str));
    while i < |str|
      invariant 0 <= i <= |str|
      invariant UnicodeUnescaped(str) == Prepend(sb, UnicodeUnescaped(str[i..]))
    {
      ghost var before := sb;
      ghost var rest := str[i..];
      if str[i] == Backslash {
        var piece, next := UnicodeEscape(str, i);
        if piece.Err? {
          return Err(piece.error);
        }
        sb, i := sb + piece.value, next;
      } else {
        assert rest[1..] == str[i + 1..];
        sb, i := sb + [str[i]], i + 1;
      }
      assert UnicodeUnescaped(rest) == Prepend(sb[|before|..], UnicodeUnescaped(str[i..]));
      assert sb == before + sb[|before|..];
      PrependPrepend(before, sb[|before|..], UnicodeUnescaped(str[i..]));
    }
    assert str[i..] == [];
    assert sb + [] == sb;
    r := Ok(sb);
  }

  // ---------------------------------------------------------------------------
  // Properties of the decoders
  // ---------------------------------------------------------------------------

  /** decode_escaped returns a backslash-free string unchanged. */
  lemma {:induction false} NoBackslashUnescaped(s: Text)
    requires Backslash !in s
    ensures Unescaped(s) == Ok(s)
  {
    if s != [] {
      assert s == [s[0]] + s[1..];
      NoBackslashUnescaped(s[1..]);
    }
  }

  /** decode_unicode_escaped returns a backslash-free string unchanged. */
  lemma {:induction false} NoBackslashUnicodeUnescaped(s: Text)
    requires Backslash !in s
    ensures UnicodeUnescaped(s) == Ok(s)
  {
    if s != [] {
      assert s == [s[0]] + s[1..];
      NoBackslashUnicodeUnescaped(s[1..]);
    }
  }

  /** The escapes the two decoders disagree on: decode_escaped accepts `\'`
      and `\x41`, decode_unicode_escaped rejects both. */
  lemma EscapeDialects()
    ensures Unescaped([Backslash, Quote]) == Ok([Quote])
    ensures UnicodeUnescaped([Backslash, Quote]) == Err(InvalidEscape(Quote))
    ensures Unescaped([Backslash, 'x' as int, '4' as int, '1' as int]) == Ok(['A' as int])
    ensures UnicodeUnescaped([Backslash, 'x' as int, '4' as int, '1' as int]) == Err(InvalidEscape('x' as int))
  {
    var q: Text := [Backslash, Quote];
    ReprEscapeUnitDecodes(Quote, []);
    assert ReprEscapeUnit(Quote) + [] == q;
    assert Unescaped(q) == Prepend([Quote], Ok([]));
    assert [Quote] + [] == [Quote];
    var s: Text := [Backslash, 'x' as int, '4' as int, '1' as int];
    assert Pow16(2) == 256;
    ParseHexDigits(0x41, 2);
    assert HexDigits(0x41, 2) == ['4' as int, '1' as int];
    assert s[2..4] == HexDigits(0x41, 2);
    assert s[4..] == [];
    assert Unescaped(s) == Prepend([0x41], Unescaped([]));
    assert [0x41] + [] == ['A' as int];
  }

  /** `\U` followed by the eight hex digits of a supplementary code point
      decodes to its UTF-16 surrogate pair. */
  lemma SupplementaryEscape(v: nat, rest: Text)
    requires 0x1_0000 <= v <= 0x10_FFFF
    ensures Utf16Of(v).Some?
    ensures UnicodeUnescaped([Backslash, 'U' as int] + HexDigits(v, 8) + rest)
         == Prepend(Utf16Of(v).value, UnicodeUnescaped(rest))
  {
    var s: Text := [Backslash, 'U' as int] + HexDigits(v, 8) + rest;
    assert Pow16(8) == 0x1_0000_0000;
    ParseHexDigits(v, 8);
    assert s[1] == 'U' as int;
    assert s[2..10] == HexDigits(v, 8);
    assert s[10..] == rest;
  }

  /** U+1F455 is the surrogate pair D83D DC55. */
  lemma SupplementaryExample()
    ensures Utf16Of(0x1_F455) == Some([0xD83D, 0xDC55])
  {
  }

  // ---------------------------------------------------------------------------
  // The escaping Python applies, and the round trips
  // ---------------------------------------------------------------------------

  /** How Python writes one char of a byte string in a protocol-0 STRING
      operand (the body of repr): backslash, quote, LF, CR and tab get their
      short escapes, other control chars and chars from 0x7f up get `\xHH`. */
  function ReprEscapeUnit(c: CodeUnit): Text
    requires c < 0x100
  {
    if c == Backslash then [Backslash, Backslash]
    else if c == Quote then [Backslash, Quote]
    else if c == LF then [Backslash, 'n' as int]
    else if c == CR then [Backslash, 'r' as int]
    else if c == Tab then [Backslash, 't' as int]
    else if c < 0x20 || c >= 0x7f then [Backslash, 'x' as int] + HexDigits(c, 2)
    else [c]
  }

  function ReprEscape(s: Text): Text
    requires forall i :: 0 <= i < |s| ==> s[i] < 0x100
  {
    if s == [] then [] else ReprEscapeUnit(s[0]) + ReprEscape(s[1..])
  }

  lemma ReprEscapeUnitDecodes(c: CodeUnit, rest: Text)
    requires c < 0x100
    ensures Unescaped(ReprEscapeUnit(c) + rest) == Prepend([c], Unescaped(rest))
  {
    var e := ReprEscapeUnit(c);
    var t := e + rest;
    if |e| == 1 {
      assert t[1..] == rest;
    } else if |e| == 2 {
      assert t[1] == e[1] && t[2..] == rest;
    } else {
      assert Pow16(2) == 256;
      ParseHexDigits(c, 2);
      assert t[1] == 'x' as int && t[2..4] == HexDigits(c, 2) && t[4..] == rest;
    }
  }

  /** decode_escaped inverts Python's escaping of byte strings. */
  lemma {:induction false} ReprEscapeRoundTrip(s: Text)
    requires forall i :: 0 <= i < |s| ==> s[i] < 0x100
    ensures Unescaped(ReprEscape(s)) == Ok(s)
  {
    if s != [] {
      ReprEscapeUnitDecodes(s[0], ReprEscape(s[1..]));
      ReprEscapeRoundTrip(s[1..]);
      assert s == [s[0]] + s[1..];
    }
  }

  /** How Python writes one char of a protocol-0 UNICODE operand
      (raw-unicode-escape, with backslash and LF escaped as well): chars from
      0x100 up, backslash and LF become `\uHHHH`. */
  function RawUnicodeEscapeUnit(c: CodeUnit): Text
  {
    if c >= 0x100 || c == Backslash || c == LF then [Backslash, 'u' as int] + HexDigits(c, 4)
    else [c]
  }

  function RawUnicodeEscape(s: Text): Text
  {
    if s == [] then [] else RawUnicodeEscapeUnit(s[0]) + RawUnicodeEscape(s[1..])
  }

  lemma RawUnicodeEscapeUnitDecodes(c: CodeUnit, rest: Text)
    ensures UnicodeUnescaped(RawUnicodeEscapeUnit(c) + rest) == Prepend([c], UnicodeUnescaped(rest))
  {
    var e := RawUnicodeEscapeUnit(c);
    var t := e + rest;
    if |e| == 1 {
      assert t[1..] == rest;
    } else {
      assert Pow16(4) == 0x1_0000;
      ParseHexDigits(c, 4);
      assert t[1] == 'u' as int && t[2..6] == HexDigits(c, 4) && t[6..] == rest;
    }
  }

  /** decode_unicode_escaped inverts Python's escaping of text, on every
      string of UTF-16 units (lone surrogates included). */
  lemma {:induction false} RawUnicodeEscapeRoundTrip(s: Text)
    ensures UnicodeUnescaped(RawUnicodeEscape(s)) == Ok(s)
  {
    if s != [] {
      RawUnicodeEscapeUnitDecodes(s[0], RawUnicodeEscape(s[1..]));
      RawUnicodeEscapeRoundTrip(s[1..]);
      assert s == [s[0]] + s[1..];
    }
  }
}
