# Razorvine pickle core, modelled in Dafny

This project models the leaf layers of the Razorvine pickle library (the .NET and Java
implementations of Python's pickle protocol):

- the byte and number codec of `PickleUtils.cs`: little-endian 2/4/8-byte integers, the
  two's-complement decoder behind the LONG1/LONG4 opcodes, the raw byte/char mapping, the
  two escape decoders used by the text-mode (protocol 0) opcodes, and the routines that read a
  byte, a line or a run of bytes from a stream;
- the `StreamReader` the .NET unpickler reads through, with its growable scratch buffer;
- the custom pickler and deconstructor registries of `Pickler.cs`, their type lookup, and the
  per-call life cycle of `dumps`;
- the reduce-time constructors: the Java `ClassDict` and `ClassDictConstructor`, the .NET
  `ExceptionConstructor`, the .NET and Java `ByteArrayConstructor`, the .NET
  `StringConstructor`, and the .NET and Java `SetConstructor`.

Layout (one module per file):

| file | module | models |
|---|---|---|
| `wrappers.dfy` | `Wrappers` | `Option`, `Result`, and one `Error` constructor per exception kind the core raises |
| `pickle_utils.dfy` | `PickleUtils` | byte, int32, int64 and UTF-16 code unit types; the value of little-endian bytes; the fixed-width codec, `decode_long`, `str2bytes`, `rawStringFromBytes`, `CheckedCast`; decimal rendering of ints |
| `pickle_text.dfy` | `PickleText` | `decode_escaped`, `decode_unicode_escaped`, their reference definitions, and the escapings Python applies that they invert |
| `byte_stream.dfy` | `Streams` | the parts of `System.IO.Stream` and `Array.Resize` the core relies on |
| `pickle_io.dfy` | `PickleIO` | `readbyte`, `readline`, `readline_into`, `readbytes`, `readbytes_into` |
| `stream_reader.dfy` | `Reader` | `StreamReader` |
| `pickler.dfy` | `Pickling` | the registries, `getCustomPickler`, `getCustomDeconstructor`, `persistentId`, `dumps` |
| `values.dfy` | `Values` | the argument values the constructors receive |
| `class_dict.dfy` | `ClassDicts` | `ClassDict`, `ClassDictConstructor` |
| `exception_constructor.dfy` | `Exceptions` | `ExceptionConstructor` |
| `byte_array_constructor.dfy` | `Encodings`, `ByteArrayCSharp`, `ByteArrayJava` | both `ByteArrayConstructor`s |
| `string_constructor.dfy` | `Strings` | `StringConstructor` |
| `set_constructor.dfy` | `Sets` | both `SetConstructor`s |

Modelling choices:

- A stream is a `ByteStream`: its bytes, whether it can seek, and a read position. Its `chunk`
  field is the most bytes one `Read` call returns. That is how the model lets `Stream.Read`
  return fewer bytes than asked for.
- Exceptions are `Err` results. Each names the exception kind, and the message where the source
  fixes one.
- .NET strings are sequences of UTF-16 code units (`Text`), because `decode_unicode_escaped`
  produces surrogate halves. The constructors use Dafny `string`.
- Types in the registries are an abstract type parameter. `Type.IsAssignableFrom` is the
  `assignable(from, to)` relation, passed as a parameter.
- A .NET `Dictionary` that is only ever added to enumerates its keys in insertion order. So a
  registry is an insertion order plus a map, and `FirstOrDefault` is the first match in that
  order.
- The `PicklerImplementation` that `dumps` drives is modelled only by its buffer handling. The
  pickle it writes for an object is a parameter (`payload`).

## Model

| member | source | states |
|---|---|---|
| PickleUtils.BytesToInteger | dotnet/Razorvine.Pickle/Pickle/Pickle/PickleUtils.cs:136-159 | size 2 gives the unsigned 16-bit little-endian value; size 4 gives the signed 32-bit two's-complement value. Any other size fails with PickleException, with the size in the message. For size 2 or 4, an offset outside the array (negative included) is ArgumentOutOfRange. It succeeds exactly when size bytes follow a valid offset. |
| PickleUtils.BytesToLong | dotnet/Razorvine.Pickle/Pickle/Pickle/PickleUtils.cs:164-173 | fails with "too few bytes to convert to long" exactly when the wrapping int subtraction bytes.Length - offset is below 8. Past that check, a negative offset is ArgumentOutOfRange. For an array of at most int.MaxValue bytes it succeeds exactly when 8 bytes follow a valid offset, and returns the signed 64-bit little-endian value. |
| PickleUtils.BytesToUint | dotnet/Razorvine.Pickle/Pickle/Pickle/PickleUtils.cs:178-187 | the checks of bytes_to_long for 4 bytes, with the same message. On success it returns the unsigned 32-bit little-endian value of the 4 bytes at the offset. |
| PickleUtils.IntegerToBytes | dotnet/Razorvine.Pickle/Pickle/Pickle/PickleUtils.cs:192-199 | exactly 4 bytes, which bytes_to_integer(…, 0, 4) decodes back to i, for every int i |
| PickleUtils.LongRoundTrip | dotnet/Razorvine.Pickle/Pickle/Pickle/PickleUtils.cs:164-173 | bytes_to_long decodes the 8-byte two's-complement encoding of every 64-bit value back to that value |
| PickleUtils.UintRoundTrip | dotnet/Razorvine.Pickle/Pickle/Pickle/PickleUtils.cs:178-187 | bytes_to_uint decodes the 4-byte encoding of every unsigned 32-bit value back to that value |
| PickleUtils.ReadInt64LittleEndian | dotnet/Razorvine.Pickle/Pickle/Pickle/PickleUtils.cs:268 | the value of 8 bytes read as a little-endian long lies in the 64-bit range |
| PickleUtils.DecodeLong | dotnet/Razorvine.Pickle/Pickle/Pickle/PickleUtils.cs:244-269 | returns the little-endian two's-complement value of the data, for every length: empty gives 0, shorter inputs are sign-extended, longer ones are not truncated. The result is a long exactly when there are at most 8 bytes. |
| PickleUtils.RawStringFromBytes | dotnet/Razorvine.Pickle/Pickle/Pickle/PickleUtils.cs:281-289 | char i has the code of byte i |
| PickleUtils.Str2Bytes | dotnet/Razorvine.Pickle/Pickle/Pickle/PickleUtils.cs:322-330 | fails with ArgumentException exactly when some char is above 255; otherwise byte i is the code of char i |
| PickleUtils.BytesRoundTrip | dotnet/Razorvine.Pickle/Pickle/Pickle/PickleUtils.cs:276-330 | str2bytes(rawStringFromBytes(b)) == b for every byte array |
| PickleUtils.TextRoundTrip | dotnet/Razorvine.Pickle/Pickle/Pickle/PickleUtils.cs:276-330 | rawStringFromBytes(str2bytes(s)) == s exactly when every char of s is at most 255 |
| PickleUtils.CheckedCast | dotnet/Razorvine.Pickle/Pickle/Pickle/PickleUtils.cs:291-303 | fails with PickleException exactly when the length exceeds int.MaxValue, and the message shows the length in decimal. Otherwise it returns the (int) cast: equal to the length in the int range, and congruent to it modulo 2^32 below it. |
| PickleUtils.Wrap32OfInt32 | dotnet/Razorvine.Pickle/Pickle/Pickle/PickleUtils.cs:296 | the (int) cast leaves every value of the int range unchanged |
| PickleText.DecodeEscaped | dotnet/Razorvine.Pickle/Pickle/Pickle/PickleUtils.cs:335-378 | the loop computes `Unescaped`, the reference definition of the escape rules, on every input (errors included) |
| PickleText.DecodeUnicodeEscaped | dotnet/Razorvine.Pickle/Pickle/Pickle/PickleUtils.cs:383-442 | the loop computes `UnicodeUnescaped`, the reference definition of the escape rules, on every input (errors included) |
| PickleText.UnicodeEscape | dotnet/Razorvine.Pickle/Pickle/Pickle/PickleUtils.cs:389-436 | one escape sequence: on success, the characters it stands for followed by the decoding of what comes after it give the decoding from the backslash on. On failure, the decoding from the backslash fails with the same error. |
| PickleText.NoBackslashUnescaped | dotnet/Razorvine.Pickle/Pickle/Pickle/PickleUtils.cs:335-378 | decode_escaped returns every backslash-free string unchanged |
| PickleText.NoBackslashUnicodeUnescaped | dotnet/Razorvine.Pickle/Pickle/Pickle/PickleUtils.cs:383-442 | decode_unicode_escaped returns every backslash-free string unchanged |
| PickleText.EscapeDialects | dotnet/Razorvine.Pickle/Pickle/Pickle/PickleUtils.cs:335-442 | `\'` and `\x41` are accepted by decode_escaped and rejected (invalid escape) by decode_unicode_escaped |
| PickleText.ParseHexDigits | dotnet/Razorvine.Pickle/Pickle/Pickle/PickleUtils.cs:404 | n hex digits of a value below 16^n parse back to that value |
| PickleText.Utf16Of | dotnet/Razorvine.Pickle/Pickle/Pickle/PickleUtils.cs:419 | char.ConvertFromUtf32 succeeds exactly for scalar values. It gives one unit below U+10000, and otherwise a high/low surrogate pair that decodes back to the code point. |
| PickleText.SupplementaryEscape | dotnet/Razorvine.Pickle/Pickle/Pickle/PickleUtils.cs:408-421 | `\U` with the 8 hex digits of any supplementary code point decodes to its surrogate pair, followed by the decoding of the rest |
| PickleText.ReprEscapeRoundTrip | dotnet/Razorvine.Pickle/Pickle/Pickle/PickleUtils.cs:335-378 | decode_escaped inverts Python's escaping of byte strings (short escapes, `\xHH` for the rest), for every string of chars below 256 |
| PickleText.RawUnicodeEscapeRoundTrip | dotnet/Razorvine.Pickle/Pickle/Pickle/PickleUtils.cs:383-442 | decode_unicode_escaped inverts raw-unicode-escape (`\uHHHH` for chars from 0x100 up, backslash and LF), for every UTF-16 string |
| Streams.ByteStream.Read | dotnet/Razorvine.Pickle/Pickle/Pickle/PickleUtils.cs:114 | Stream.Read: argument errors change nothing. Otherwise it copies min(count, chunk, remaining) bytes into buffer[offset..] and leaves the rest of the buffer as it was. |
| Streams.ByteStream.Seek | dotnet/Razorvine.Pickle/Pickle/Pickle/Internals/StreamReader.cs:43 | seeking before the start is an error; otherwise the stream skips min(offset, remaining) bytes |
| Streams.Resize | dotnet/Razorvine.Pickle/Pickle/Pickle/Internals/StreamReader.cs:56 | Array.Resize: the same array when the length is unchanged, else a fresh one that keeps the common prefix and is zero-padded |
| PickleIO.LineShape | dotnet/Razorvine.Pickle/Pickle/Pickle/PickleUtils.cs:23-38 | a line is the input up to and including the first LF, or the whole input when there is none. It has at least one byte whenever the input does. Without includeLF it holds no LF. |
| PickleIO.LineOfTerminated | dotnet/Razorvine.Pickle/Pickle/Pickle/PickleUtils.cs:32-35 | for input `line + LF + more`, the line is `line`, plus the LF when includeLF is set, and reading consumes `line + LF` |
| PickleIO.CapacityBounds | dotnet/Razorvine.Pickle/Pickle/Pickle/PickleUtils.cs:54-58 | the grown buffer holds every byte stored and never shrinks. When it had to grow, it is under twice the need, or 16. |
| PickleIO.ReadByte | dotnet/Razorvine.Pickle/Pickle/Pickle/PickleUtils.cs:82-88 | "premature end of input stream" exactly at end of input; otherwise the next byte, consumed |
| PickleIO.ReadLine | dotnet/Razorvine.Pickle/Pickle/Pickle/PickleUtils.cs:23-38 | fails only when the input is already at its end; otherwise returns the next line as chars (the LF only with includeLF) and consumes that line |
| PickleIO.ReadLineInto | dotnet/Razorvine.Pickle/Pickle/Pickle/PickleUtils.cs:40-66 | buffer[0..count) holds the line. The buffer is the caller's own or a fresh one, of length Capacity (doubling, 16 when empty). The error case leaves the caller's buffer in place. |
| PickleIO.LineStep | dotnet/Razorvine.Pickle/Pickle/Pickle/PickleUtils.cs:47-63 | one pass of the line loop. At end of input the bytes kept so far are the whole line. Otherwise the byte read is the next input byte; a byte other than LF is appended, and the buffer grows to the next Capacity. At an LF the buffer holds the finished Line and the line length counts the LF. |
| PickleIO.ReadBytesInto | dotnet/Razorvine.Pickle/Pickle/Pickle/PickleUtils.cs:112-120 | reads exactly `length` bytes into buffer[offset..], however short each Read is, and leaves the rest of the buffer unchanged. Premature end is reported exactly when the input is shorter. A non-positive length does nothing. |
| PickleIO.ReadBytes | dotnet/Razorvine.Pickle/Pickle/Pickle/PickleUtils.cs:96-100 | a fresh array holding exactly the next n bytes, or premature end; a negative n is an OverflowException |
| PickleIO.ReadBytesLong | dotnet/Razorvine.Pickle/Pickle/Pickle/PickleUtils.cs:105-107 | a length above int.MaxValue fails with the CheckedCast message before reading. Any other long is read as readbytes at its low 32 bits, with every outcome of ReadBytes: Overflow when those bits are negative, premature end, or the next bytes with the stream advanced past them. |
| PickleIO.ReadBytesIntoLong | dotnet/Razorvine.Pickle/Pickle/Pickle/PickleUtils.cs:125-127 | a length above int.MaxValue fails with the CheckedCast message before reading. Any other long acts as readbytes_into at its low 32 bits, with every outcome of ReadBytesInto: a no-op for a non-positive value, an argument error, premature end, or the splice of the next bytes. |
| PickleIO.NegativeLongLengths | dotnet/Razorvine.Pickle/Pickle/Pickle/PickleUtils.cs:105-107 | the long -4294967291 has the low 32 bits of 5 and reads 5 bytes, while -1 stays -1, which cannot size an array |
| Reader.EnsuredLengthProperties | dotnet/Razorvine.Pickle/Pickle/Pickle/Internals/StreamReader.cs:52-58 | the ensured length is at least the old length and at least bytesCount, at most twice bytesCount when it grew, and ensuring twice is ensuring once |
| Reader.StreamReader.constructor | dotnet/Razorvine.Pickle/Pickle/Pickle/Internals/StreamReader.cs:13-17 | a new reader's buffer is fresh and has sizeof(long) = 8 bytes |
| Reader.StreamReader.EnsureByteBufferLength | dotnet/Razorvine.Pickle/Pickle/Pickle/Internals/StreamReader.cs:52-58 | the buffer is untouched when it already has bytesCount bytes; otherwise it becomes a fresh buffer of max(bytesCount, 2·old length) that keeps the old contents |
| Reader.StreamReader.ReadByte | dotnet/Razorvine.Pickle/Pickle/Pickle/Internals/StreamReader.cs:19 | fails at end of input, otherwise returns and consumes the next byte |
| Reader.ReadSpan | dotnet/Razorvine.Pickle/Pickle/Pickle/Internals/StreamReader.cs:24-26 | readbytes_into at offset 0, then the span of the first bytesCount places: the next bytesCount bytes, premature end, or ArgumentOutOfRange for a negative count. The result is what the buffer holds there. |
| Reader.StreamReader.ReadBytes | dotnet/Razorvine.Pickle/Pickle/Pickle/Internals/StreamReader.cs:21-28 | returns exactly the next bytesCount bytes, or premature end. The result is what the scratch buffer holds in its first bytesCount places. The buffer never shrinks. |
| Reader.StreamReader.ReadLine | dotnet/Razorvine.Pickle/Pickle/Pickle/Internals/StreamReader.cs:30 | the next line, as readline gives it |
| Reader.StreamReader.ReadLineBytes | dotnet/Razorvine.Pickle/Pickle/Pickle/Internals/StreamReader.cs:32-37 | returns the line readline_into stored, which is what the scratch buffer holds in its first places. The buffer field becomes the grown buffer, of length Capacity(old length, line length). |
| Reader.StreamReader.Skip | dotnet/Razorvine.Pickle/Pickle/Pickle/Internals/StreamReader.cs:39-50 | a seekable stream skips min(n, remaining) bytes. A non-seekable one skips only what a single Read delivers, with no error for a short skip. The buffer never shrinks. |
| Reader.StreamReader.SkipFully | dotnet/Razorvine.Pickle/Pickle/Pickle/Internals/StreamReader.cs:39-50 | corrected Skip: skips exactly n bytes on every stream, or reports premature end |
| Reader.SkipShortRead | dotnet/Razorvine.Pickle/Pickle/Pickle/Internals/StreamReader.cs:46-49 | on a non-seekable stream delivering 4 bytes per Read, Skip(8) over 8 bytes leaves 4 unread and SkipFully leaves none |
| Pickling.FirstAssignable | dotnet/Razorvine.Pickle/Pickle/Pickle/Pickler.cs:143 | FirstOrDefault: some result exactly when some registered key is assignable from t. The result is the value of the first such key in enumeration order. |
| Pickling.LookupPickler | dotnet/Razorvine.Pickle/Pickle/Pickle/Pickler.cs:138-143 | the exact registration when there is one, otherwise the first assignable key's pickler, otherwise null |
| Pickling.LookupDeconstructor | dotnet/Razorvine.Pickle/Pickle/Pickle/Pickler.cs:145-147 | some result exactly when t itself is registered |
| Pickling.ExactBeatsAssignable | dotnet/Razorvine.Pickle/Pickle/Pickle/Pickler.cs:138-143 | the exact registration wins even over an earlier registered base type |
| Pickling.DeconstructorNotInherited | dotnet/Razorvine.Pickle/Pickle/Pickle/Pickler.cs:145-147 | a deconstructor registered for a base type is not found for a subtype |
| Pickling.FirstAssignableAppend | dotnet/Razorvine.Pickle/Pickle/Pickle/Pickler.cs:63 | registering a new key keeps every earlier fallback answer; a type nothing matched before now finds the new key exactly when it is assignable |
| Pickling.FirstAssignableOverwrite | dotnet/Razorvine.Pickle/Pickle/Pickle/Pickler.cs:63 | overwriting a key changes the fallback lookup only for types that key matches |
| Pickling.RegisterWellFormed | dotnet/Razorvine.Pickle/Pickle/Pickle/Pickler.cs:63 | a registration keeps the registry's keys unique and matching its enumeration order |
| Pickling.RegisterPicklerLookup | dotnet/Razorvine.Pickle/Pickle/Pickle/Pickler.cs:63 | after registering, the lookup of clazz finds the new pickler (last write wins); lookups of types clazz does not match are unchanged |
| Pickling.Registry.Register | dotnet/Razorvine.Pickle/Pickle/Pickle/Pickler.cs:63 | the entry for clazz is replaced or added and all others stay; a new key goes last in the order |
| Pickling.Pickler.RegisterCustomPickler | dotnet/Razorvine.Pickle/Pickle/Pickle/Pickler.cs:63 | registerCustomPickler is Register on the pickler registry |
| Pickling.Pickler.RegisterCustomDeconstructor | dotnet/Razorvine.Pickle/Pickle/Pickle/Pickler.cs:73 | registerCustomDeconstructor is Register on the deconstructor registry |
| Pickling.Pickler.GetCustomPickler | dotnet/Razorvine.Pickle/Pickle/Pickle/Pickler.cs:138-143 | getCustomPickler is LookupPickler over the pickler registry |
| Pickling.Pickler.GetCustomDeconstructor | dotnet/Razorvine.Pickle/Pickle/Pickle/Pickler.cs:145-147 | getCustomDeconstructor is LookupDeconstructor over the deconstructor registry |
| Pickling.PersistentId | dotnet/Razorvine.Pickle/Pickle/Pickle/Pickler.cs:155-158 | false, with newpid null, for every object |
| Pickling.Pickler.Default | dotnet/Razorvine.Pickle/Pickle/Pickle/Pickler.cs:33 | the parameterless constructor turns the memo on |
| Pickling.Pickler.constructor | dotnet/Razorvine.Pickle/Pickle/Pickle/Pickler.cs:43 | useMemo is the constructor argument |
| Pickling.Pickler.Close | dotnet/Razorvine.Pickle/Pickle/Pickle/Pickler.cs:53 | the current implementation, if any, is disposed |
| Pickling.PicklerImplementation.Dump | dotnet/Razorvine.Pickle/Pickle/Pickle/Pickler.cs:86 | the pickle goes to the front of the buffer, which is replaced by a fresh larger one only when too small |
| Pickling.Pickler.Dumps | dotnet/Razorvine.Pickle/Pickle/Pickle/Pickler.cs:80-91 | disposes the previous implementation and uses a fresh one with the pickler's useMemo. Returns exactly the bytes written, in an array whose length is BytesWritten. |
| Pickling.Pickler.DumpsInto | dotnet/Razorvine.Pickle/Pickle/Pickle/Pickler.cs:100-110 | a fresh implementation writes into the caller's array, which comes back replaced only when too small; bytesWritten is the pickle's length |
| ClassDicts.ClassName | java/src/main/java/net/razorvine/pickle/objects/ClassDict.java:16-19 | module + "." + name with a module, name alone without |
| ClassDicts.ClassNameParts | java/src/main/java/net/razorvine/pickle/objects/ClassDict.java:16-19 | with a module, the class name splits back into module, dot and name |
| ClassDicts.StateAfter | java/src/main/java/net/razorvine/pickle/objects/ClassDict.java:27-31 | the keys are those of values plus `__class__`; values win; `__class__` is the class name unless values overrides it |
| ClassDicts.ClassDict.constructor | java/src/main/java/net/razorvine/pickle/objects/ClassDict.java:14-22 | the class name as ClassName gives it, and exactly one entry, `__class__` mapped to it |
| ClassDicts.ClassDict.SetState | java/src/main/java/net/razorvine/pickle/objects/ClassDict.java:27-31 | the map becomes StateAfter(classname, values). Earlier entries not in values are gone, and the result does not depend on the old map, so a second call changes nothing. |
| ClassDicts.ClassDict.GetClassName | java/src/main/java/net/razorvine/pickle/objects/ClassDict.java:37-39 | the construction-time class name, which SetState cannot change |
| ClassDicts.ClassDictConstructor.constructor | java/src/main/java/net/razorvine/pickle/objects/ClassDictConstructor.java:16-19 | module and name stored unchanged |
| ClassDicts.ClassDictConstructor.Construct | java/src/main/java/net/razorvine/pickle/objects/ClassDictConstructor.java:21-25 | any argument is a PickleException naming module.name (a null module prints "null"). No argument gives a fresh ClassDict tagged module.name. |
| ClassDicts.ClassDictExample | dotnet/Razorvine.Pickle/UnitTests/Pickle/UnpickleComplexTests.cs:139-148 | ClassDict("module", "myclass") and construct() both give `__class__` "module.myclass". Two constructs give two distinct dicts. |
| Exceptions.PythonTypeName | dotnet/Razorvine.Pickle/Pickle/Pickle/Objects/ExceptionConstructor.cs:17-23 | module + "." + name when the module is non-empty, name otherwise |
| Exceptions.TypeNameVersusClassName | dotnet/Razorvine.Pickle/Pickle/Pickle/Objects/ExceptionConstructor.cs:18-21 | agrees with ClassDict's class name except for an empty module, where ClassDict keeps a leading dot |
| Exceptions.ConstructorArgs | dotnet/Razorvine.Pickle/Pickle/Pickle/Objects/ExceptionConstructor.cs:27-36 | with a type name: null or empty args give "[type]". Otherwise "[type] " + args[0], with the other args dropped; a null message prints as nothing, and a non-string fails the cast. An empty type name passes args through. |
| Exceptions.MessageRecoverable | dotnet/Razorvine.Pickle/Pickle/Pickle/Objects/ExceptionConstructor.cs:32-34 | the original message is the suffix after "[type] " |
| Exceptions.ZeroDivisionMessage | dotnet/Razorvine.Pickle/UnitTests/Pickle/UnpickleComplexTests.cs:166-167 | "hello" from exceptions.ZeroDivisionError becomes "[exceptions.ZeroDivisionError] hello" (a test vector, not a general property) |
| Exceptions.GeneratorExitMessage | dotnet/Razorvine.Pickle/UnitTests/Pickle/UnpickleComplexTests.cs:186-187 | builtins.GeneratorExit without arguments gets the message "[builtins.GeneratorExit]" (a test vector, not a general property) |
| Exceptions.ExceptionConstructor.constructor | dotnet/Razorvine.Pickle/Pickle/Pickle/Objects/ExceptionConstructor.cs:17-23 | the stored type name is PythonTypeName(module, name) |
| Exceptions.ExceptionConstructor.Construct | dotnet/Razorvine.Pickle/Pickle/Pickle/Objects/ExceptionConstructor.cs:25-47 | every failure, from the cast or from finding a constructor, becomes PickleException("problem constructing object") with it as cause. On success a fresh exception gets the rewritten args, and its PythonExceptionType is set when the type has that property. |
| Exceptions.ZeroDivisionExample | dotnet/Razorvine.Pickle/UnitTests/Pickle/UnpickleComplexTests.cs:166-168 | the unpickled exception has message "[exceptions.ZeroDivisionError] hello" and PythonExceptionType "exceptions.ZeroDivisionError" |
| Encodings.RenameLatin | dotnet/Razorvine.Pickle/Pickle/Pickle/Objects/ByteArrayConstructor.cs:43-44 | `latin-X` becomes `ISO-8859-X`; other names are unchanged |
| Encodings.RenameLatinProperties | java/src/main/java/net/razorvine/pickle/objects/ByteArrayConstructor.java:40-41 | renaming is idempotent and keeps the part after the prefix; "latin-1" becomes "ISO-8859-1" |
| ByteArrayCSharp.ToByte | dotnet/Razorvine.Pickle/Pickle/Pickle/Objects/ByteArrayConstructor.cs:33 | Convert.ToByte: an int converts exactly when it is in 0..255, else OverflowException; non-convertible values fail the cast |
| ByteArrayCSharp.ToBytes | dotnet/Razorvine.Pickle/Pickle/Pickle/Objects/ByteArrayConstructor.cs:30-35 | succeeds exactly when every element converts, with element i converted at position i. A failure is the error of the first element that fails. |
| ByteArrayCSharp.ToBytesOfInts | dotnet/Razorvine.Pickle/Pickle/Pickle/Objects/ByteArrayConstructor.cs:28-36 | a list of ints converts exactly when all are in 0..255, and then gives back the same values |
| ByteArrayCSharp.FromString | dotnet/Razorvine.Pickle/Pickle/Pickle/Objects/ByteArrayConstructor.cs:41-45 | succeeds exactly for two strings whose renamed encoding is supported, with that encoding's bytes |
| ByteArrayCSharp.Construct | dotnet/Razorvine.Pickle/Pickle/Pickle/Objects/ByteArrayConstructor.cs:15-48 | more than 2 args: PickleException with the count. 0 args: a fresh empty array. One byte[]: the same array, no copy. One list: a fresh array converted element by element, or the first failure. 2 args: the encoded string. |
| ByteArrayJava.Wrap8 | java/src/main/java/net/razorvine/pickle/objects/ByteArrayConstructor.java:34 | byteValue(): the signed byte congruent to the value modulo 256 |
| ByteArrayJava.Wrap8Properties | java/src/main/java/net/razorvine/pickle/objects/ByteArrayConstructor.java:34 | small values are kept, adding 256 changes nothing, and 0..255 map to the signed byte with the same bits |
| ByteArrayJava.ByteValue | java/src/main/java/net/razorvine/pickle/objects/ByteArrayConstructor.java:31-34 | every number converts, by byteValue; a null element is a NullPointerException; other elements fail the cast |
| ByteArrayJava.FromString | java/src/main/java/net/razorvine/pickle/objects/ByteArrayConstructor.java:38-46 | succeeds exactly for two strings with a supported renamed encoding. An unsupported encoding is wrapped as PickleException("error creating bytearray: …"). |
| ByteArrayJava.Construct | java/src/main/java/net/razorvine/pickle/objects/ByteArrayConstructor.java:16-48 | the same dispatch as the .NET version, except that a list of numbers always converts (each wrapped to 8 bits) into a fresh array of the same length |
| Strings.Construct | dotnet/Razorvine.Pickle/Pickle/Pickle/Objects/StringConstructor.cs:14-22 | succeeds exactly for no args ("") or one string arg (that string); every other shape is PickleException("invalid string constructor arguments") |
| Strings.ConstructRoundTrip | dotnet/Razorvine.Pickle/Pickle/Pickle/Objects/StringConstructor.cs:18-19 | every string comes back from its one-argument form, and "" also from no arguments |
| Sets.Construct | dotnet/Razorvine.Pickle/Pickle/Pickle/Objects/SetConstructor.cs:14-18 | no argument is an index error, a null list a null reference, and a non-list a cast error. A list gives a set holding each of its elements. |
| Sets.Membership | java/src/main/java/net/razorvine/pickle/objects/SetConstructor.java:18-23 | x is in the set exactly when it is an element of args[0], whatever follows args[0] |
| Sets.ElementsBound | dotnet/Razorvine.Pickle/Pickle/Pickle/Objects/SetConstructor.cs:17 | duplicates collapse: the set is no larger than the list |
| Sets.ConstructProperties | java/src/main/java/net/razorvine/pickle/objects/SetConstructor.java:21-22 | arguments after args[0] are ignored, any permutation of the list gives the same set, and an empty list gives the empty set |

## Left out

- Floating point: `double_to_bytes_bigendian`, `bytes_bigendian_to_double` and `bytes_bigendian_to_float` reinterpret IEEE-754 bits through pointer casts. Dafny has no such reinterpretation.
- Host endianness: on a big-endian host, `bytes_to_*` and `integer_to_bytes` swap bytes and reach the same values. Only that host-independent result is modelled.
- `GetStringFromUtf8`, `IsWhitespace` and the `Encoding`/`String.getBytes` step of the two-argument bytearray case are platform text facilities. The encoding is the `Codecs` parameter (which names are supported, and the bytes of a string).
- PickleText.DecodeUnicodeEscaped: hex escapes are parsed as plain hex digits (`ParseHex`). Convert.ToInt32(s, 16) does more. It accepts a leading `+`, so `\u+041` decodes to `A` in the source but is a FormatException in the model. It throws ArgumentException, not FormatException, on a leading `-`. It accepts a leading `0x`, and it can return a negative int for 8 digits. None of these is modelled. An 8-digit value above U+10FFFF is an ArgumentOutOfRangeException in the model, as it is in the source.
- PickleText.DecodeEscaped: the exception messages name the escape char, but the model does not build the message text with the string truncated to 80 chars.
- PickleText.DecodeEscaped: `\x` escapes are parsed as two plain hex digits (`ParseHex`). Convert.ToInt32(s, 16) also accepts a leading `+`, so `\x+5` decodes to U+0005 in the source but is a FormatException in the model. It throws ArgumentException, not FormatException, on a leading `-`. Neither is modelled.
- Streams.ByteStream.Read: a real stream may return any positive number of bytes up to what was asked. The model returns min(count, chunk, remaining) for a fixed chunk, which is one of the allowed behaviours.
- Streams.ByteStream.Seek: .NET lets a position go past the end of a stream. The model clamps it at the end, which reads the same.
- PickleIO.Grow: the doubling `Length * 2` is unbounded. In the source it is int arithmetic. For a line longer than 2^30 bytes it overflows to int.MinValue, and Array.Resize throws ArgumentOutOfRangeException. The model grows past the int range instead.
- Reader.EnsuredLength: `buffer.Length * 2` is unbounded. In the source the int overflow makes Math.Max pick bytesCount once the buffer holds 2^30 bytes or more. The model doubles past the int range instead.
- Reader.StreamReader: the source's StreamReader is a mutable struct, copied on assignment. The model is a class, one shared object, so the copy semantics are not modelled. The core uses a single reader in place.
- Reader.StreamReader.ReadBytes: the source returns a ReadOnlySpan view of the scratch buffer, and ReadLineBytes does the same. The model returns the bytes as a sequence. The contract ties them to the buffer's first places at return. That the view shows different bytes after the next ReadBytes, ReadLineBytes or Skip (aliasing) is not modelled.
- ByteArrayJava.ByteValue: `Value` has no floating-point case, so `Double.byteValue()` (truncation toward zero, then the low 8 bits) on a list element is not modelled. "Every number converts" covers the integer numbers only.
- Pickling.PicklerImplementation.Dump: the pickling itself (opcodes, the memo, recursion limits) is not part of this model. What is pickled for an object is the `payload` parameter. ArrayWriter's growth is modelled as growing to max(need, 2·length).
- `dump(o, Stream)`, `save`, `Dispose` (IDisposable) and the stream writer of Pickler.cs are output plumbing and are not modelled.
- Thread safety: the static registries are documented as not thread-safe, and the model is single-threaded. The registries are ordinary objects passed to the pickler.
- Exceptions.ExceptionConstructor.Construct: Activator.CreateInstance and property lookup are reflection. An exception type is described by the arities of its string-only constructors and whether it has a PythonExceptionType property. A MissingMethodException stands for every failure to create.
- ByteArrayCSharp.ToByte: Convert.ToByte on strings is modelled for plain decimal digits only. Culture-dependent parsing, signs and whitespace are not modelled. Convert.ToByte on floating-point values is not modelled.
- Sets.Construct: elements are compared by Dafny value equality. .NET and Java compare by Equals/GetHashCode, so two equal-valued lists, or an int and a long of the same value, may stay distinct there. Arrays compare by reference in both.
- ClassDicts.ClassDict: a null class name is not modelled; names are strings.
- The unit tests are not modelled. Their vectors for ClassDict and the exception messages appear as the example members above.

## Findings

| source | as written | input that shows it | evidently intended | confidence | as-written member | corrected member |
|---|---|---|---|---|---|---|
| dotnet/Razorvine.Pickle/Pickle/Pickle/Internals/StreamReader.cs:46-49 | on a stream that cannot seek, Skip makes one `Read` and ignores how many bytes it returned | a non-seekable stream of 8 bytes whose Read returns at most 4: Skip(8) leaves 4 bytes unread, and the next read starts in the middle of the skipped data | skip exactly bytesCount bytes, looping as readbytes_into does, and report premature end when the input is shorter | medium, not executed | Reader.SkipShortRead | Reader.StreamReader.SkipFully |
