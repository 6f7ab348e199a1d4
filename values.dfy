/**
 * The objects the unpickler hands to the reduce-time constructors as their
 * argument arrays, as far as those constructors look at them.
 */
module Values {
  import opened Wrappers
  import opened PickleUtils

  /** A Java byte: a signed 8-bit value. */
  type int8 = x: int | -0x80 <= x < 0x80

  datatype Value =
    | Null
    | Bool(b: bool)
    | Int(i: int)                     // a boxed int or long (any value the 64-bit range holds)
    | BigInt(i: int)                  // System.Numerics.BigInteger / java.math.BigInteger
    | Str(s: string)
    | Bytes(bytes: array<byte>)       // a .NET byte[]
    | JavaBytes(jbytes: array<int8>)  // a Java byte[]
    | List(items: seq<Value>)         // an ArrayList
    | Dict(entries: map<string, Value>)

  /** The list that the unpickler builds for the ints of a Python bytes value. */
  function IntList(s: seq<int>): (l: seq<Value>)
    ensures |l| == |s| && forall i :: 0 <= i < |s| ==> l[i] == Int(s[i])
  {
    if s == [] then [] else [Int(s[0])] + IntList(s[1..])
  }
}
