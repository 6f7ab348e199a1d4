/** StringConstructor.cs: a .NET string from its constructor arguments. */
module Strings {
  import opened Wrappers
  import opened Values

  /** construct(args): "" for no arguments, the string itself for one string
      argument, and "invalid string constructor arguments" for anything else. */
  function Construct(args: seq<Value>): (r: Result<string>)
    ensures r.Ok? <==> |args| == 0 || (|args| == 1 && args[0].Str?)
    ensures r.Err? ==> r.error == PickleError("invalid string constructor arguments")
    ensures |args| == 1 && args[0].Str? ==> r == Ok(args[0].s)
    ensures |args| == 0 ==> r == Ok("")
  {
    if |args| == 0 then Ok("")
    else if |args| == 1 && args[0].Str? then Ok(args[0].s)
    else Err(PickleError("invalid string constructor arguments"))
  }

  /** Every string comes back from its one-argument form, and the empty string
      also from the empty argument list. */
  lemma ConstructRoundTrip(s: string)
    ensures Construct([Str(s)]) == Ok(s)
    ensures Construct([]) == Construct([Str("")])
  {
  }
}
