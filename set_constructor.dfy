/**
 * SetConstructor, .NET and Java: a set from the list in the first argument.
 * Both versions cast args[0] to ArrayList and build a hash set of its
 * elements, and fail in the same ways: no argument at all (index out of
 * range), a first argument that is not a list (cast), a null one (null
 * reference). Elements are compared as values.
 */
module Sets {
  import opened Wrappers
  import opened Values

  function Construct(args: seq<Value>): (r: Result<set<Value>>)
    ensures |args| == 0 ==> r == Err(IndexOutOfRange)
    ensures |args| > 0 && args[0].Null? ==> r == Err(NullReference)
    ensures |args| > 0 && !(args[0].List? || args[0].Null?) ==> r == Err(InvalidCast)
    ensures r.Ok? <==> |args| > 0 && args[0].List?
    ensures r.Ok? ==> forall i :: 0 <= i < |args[0].items| ==> args[0].items[i] in r.value
  {
    if |args| == 0 then Err(IndexOutOfRange)
    else match args[0]
      case List(items) => Ok(set x | x in items)
      case Null => Err(NullReference)
      case _ => Err(InvalidCast)
  }

  /** An element is in the set exactly when it is in the list. */
  lemma Membership(items: seq<Value>, x: Value, more: seq<Value>)
    ensures Construct([List(items)] + more).Ok?
    ensures x in Construct([List(items)] + more).value <==> x in items
  {
    assert ([List(items)] + more)[0] == List(items);
  }

  /** Duplicates collapse: the set is never larger than the list. */
  lemma {:induction false} ElementsBound(items: seq<Value>)
    ensures |set x | x in items| <= |items|
  {
    if items != [] {
      ElementsBound(items[1..]);
      assert (set x | x in items) == (set x | x in items[1..]) + {items[0]};
    }
  }

  /** The set depends on args[0] only, not on the order of its elements or on
      any later argument; the empty list gives the empty set. */
  lemma ConstructProperties(items: seq<Value>, other: seq<Value>, more: seq<Value>)
    ensures Construct([List(items)] + more) == Construct([List(items)])
    ensures multiset(items) == multiset(other) ==> Construct([List(items)]) == Construct([List(other)])
    ensures Construct([List([])]) == Ok({})
    ensures Construct([List(items)]).Ok? && |Construct([List(items)]).value| <= |items|
  {
    ElementsBound(items);
    var none: seq<Value> := [];
    var e := Construct([List(none)]);
    assert e.value == set x | x in none;
    assert forall x :: x in e.value ==> x in none;
    assert e.value == {};
    if multiset(items) == multiset(other) {
      assert forall x :: x in items <==> x in multiset(items);
      assert forall x :: x in other <==> x in multiset(other);
      assert (set x | x in items) == (set x | x in other);
    }
  }
}
