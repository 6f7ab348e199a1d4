/**
 * Pickler.cs: the registries of custom picklers and deconstructors, the type
 * lookup over them, and the per-call life cycle of dumps.
 *
 * Types are abstract: a type parameter with an `assignable(from, to)`
 * relation standing for Type.IsAssignableFrom. A .NET Dictionary that is only
 * ever added to enumerates its keys in insertion order, so a registry is its
 * key order plus its entries.
 */
module Pickling {
  import opened Wrappers
  import opened PickleUtils
  import opened Streams

  // ---------------------------------------------------------------------------
  // Lookup over a registry's state
  // ---------------------------------------------------------------------------

  /** A registry state: every key once, in insertion order, each with an entry. */
  ghost predicate WellFormed<K, V>(order: seq<K>, entries: map<K, V>)
  {
    (forall i, j :: 0 <= i < j < |order| ==> order[i] != order[j]) &&
    (forall i :: 0 <= i < |order| ==> order[i] in entries) &&
    entries.Keys == set i | 0 <= i < |order| :: order[i]
  }

  /** The value of the first key, in enumeration order, that t is assignable
      to (FirstOrDefault over the dictionary); None for the default null. */
  function FirstAssignable<K, V>(order: seq<K>, entries: map<K, V>, t: K, assignable: (K, K) -> bool): (r: Option<V>)
    requires forall i :: 0 <= i < |order| ==> order[i] in entries
    ensures r.Some? <==> exists i :: 0 <= i < |order| && assignable(order[i], t)
    ensures r.Some? ==>
      exists i :: (0 <= i < |order| && assignable(order[i], t) &&
        r.value == entries[order[i]] && forall j :: 0 <= j < i ==> !assignable(order[j], t))
  {
    if order == [] then None
    else if assignable(order[0], t) then Some(entries[order[0]])
    else
      var r := FirstAssignable(order[1..], entries, t, assignable);
      assert forall i :: 0 < i < |order| ==> order[i] == order[1..][i - 1];
      r
  }

  /** getCustomPickler: the exact registration if there is one, otherwise the
      first registered key t is assignable to. */
  function LookupPickler<K, V>(order: seq<K>, entries: map<K, V>, t: K, assignable: (K, K) -> bool): (r: Option<V>)
    requires forall i :: 0 <= i < |order| ==> order[i] in entries
    ensures t in entries ==> r == Some(entries[t])
    ensures t !in entries ==> r == FirstAssignable(order, entries, t, assignable)
  {
    if t in entries then Some(entries[t]) else FirstAssignable(order, entries, t, assignable)
  }

  /** getCustomDeconstructor: the exact registration only. */
  function LookupDeconstructor<K, V>(entries: map<K, V>, t: K): (r: Option<V>)
    ensures r.Some? <==> t in entries
    ensures r.Some? ==> r.value == entries[t]
  {
    if t in entries then Some(entries[t]) else None
  }

  /** The exact registration wins even when an earlier key would also match. */
  lemma ExactBeatsAssignable<K, V>(order: seq<K>, entries: map<K, V>, t: K, assignable: (K, K) -> bool, k: K)
    requires forall i :: 0 <= i < |order| ==> order[i] in entries
    requires t in entries && k in entries && k != t && entries[k] != entries[t]
    requires |order| > 0 && order[0] == k && assignable(k, t)
    ensures LookupPickler(order, entries, t, assignable) == Some(entries[t])
    ensures FirstAssignable(order, entries, t, assignable) == Some(entries[k])
  {
  }

  /** A deconstructor registered for a base type is not found for a subtype. */
  lemma DeconstructorNotInherited<K, V>(entries: map<K, V>, base: K, t: K, assignable: (K, K) -> bool)
    requires base in entries && t !in entries && assignable(base, t)
    ensures LookupDeconstructor(entries, t) == None
  {
  }

  /** Registering a new key appends it: every earlier answer of the fallback
      lookup stands, and a type no earlier key matched now finds the new key
      if it is assignable to it. */
  lemma {:induction false} FirstAssignableAppend<K, V>(order: seq<K>, entries: map<K, V>, k: K, v: V, t: K, assignable: (K, K) -> bool)
    requires forall i :: 0 <= i < |order| ==> order[i] in entries
    requires k !in order
    ensures forall i :: 0 <= i < |order + [k]| ==> (order + [k])[i] in entries[k := v]
    ensures FirstAssignable(order + [k], entries[k := v], t, assignable) ==
      var before := FirstAssignable(order, entries, t, assignable);
      if before.Some? then before else if assignable(k, t) then Some(v) else None
  {
    if order == [] {
      assert order + [k] == [k];
    } else {
      assert (order + [k])[1..] == order[1..] + [k];
      FirstAssignableAppend(order[1..], entries, k, v, t, assignable);
    }
  }

  /** Overwriting an existing key keeps the order: the fallback lookup changes
      only for types that the overwritten key matches. */
  lemma {:induction false} FirstAssignableOverwrite<K, V>(order: seq<K>, entries: map<K, V>, k: K, v: V, t: K, assignable: (K, K) -> bool)
    requires forall i :: 0 <= i < |order| ==> order[i] in entries
    requires k in entries
    ensures !assignable(k, t) ==>
      FirstAssignable(order, entries[k := v], t, assignable) == FirstAssignable(order, entries, t, assignable)
  {
    if order != [] {
      FirstAssignableOverwrite(order[1..], entries, k, v, t, assignable);
    }
  }

  // ---------------------------------------------------------------------------
  // The registries
  // ---------------------------------------------------------------------------

  /** One of the two static dictionaries (customPicklers, customDeconstructors). */
  class Registry<K(==), V> {
    var order: seq<K>
    var entries: map<K, V>

    ghost predicate Valid()
      reads this
    {
      WellFormed(order, entries)
    }

    constructor ()
      ensures Valid() && order == [] && entries == map[]
    {
      order := [];
      entries := map[];
    }

    /** `dictionary[clazz] = value`: last write wins, other entries stay, and a
        key keeps its place in the enumeration order. */
    method Register(clazz: K, value: V)
      requires Valid()
      modifies this
      ensures Valid()
      ensures entries == old(entries)[clazz := value]
      ensures order == if clazz in old(entries) then old(order) else old(order) + [clazz]
    {
      RegisterWellFormed(order, entries, clazz, value);
      if clazz !in entries {
        order := order + [clazz];
      }
      entries := entries[clazz := value];
    }

    function GetPickler(t: K, assignable: (K, K) -> bool): (r: Option<V>)
      reads this
      requires Valid()
      ensures r == LookupPickler(order, entries, t, assignable)
    {
      LookupPickler(order, entries, t, assignable)
    }

    function GetDeconstructor(t: K): (r: Option<V>)
      reads this
      ensures r == LookupDeconstructor(entries, t)
    {
      LookupDeconstructor(entries, t)
    }
  }

  /** A registration keeps a registry state well formed. */
  lemma RegisterWellFormed<K, V>(order: seq<K>, entries: map<K, V>, clazz: K, value: V)
    requires WellFormed(order, entries)
    ensures WellFormed(if clazz in entries then order else order + [clazz], entries[clazz := value])
  {
    if clazz !in entries {
      var o := order + [clazz];
      var before := set i | 0 <= i < |order| :: order[i];
      var after := set i | 0 <= i < |o| :: o[i];
      forall x
        ensures x in after <==> x in before || x == clazz
      {
        if x in after {
          var i :| 0 <= i < |o| && o[i] == x;
          if i < |order| {
            assert order[i] == x;
          }
        }
        if x in before {
          var i :| 0 <= i < |order| && order[i] == x;
          assert o[i] == x;
        }
        if x == clazz {
          assert o[|order|] == x;
        }
      }
      assert after == before + {clazz};
    } else {
      assert entries[clazz := value].Keys == entries.Keys;
    }
  }

  /** After registering a pickler for clazz, lookups of clazz find it, and
      the lookup of any type clazz does not match gives what it gave before. */
  lemma RegisterPicklerLookup<K, V>(order: seq<K>, entries: map<K, V>, clazz: K, value: V, t: K, assignable: (K, K) -> bool)
    requires WellFormed(order, entries)
    ensures var order' := if clazz in entries then order else order + [clazz];
      var entries' := entries[clazz := value];
      WellFormed(order', entries') &&
      LookupPickler(order', entries', clazz, assignable) == Some(value) &&
      (t != clazz && !assignable(clazz, t) ==>
        LookupPickler(order', entries', t, assignable) == LookupPickler(order, entries, t, assignable))
  {
    var order' := if clazz in entries then order else order + [clazz];
    RegisterWellFormed(order, entries, clazz, value);
    if clazz in entries {
      FirstAssignableOverwrite(order, entries, clazz, value, t, assignable);
    } else {
      FirstAssignableAppend(order, entries, clazz, value, t, assignable);
    }
    assert forall i :: 0 <= i < |order'| ==> order'[i] in entries[clazz := value];
  }

  /** persistentId, as not overridden: no persistent id, and newpid is null. */
  function PersistentId<O>(pid: O): (r: (bool, Option<O>))
    ensures !r.0 && r.1.None?
  {
    (false, None)
  }

  // ---------------------------------------------------------------------------
  // dumps
  // ---------------------------------------------------------------------------

  /** The part of PicklerImplementation that dumps relies on: its output
      buffer, the count of bytes written, and whether it has been disposed.
      What it writes for an object is a parameter of the model. */
  class PicklerImplementation {
    const useMemo: bool
    var buffer: array<byte>
    var bytesWritten: nat
    var disposed: bool

    constructor (output: array<byte>, useMemo: bool)
      ensures this.useMemo == useMemo && buffer == output && bytesWritten == 0 && !disposed
    {
      this.useMemo := useMemo;
      buffer := output;
      bytesWritten := 0;
      disposed := false;
    }

    /** dump(o), for an object whose pickle is `payload`: the bytes go to the
        front of the buffer, which is replaced by a larger one if too small. */
    method Dump(payload: seq<byte>)
      modifies this, buffer
      ensures bytesWritten == |payload| <= buffer.Length
      ensures buffer[..bytesWritten] == payload
      ensures |payload| <= old(buffer.Length) ==> buffer == old(buffer)
      ensures |payload| > old(buffer.Length) ==> fresh(buffer)
      ensures disposed == old(disposed)
    {
      if |payload| > buffer.Length {
        buffer := Resize(buffer, if |payload| > 2 * buffer.Length then |payload| else 2 * buffer.Length);
      }
      forall i | 0 <= i < |payload| {
        buffer[i] := payload[i];
      }
      bytesWritten := |payload|;
    }

    method Dispose()
      modifies this
      ensures disposed && buffer == old(buffer) && bytesWritten == old(bytesWritten)
    {
      disposed := true;
    }
  }

  class Pickler<T(==), P, D> {
    const useMemo: bool
    const customPicklers: Registry<T, P>
    const customDeconstructors: Registry<T, D>
    var implementation: PicklerImplementation?

    /** Pickler(): memo on. */
    constructor Default(customPicklers: Registry<T, P>, customDeconstructors: Registry<T, D>)
      ensures useMemo && implementation == null
      ensures this.customPicklers == customPicklers && this.customDeconstructors == customDeconstructors
    {
      useMemo := true;
      this.customPicklers := customPicklers;
      this.customDeconstructors := customDeconstructors;
      implementation := null;
    }

    /** Pickler(useMemo). */
    constructor (customPicklers: Registry<T, P>, customDeconstructors: Registry<T, D>, useMemo: bool)
      ensures this.useMemo == useMemo && implementation == null
      ensures this.customPicklers == customPicklers && this.customDeconstructors == customDeconstructors
    {
      this.useMemo := useMemo;
      this.customPicklers := customPicklers;
      this.customDeconstructors := customDeconstructors;
      implementation := null;
    }

    /** close: disposes the current implementation, if any. */
    method Close()
      modifies implementation
      ensures implementation != null ==> implementation.disposed
    {
      if implementation != null {
        implementation.Dispose();
      }
    }

    static method RegisterCustomPickler(registry: Registry<T, P>, clazz: T, pickler: P)
      requires registry.Valid()
      modifies registry
      ensures registry.Valid()
      ensures registry.entries == old(registry.entries)[clazz := pickler]
      ensures registry.order == if clazz in old(registry.entries) then old(registry.order) else old(registry.order) + [clazz]
    {
      registry.Register(clazz, pickler);
    }

    static method RegisterCustomDeconstructor(registry: Registry<T, D>, clazz: T, deconstructor: D)
      requires registry.Valid()
      modifies registry
      ensures registry.Valid()
      ensures registry.entries == old(registry.entries)[clazz := deconstructor]
      ensures registry.order == if clazz in old(registry.entries) then old(registry.order) else old(registry.order) + [clazz]
    {
      registry.Register(clazz, deconstructor);
    }

    function GetCustomPickler(t: T, assignable: (T, T) -> bool): (r: Option<P>)
      reads this, customPicklers
      requires customPicklers.Valid()
      ensures r == LookupPickler(customPicklers.order, customPicklers.entries, t, assignable)
    {
      customPicklers.GetPickler(t, assignable)
    }

    function GetCustomDeconstructor(t: T): (r: Option<D>)
      reads this, customDeconstructors
      ensures r == LookupDeconstructor(customDeconstructors.entries, t)
    {
      customDeconstructors.GetDeconstructor(t)
    }

    /** dumps(o): closes the previous implementation, pickles into a fresh
        implementation over a fresh 64-byte buffer, and returns exactly the
        bytes written. */
    method Dumps(payload: seq<byte>) returns (bytes: array<byte>)
      modifies this, implementation
      ensures old(implementation) != null ==> old(implementation).disposed
      ensures implementation != null && fresh(implementation)
      ensures implementation.useMemo == useMemo && !implementation.disposed
      ensures bytes.Length == implementation.bytesWritten
      ensures bytes[..] == payload
    {
      Close();
      var output := new byte[64](_ => 0);
      implementation := new PicklerImplementation(output, useMemo);
      implementation.Dump(payload);
      var written := implementation.buffer;
      bytes := Resize(written, implementation.bytesWritten);
      assert bytes[..] == written[..implementation.bytesWritten];
    }

    /** dumps(o, ref output, out bytesWritten): pickles into the caller's
        array, which comes back replaced when it was too small. */
    method DumpsInto(payload: seq<byte>, output: array<byte>) returns (newOutput: array<byte>, bytesWritten: nat)
      modifies this, implementation, output
      ensures old(implementation) != null ==> old(implementation).disposed
      ensures implementation != null && fresh(implementation)
      ensures implementation.useMemo == useMemo && !implementation.disposed
      ensures bytesWritten == |payload| <= newOutput.Length
      ensures newOutput[..bytesWritten] == payload
      ensures |payload| <= output.Length ==> newOutput == output
    {
      Close();
      implementation := new PicklerImplementation(output, useMemo);
      implementation.Dump(payload);
      newOutput := implementation.buffer;
      bytesWritten := implementation.bytesWritten;
    }
  }
}
