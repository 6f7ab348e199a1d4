/**
 * The Java ClassDict, the generic record an unregistered Python class is
 * unpickled into (a map of its fields tagged with `__class__`), and the
 * ClassDictConstructor that creates one per REDUCE.
 */
module ClassDicts {
  import opened Wrappers
  import opened Values

  const ClassKey: string := "__class__"

  /** The stored class name: module.name, or name alone when there is no module. */
  function ClassName(modulename: Option<string>, classname: string): (r: string)
    ensures modulename.None? ==> r == classname
    ensures modulename.Some? ==> r == modulename.value + "." + classname
  {
    if modulename.None? then classname else modulename.value + "." + classname
  }

  /** With a module, the name splits back at the dot after the module. */
  lemma ClassNameParts(modulename: string, classname: string)
    ensures var r := ClassName(Some(modulename), classname);
      |r| == |modulename| + 1 + |classname| &&
      r[..|modulename|] == modulename && r[|modulename|] == '.' && r[|modulename| + 1..] == classname
  {
    var r := ClassName(Some(modulename), classname);
    assert r == modulename + "." + classname;
    assert r[..|modulename|] == modulename;
    assert r[|modulename| + 1..] == classname;
  }

  /** The fields after __setstate__(values): the class tag, overridden by
      whatever values holds, and nothing else. */
  function StateAfter(classname: string, values: map<string, Value>): (m: map<string, Value>)
    ensures m.Keys == values.Keys + {ClassKey}
    ensures forall k :: k in values ==> m[k] == values[k]
    ensures ClassKey !in values ==> m[ClassKey] == Str(classname)
  {
    map[ClassKey := Str(classname)] + values
  }

  class ClassDict {
    const classname: string
    var entries: map<string, Value>

    constructor (modulename: Option<string>, classname: string)
      ensures this.classname == ClassName(modulename, classname)
      ensures entries == map[ClassKey := Str(this.classname)]
    {
      this.classname := ClassName(modulename, classname);
      entries := map[ClassKey := Str(ClassName(modulename, classname))];
    }

    /** __setstate__: clear, put the class tag, putAll(values). The new state
        does not depend on the old one, so applying it twice is applying it once. */
    method SetState(values: map<string, Value>)
      modifies this
      ensures entries == StateAfter(classname, values)
    {
      entries := map[];
      entries := entries[ClassKey := Str(classname)];
      entries := entries + values;
    }

    function GetClassName(): (r: string)
      ensures r == classname
    {
      classname
    }
  }

  class ClassDictConstructor {
    const moduleName: Option<string>
    const name: string

    constructor (moduleName: Option<string>, name: string)
      ensures this.moduleName == moduleName && this.name == name
    {
      this.moduleName := moduleName;
      this.name := name;
    }

    /** construct(args): a fresh ClassDict for zero arguments, else a
        PickleException naming the class. */
    method Construct(args: seq<Value>) returns (r: Result<ClassDict>)
      ensures |args| > 0 ==> r == Err(PickleError(ArgumentsMessage(moduleName, name)))
      ensures |args| == 0 ==>
        (r.Ok? && fresh(r.value) &&
         r.value.classname == ClassName(moduleName, name) &&
         r.value.entries == map[ClassKey := Str(ClassName(moduleName, name))])
    {
      if |args| > 0 {
        return Err(PickleError(ArgumentsMessage(moduleName, name)));
      }
      var d := new ClassDict(moduleName, name);
      r := Ok(d);
    }
  }

  /** The message of the PickleException: the class name, with a missing
      module printed as "null", between a fixed lead-in and a fixed hint. */
  function ArgumentsMessage(moduleName: Option<string>, name: string): string
  {
    ArgumentsLeadIn + (if moduleName.None? then "null" else moduleName.value) + "." + name + ArgumentsHint
  }

  const ArgumentsLeadIn: string := "expected zero arguments for construction of ClassDict (for "
  const ArgumentsHint: string :=
    "). This happens when an unsupported/unregistered class is being unpickled that requires construction arguments. " +
    "Fix it by registering a custom IObjectConstructor for this class."

  /** ClassDict("module", "myclass") and what ClassDictConstructor("module",
      "myclass") builds are both tagged "module.myclass"; two constructions
      give two distinct dicts. */
  method ClassDictExample() returns (direct: Value, constructed: Value, name: string, distinct: bool)
    ensures direct == Str("module.myclass") && constructed == Str("module.myclass")
    ensures name == "module.myclass"
    ensures distinct
  {
    var cd := new ClassDict(Some("module"), "myclass");
    direct := cd.entries[ClassKey];
    var cdc := new ClassDictConstructor(Some("module"), "myclass");
    var r1 := cdc.Construct([]);
    var r2 := cdc.Construct([]);
    constructed := r1.value.entries[ClassKey];
    name := r1.value.GetClassName();
    distinct := r1.value != r2.value;
  }
}
