/**
 * ExceptionConstructor.cs: creates the .NET exception for a pickled Python
 * exception, putting the Python type name in front of the message and
 * recording it on the exception when the exception type has a place for it.
 *
 * Activator.CreateInstance is reflection; the model describes an exception
 * type by the constructor arities it offers (all parameters strings) and
 * whether it has a PythonExceptionType property.
 */
module Exceptions {
  import opened Wrappers
  import opened Values
  import ClassDicts

  datatype ExceptionType = ExceptionType(name: string, arities: set<nat>, hasPythonExceptionType: bool)

  /** The Python type name: module.name, or name alone when the module is null or empty. */
  function PythonTypeName(moduleName: Option<string>, name: string): (r: string)
    ensures moduleName.None? || moduleName.value == "" ==> r == name
    ensures moduleName.Some? && moduleName.value != "" ==> r == moduleName.value + "." + name
  {
    if moduleName.None? || moduleName.value == "" then name else moduleName.value + "." + name
  }

  /** The same as ClassDict's class name, except for an empty module, which
      ClassDict keeps (".name") and this drops. */
  lemma TypeNameVersusClassName(moduleName: Option<string>, name: string)
    ensures moduleName.None? || moduleName.value != "" ==> PythonTypeName(moduleName, name) == ClassDicts.ClassName(moduleName, name)
    ensures moduleName == Some("") ==> ClassDicts.ClassName(moduleName, name) == "." + PythonTypeName(moduleName, name)
  {
  }

  /** The arguments construct passes on: with a type name, one message
      "[type]" or "[type] message" (a null message prints as nothing) and the
      other arguments dropped; without one, the arguments unchanged. A first
      argument that is not a string fails the cast. */
  function ConstructorArgs(pythonType: string, args: Option<seq<Value>>): (r: Result<Option<seq<Value>>>)
    ensures pythonType == "" ==> r == Ok(args)
    ensures pythonType != "" && (args.None? || args.value == []) ==> r == Ok(Some([Str("[" + pythonType + "]")]))
    ensures pythonType != "" && args.Some? && args.value != [] ==>
      match args.value[0]
      case Str(m) => r == Ok(Some([Str("[" + pythonType + "] " + m)]))
      case Null => r == Ok(Some([Str("[" + pythonType + "] ")]))
      case _ => r == Err(InvalidCast)
  {
    if pythonType == "" then Ok(args)
    else if args.None? || args.value == [] then Ok(Some([Str("[" + pythonType + "]")]))
    else match args.value[0]
      case Str(m) => Ok(Some([Str("[" + pythonType + "] " + m)]))
      case Null => Ok(Some([Str("[" + pythonType + "] ")]))
      case _ => Err(InvalidCast)
  }

  /** The original message can be read back from the rewritten one. */
  lemma MessageRecoverable(pythonType: string, m: string)
    requires pythonType != ""
    ensures var r := ConstructorArgs(pythonType, Some([Str(m)]));
      r.Ok? && r.value.Some? && |r.value.value| == 1 && r.value.value[0].Str? &&
      r.value.value[0].s[..|pythonType| + 3] == "[" + pythonType + "] " &&
      r.value.value[0].s[|pythonType| + 3..] == m
  {
    var s := "[" + pythonType + "] " + m;
    assert s[..|pythonType| + 3] == "[" + pythonType + "] ";
    assert s[|pythonType| + 3..] == m;
  }

  /** The message of an unpickled ZeroDivisionError("hello"). */
  lemma ZeroDivisionMessage()
    ensures ConstructorArgs("exceptions.ZeroDivisionError", Some([Str("hello")]))
         == Ok(Some([Str("[exceptions.ZeroDivisionError] hello")]))
  {
    var t := "exceptions.ZeroDivisionError";
    assert "[" + t + "] " + "hello" == "[exceptions.ZeroDivisionError] hello";
  }

  /** The type name of ZeroDivisionError as Python 2 pickles it. */
  lemma ZeroDivisionTypeName()
    ensures PythonTypeName(Some("exceptions"), "ZeroDivisionError") == "exceptions.ZeroDivisionError"
  {
    assert "exceptions" + "." + "ZeroDivisionError" == "exceptions.ZeroDivisionError";
  }

  /** The message of an unpickled GeneratorExit(), which has no arguments. */
  lemma GeneratorExitMessage()
    ensures ConstructorArgs("builtins.GeneratorExit", Some([])) == Ok(Some([Str("[builtins.GeneratorExit]")]))
  {
    var t := "builtins.GeneratorExit";
    assert "[" + t + "]" == "[builtins.GeneratorExit]";
  }

  /** Whether Activator.CreateInstance finds a constructor for these arguments
      (null arguments select the parameterless one). */
  predicate Creatable(t: ExceptionType, args: Option<seq<Value>>)
  {
    var a := if args.None? then [] else args.value;
    |a| in t.arities && forall i :: 0 <= i < |a| ==> a[i].Str? || a[i].Null?
  }

  /** The exception object CreateInstance returns. */
  class PythonException {
    const exceptionType: ExceptionType
    const args: seq<Value>
    var pythonExceptionType: Option<string>

    constructor (exceptionType: ExceptionType, args: seq<Value>)
      ensures this.exceptionType == exceptionType && this.args == args && pythonExceptionType.None?
    {
      this.exceptionType := exceptionType;
      this.args := args;
      pythonExceptionType := None;
    }
  }

  class ExceptionConstructor {
    const pythonExceptionType: string
    const exceptionType: ExceptionType

    constructor (exceptionType: ExceptionType, moduleName: Option<string>, name: string)
      ensures pythonExceptionType == PythonTypeName(moduleName, name) && this.exceptionType == exceptionType
    {
      pythonExceptionType := PythonTypeName(moduleName, name);
      this.exceptionType := exceptionType;
    }

    /** construct(args): every failure comes back as PickleException("problem
        constructing object") with the failure as its cause. */
    method Construct(args: Option<seq<Value>>) returns (r: Result<PythonException>)
      ensures var a := ConstructorArgs(pythonExceptionType, args);
        (a.Err? ==> r == Err(Wrapped("problem constructing object", a.error))) &&
        (a.Ok? && !Creatable(exceptionType, a.value) ==> r == Err(Wrapped("problem constructing object", MissingMember))) &&
        (a.Ok? && Creatable(exceptionType, a.value) ==>
          r.Ok? && fresh(r.value) && r.value.exceptionType == exceptionType &&
          r.value.args == (if a.value.None? then [] else a.value.value) &&
          r.value.pythonExceptionType == (if exceptionType.hasPythonExceptionType then Some(pythonExceptionType) else None))
    {
      var a := ConstructorArgs(pythonExceptionType, args);
      if a.Err? {
        return Err(Wrapped("problem constructing object", a.error));
      }
      if !Creatable(exceptionType, a.value) {
        return Err(Wrapped("problem constructing object", MissingMember));
      }
      var ex := new PythonException(exceptionType, if a.value.None? then [] else a.value.value);
      if exceptionType.hasPythonExceptionType {
        ex.pythonExceptionType := Some(pythonExceptionType);
      }
      r := Ok(ex);
    }
  }

  /** Unpickling exceptions.ZeroDivisionError('hello') into an exception type
      with a one-string constructor and a PythonExceptionType property. */
  method ZeroDivisionExample() returns (message: Value, pythonType: Option<string>)
    ensures message == Str("[exceptions.ZeroDivisionError] hello")
    ensures pythonType == Some("exceptions.ZeroDivisionError")
  {
    ZeroDivisionTypeName();
    ZeroDivisionMessage();
    var t := ExceptionType("PythonException", {1}, true);
    var c := new ExceptionConstructor(t, Some("exceptions"), "ZeroDivisionError");
    var r := c.Construct(Some([Str("hello")]));
    message := r.value.args[0];
    pythonType := r.value.pythonExceptionType;
  }
}
