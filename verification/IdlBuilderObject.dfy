// The builder object: one method per call the parser's actions make.
module IdlBuilderObject {
  import opened IdlBuilder

  // How a call came out: normally, on a failed assert, or by an exception.
  datatype Signal = Fine | AssertFailed | Exception

  class Builder {
    var current: Option<Interface>
    var allIds: seq<Interface>
    var currentMethod: Option<Method>
    var argContext: ArgContext
    var nextArgName: Text
    var nextArgTypename: Text
    var nextDecoratorKey: Text
    var nextDecoratorValue: Text
    var decorators: map<Text, Text>
    var includes: seq<Text>

    function State(): IdlBuilder.State
      reads this
    {
      IdlBuilder.State(current, allIds, currentMethod, argContext, nextArgName, nextArgTypename, nextDecoratorKey,
                       nextDecoratorValue, decorators, includes)
    }

    constructor ()
      ensures State() == Fresh()
    {
      current, allIds, currentMethod, argContext := None, [], None, NoContext;
      nextArgName, nextArgTypename, nextDecoratorKey, nextDecoratorValue := [], [], [], [];
      decorators, includes := map[], [];
    }

    // What a call did is what its action stands for.
    twostate predicate Did(e: Event, r: Signal)
      reads this
    {
      match Apply(old(State()), e)
      case Tripped => r == AssertFailed && State() == old(State())
      case Thrown => r == Exception
      case Built(s) => r == Fine && State() == s
    }

    method BeginInterface(name: Text) returns (r: Signal)
      modifies this
      ensures Did(InterfaceName(name), r)
    {
      if current.Some? {
        return AssertFailed;
      }
      current := Some(Interface(name, [], 0));
      r := Fine;
    }

    method EndInterface() returns (r: Signal)
      modifies this
      ensures Did(InterfaceEnd, r)
    {
      if current.None? {
        return AssertFailed;
      }
      allIds := allIds + [current.value];
      current := None;
      r := Fine;
    }

    method BeginMethod(name: Text) returns (r: Signal)
      modifies this
      ensures Did(MethodName(name), r)
    {
      hide HashId;
      if current.None? || currentMethod.Some? {
        return AssertFailed;
      }
      if name != [] && name[0] == 95 {
        return Exception;
      }
      var methods := current.value.methods;
      for i := 0 to |methods|
        invariant forall j :: 0 <= j < i ==> methods[j].name != name
        invariant State() == old(State())
      {
        if methods[i].name == name {
          assert HasMethod(methods, name);
          return Exception;
        }
      }
      currentMethod := Some(Method(name, false, HashId(name), [], []));
      r := Fine;
    }

    method SetMethodAsync(isAsync: bool) returns (r: Signal)
      modifies this
      ensures Did(if isAsync then AsyncMarker else SyncMarker, r)
    {
      if currentMethod.None? {
        return AssertFailed;
      }
      currentMethod := Some(currentMethod.value.(isAsync := isAsync));
      r := Fine;
    }

    method EndMethod() returns (r: Signal)
      modifies this
      ensures Did(MethodEnd, r)
    {
      hide ParseId;
      if current.None? || currentMethod.None? {
        return AssertFailed;
      }
      if IDENTIFIER in decorators {
        var id := ParseId(decorators[IDENTIFIER]);
        if id.None? {
          return Exception;
        }
        currentMethod := Some(currentMethod.value.(identifier := id.value));
      }
      decorators := map[];
      current := Some(current.value.(methods := current.value.methods + [currentMethod.value]));
      currentMethod := None;
      r := Fine;
    }

    method BeginArgs(context: ArgContext) returns (r: Signal)
      requires context != NoContext
      modifies this
      ensures Did(if context == Parameter then ArgsOpen else ReturnOpen, r)
    {
      if current.None? || currentMethod.None? || argContext != NoContext {
        return AssertFailed;
      }
      argContext := context;
      r := Fine;
    }

    method EndArgs(context: ArgContext) returns (r: Signal)
      requires context != NoContext
      modifies this
      ensures Did(if context == Parameter then ArgsClose else ReturnClose, r)
    {
      if current.None? || currentMethod.None? || argContext != context {
        return AssertFailed;
      }
      argContext := NoContext;
      r := Fine;
    }

    method SetNextArgName(name: Text)
      modifies this
      ensures Did(ArgName(name), Fine)
    {
      nextArgName := name;
    }

    method SetNextArgTypename(name: Text)
      modifies this
      ensures Did(ArgType(name), Fine)
    {
      nextArgTypename := name;
    }

    // pushNextArg looks at the current method and the context only; an interface is open whenever a method is.
    method PushNextArg() returns (r: Signal)
      requires currentMethod.Some? ==> current.Some?
      modifies this
      ensures Did(ArgEnd, r)
    {
      hide IsBuiltin;
      if currentMethod.None? || argContext == NoContext || nextArgName == [] || nextArgTypename == [] {
        return AssertFailed;
      }
      var arg := Argument(nextArgName, nextArgTypename);
      if !IsBuiltin(arg.typeName) {
        current := Some(current.value.(numCustomTypes := current.value.numCustomTypes + 1));
      }
      match argContext {
        case Parameter => currentMethod := Some(currentMethod.value.(params := currentMethod.value.params + [arg]));
        case Return => currentMethod := Some(currentMethod.value.(outs := currentMethod.value.outs + [arg]));
      }
      nextArgName, nextArgTypename := [], [];
      r := Fine;
    }

    method SetNextDecoratorKey(key: Text)
      modifies this
      ensures Did(DecoratorKey(key), Fine)
    {
      nextDecoratorKey := key;
    }

    method SetNextDecoratorValue(value: Text)
      modifies this
      ensures Did(DecoratorValue(value), Fine)
    {
      nextDecoratorValue := value;
    }

    method PushNextDecorator() returns (r: Signal)
      modifies this
      ensures Did(DecoratorClose, r)
    {
      if nextDecoratorKey == [] || nextDecoratorValue == [] {
        return AssertFailed;
      }
      if nextDecoratorKey in decorators {
        return Exception;
      }
      decorators := decorators[nextDecoratorKey := nextDecoratorValue];
      nextDecoratorKey, nextDecoratorValue := [], [];
      r := Fine;
    }

    method AddIncludePath(path: Text)
      modifies this
      ensures Did(IncludePath(path), Fine)
    {
      includes := includes + [path];
    }

    // The action of one rule.
    method Act(e: Event) returns (r: Signal)
      requires currentMethod.Some? ==> current.Some?
      modifies this
      ensures Did(e, r)
    {
      hide Apply;
      r := Fine;
      match e {
        case InterfaceName(text) => r := BeginInterface(text);
        case InterfaceEnd => r := EndInterface();
        case MethodName(text) => r := BeginMethod(text);
        case MethodEnd => r := EndMethod();
        case AsyncMarker => r := SetMethodAsync(true);
        case SyncMarker => r := SetMethodAsync(false);
        case ArgsOpen => r := BeginArgs(Parameter);
        case ArgsClose => r := EndArgs(Parameter);
        case ReturnOpen => r := BeginArgs(Return);
        case ReturnClose => r := EndArgs(Return);
        case ArgName(text) => SetNextArgName(text);
        case ArgType(text) => SetNextArgTypename(text);
        case ArgEnd => r := PushNextArg();
        case DecoratorKey(text) => SetNextDecoratorKey(text);
        case DecoratorValue(text) => SetNextDecoratorValue(text);
        case DecoratorClose => r := PushNextDecorator();
        case IncludePath(text) => AddIncludePath(text);
      }
    }
  }
}
