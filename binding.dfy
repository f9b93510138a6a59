/**
  `map_arguments` and `argument_value` (chromadol/util.py): binding the
  positional and keyword arguments of a call to a declared parameter list, as
  Python's `Signature.bind` followed by `BoundArguments.apply_defaults` does.
  Every parameter is of the ordinary kind that may be passed by position or by
  keyword; the argument dict of a call is ordered, as Python's is.
*/
module Binding {
  import opened Wrappers
  import opened Values
  import opened OrderedDicts

  /** A declared parameter: its name and its default value, if it declares one. */
  datatype Param<V> = Param(name: string, default: Option<V>)

  type Signature<V> = seq<Param<V>>

  function Names<V>(sig: Signature<V>): (ns: seq<string>)
    ensures |ns| == |sig|
    ensures forall i :: 0 <= i < |sig| ==> ns[i] == sig[i].name
  {
    if sig == [] then [] else [sig[0].name] + Names(sig[1..])
  }

  /** Python refuses a parameter list that declares a name twice. */
  ghost predicate DistinctNames<V>(sig: Signature<V>) {
    forall i, j :: 0 <= i < j < |sig| ==> sig[i].name != sig[j].name
  }

  /** The first keyword of the call, in the call's order, that names no parameter. */
  function FirstUnknownKeyword<V>(kwargs: Dict<string, V>, names: seq<string>): (r: Option<string>)
    ensures r.Some? ==> r.value in Keys(kwargs) && r.value !in names
    ensures r.None? <==> forall k :: k in Keys(kwargs) ==> k in names
    ensures r.Some? ==>
      exists j :: 0 <= j < |kwargs| && kwargs[j].0 == r.value && forall i :: 0 <= i < j ==> kwargs[i].0 in names
  {
    if kwargs == [] then None
    else if kwargs[0].0 !in names then Some(kwargs[0].0)
    else
      assert Keys(kwargs) == [kwargs[0].0] + Keys(kwargs[1..]);
      var r := FirstUnknownKeyword(kwargs[1..], names);
      if r.Some? then
        var j :| 0 <= j < |kwargs[1..]| && kwargs[1..][j].0 == r.value && forall i :: 0 <= i < j ==> kwargs[1..][i].0 in names;
        assert kwargs[j + 1].0 == r.value && forall i :: 0 <= i < j + 1 ==> kwargs[i].0 in names;
        r
      else r
  }

  /**
    The walk of `Signature.bind` over the parameters: positional arguments fill
    parameters left to right, a parameter also named by keyword is an error,
    and after the positional arguments each parameter takes its keyword
    argument, is left to its default, or is missing. The result holds the
    parameters the call supplies, in declaration order.
  */
  function BindParams<V>(sig: Signature<V>, args: seq<V>, kwargs: Dict<string, V>): Result<Dict<string, V>, Error>
    decreases |sig|
  {
    if sig == [] then
      if args == [] then Success([]) else Failure(TooManyPositional)
    else
      var p := sig[0];
      if args != [] then
        if HasKey(kwargs, p.name) then Failure(MultipleValues(p.name))
        else
          var rest :- BindParams(sig[1..], args[1..], kwargs);
          Success([(p.name, args[0])] + rest)
      else
        match Get(kwargs, p.name)
        case Some(v) =>
          var rest :- BindParams(sig[1..], [], kwargs);
          Success([(p.name, v)] + rest)
        case None =>
          if p.default.Some? then BindParams(sig[1..], [], kwargs)
          else Failure(MissingArgument(p.name))
  }

  /** `signature(func).bind(*args, **kwargs).arguments`. */
  function Bind<V>(sig: Signature<V>, args: seq<V>, kwargs: Dict<string, V>): Result<Dict<string, V>, Error> {
    var bound :- BindParams(sig, args, kwargs);
    match FirstUnknownKeyword(kwargs, Names(sig))
    case Some(k) => Failure(UnexpectedKeyword(k))
    case None => Success(bound)
  }

  /** `BoundArguments.apply_defaults`: every parameter in declaration order, with its bound value or its default. */
  function ApplyDefaults<V>(sig: Signature<V>, bound: Dict<string, V>): Dict<string, V> {
    if sig == [] then []
    else
      var p := sig[0];
      var rest := ApplyDefaults(sig[1..], bound);
      match Get(bound, p.name)
      case Some(v) => [(p.name, v)] + rest
      case None => if p.default.Some? then [(p.name, p.default.value)] + rest else rest
  }

  /** `map_arguments(func, args, kwargs)` for a function whose parameter list is `sig`. */
  function MapArguments<V>(sig: Signature<V>, args: seq<V>, kwargs: Dict<string, V>): Result<Dict<string, V>, Error> {
    var bound :- Bind(sig, args, kwargs);
    Success(ApplyDefaults(sig, bound))
  }

  /** `argument_value(name, func, args, kwargs)`: the bound value of one parameter. */
  function ArgumentValue<V>(name: string, sig: Signature<V>, args: seq<V>, kwargs: Dict<string, V>): Result<V, Error> {
    var arguments :- MapArguments(sig, args, kwargs);
    match Get(arguments, name)
    case Some(v) => Success(v)
    case None => Failure(KeyError(name))
  }

  // ---------------------------------------------------------------------------
  // The reference semantics of a call, stated parameter by parameter.

  /**
    The call can be bound: no positional argument is left over, none of the
    parameters filled by position is also named by keyword, every later
    parameter is named by keyword or has a default, and every keyword names a
    parameter.
  */
  ghost predicate Accepts<V>(sig: Signature<V>, args: seq<V>, kwargs: Dict<string, V>) {
    && |args| <= |sig|
    && (forall i :: 0 <= i < |args| ==> !HasKey(kwargs, sig[i].name))
    && (forall i :: |args| <= i < |sig| ==> HasKey(kwargs, sig[i].name) || sig[i].default.Some?)
    && (forall k :: k in Keys(kwargs) ==> k in Names(sig))
  }

  /** What the caller passes for parameter `i`: its positional argument, else its keyword argument. */
  function Given<V>(sig: Signature<V>, args: seq<V>, kwargs: Dict<string, V>, i: nat): Option<V>
    requires i < |sig|
  {
    if i < |args| then Some(args[i]) else Get(kwargs, sig[i].name)
  }

  /** The value parameter `p` ends up with: the one given, else its default. */
  function Resolved<V>(p: Param<V>, given: Option<V>): V
    requires given.Some? || p.default.Some?
  {
    if given.Some? then given.value else p.default.value
  }

  lemma {:induction false} BindParamsSucceeds<V>(sig: Signature<V>, args: seq<V>, kwargs: Dict<string, V>)
    ensures BindParams(sig, args, kwargs).Success? <==>
      && |args| <= |sig|
      && (forall i :: 0 <= i < |args| ==> !HasKey(kwargs, sig[i].name))
      && (forall i :: |args| <= i < |sig| ==> HasKey(kwargs, sig[i].name) || sig[i].default.Some?)
    decreases |sig|
  {
    if sig != [] {
      var p, sig' := sig[0], sig[1..];
      if args != [] {
        BindParamsSucceeds(sig', args[1..], kwargs);
        assert forall i :: 1 <= i < |sig| ==> sig[i] == sig'[i - 1];
      } else {
        BindParamsSucceeds(sig', [], kwargs);
        assert forall i :: 1 <= i < |sig| ==> sig[i] == sig'[i - 1];
      }
    }
  }

  lemma {:induction false} BindParamsValues<V>(sig: Signature<V>, args: seq<V>, kwargs: Dict<string, V>)
    requires DistinctNames(sig)
    requires BindParams(sig, args, kwargs).Success?
    ensures forall i :: 0 <= i < |sig| ==>
      Get(BindParams(sig, args, kwargs).value, sig[i].name) == Given(sig, args, kwargs, i)
    decreases |sig|
  {
    if sig != [] {
      var p, sig' := sig[0], sig[1..];
      var args' := if args == [] then [] else args[1..];
      var b := BindParams(sig, args, kwargs).value;
      var rest := BindParams(sig', args', kwargs).value;
      BindParamsValues(sig', args', kwargs);
      BindParamsKeys(sig', args', kwargs);
      assert p.name !in Names(sig') by {
        forall j | 0 <= j < |sig'| ensures Names(sig')[j] != p.name {
          assert sig'[j] == sig[j + 1];
        }
      }
      assert !HasKey(rest, p.name);
      assert b == rest || b == [(p.name, Given(sig, args, kwargs, 0).value)] + rest;
      assert Get(b, p.name) == Given(sig, args, kwargs, 0);
      forall i | 1 <= i < |sig|
        ensures Get(b, sig[i].name) == Given(sig, args, kwargs, i)
      {
        assert sig[i] == sig'[i - 1];
        assert sig[i].name != p.name;
        assert Given(sig, args, kwargs, i) == Given(sig', args', kwargs, i - 1);
        if b != rest {
          assert b[1..] == rest;
        }
      }
    }
  }

  lemma {:induction false} BindParamsKeys<V>(sig: Signature<V>, args: seq<V>, kwargs: Dict<string, V>)
    requires BindParams(sig, args, kwargs).Success?
    ensures forall k :: k in Keys(BindParams(sig, args, kwargs).value) ==> k in Names(sig)
    decreases |sig|
  {
    if sig != [] {
      var sig', args' := sig[1..], if args == [] then [] else args[1..];
      var b := BindParams(sig, args, kwargs).value;
      assert Names(sig) == [sig[0].name] + Names(sig');
      BindParamsKeys(sig', args', kwargs);
      var rest := BindParams(sig', args', kwargs).value;
      if b != rest {
        assert Keys(b) == [sig[0].name] + Keys(rest);
      }
    }
  }

  lemma {:induction false} ApplyDefaultsSpec<V>(sig: Signature<V>, bound: Dict<string, V>)
    requires forall i :: 0 <= i < |sig| ==> Get(bound, sig[i].name).Some? || sig[i].default.Some?
    ensures Keys(ApplyDefaults(sig, bound)) == Names(sig)
    ensures forall i :: 0 <= i < |sig| ==>
      ApplyDefaults(sig, bound)[i].1 == Resolved(sig[i], Get(bound, sig[i].name))
    decreases |sig|
  {
    if sig != [] {
      var sig' := sig[1..];
      assert forall i :: 1 <= i < |sig| ==> sig[i] == sig'[i - 1];
      ApplyDefaultsSpec(sig', bound);
      var r, rest := ApplyDefaults(sig, bound), ApplyDefaults(sig', bound);
      assert r == [(sig[0].name, Resolved(sig[0], Get(bound, sig[0].name)))] + rest;
      assert Keys(r) == [sig[0].name] + Keys(rest);
      assert Names(sig) == [sig[0].name] + Names(sig');
    }
  }

  /**
    `map_arguments` binds exactly the calls Python accepts, and then gives
    every declared parameter, in declaration order, its positional argument,
    else its keyword argument, else its default.
  */
  lemma MapArgumentsSpec<V>(sig: Signature<V>, args: seq<V>, kwargs: Dict<string, V>)
    requires DistinctNames(sig)
    ensures MapArguments(sig, args, kwargs).Success? <==> Accepts(sig, args, kwargs)
    ensures MapArguments(sig, args, kwargs).Success? ==>
      var arguments := MapArguments(sig, args, kwargs).value;
      && Keys(arguments) == Names(sig)
      && forall i :: 0 <= i < |sig| ==> arguments[i].1 == Resolved(sig[i], Given(sig, args, kwargs, i))
  {
    MapArgumentsAccepts(sig, args, kwargs);
    if MapArguments(sig, args, kwargs).Success? {
      MapArgumentsValues(sig, args, kwargs);
    }
  }

  lemma MapArgumentsAccepts<V>(sig: Signature<V>, args: seq<V>, kwargs: Dict<string, V>)
    ensures MapArguments(sig, args, kwargs).Success? <==> Accepts(sig, args, kwargs)
  {
    BindParamsSucceeds(sig, args, kwargs);
    var unknown := FirstUnknownKeyword(kwargs, Names(sig));
    assert MapArguments(sig, args, kwargs).Success? <==> BindParams(sig, args, kwargs).Success? && unknown.None?;
  }

  lemma MapArgumentsValues<V>(sig: Signature<V>, args: seq<V>, kwargs: Dict<string, V>)
    requires DistinctNames(sig)
    requires MapArguments(sig, args, kwargs).Success?
    ensures forall i :: 0 <= i < |sig| ==> Given(sig, args, kwargs, i).Some? || sig[i].default.Some?
    ensures Keys(MapArguments(sig, args, kwargs).value) == Names(sig)
    ensures forall i :: 0 <= i < |sig| ==>
      MapArguments(sig, args, kwargs).value[i].1 == Resolved(sig[i], Given(sig, args, kwargs, i))
  {
    var bound := BindParams(sig, args, kwargs).value;
    assert MapArguments(sig, args, kwargs).value == ApplyDefaults(sig, bound);
    BindParamsSucceeds(sig, args, kwargs);
    BindParamsValues(sig, args, kwargs);
    forall i | 0 <= i < |sig| ensures Given(sig, args, kwargs, i).Some? || sig[i].default.Some? {
      if i >= |args| {
        assert HasKey(kwargs, sig[i].name) || sig[i].default.Some?;
      }
    }
    ApplyDefaultsSpec(sig, bound);
  }

  /** `e` is one of the TypeErrors of binding and names what is wrong with the call. */
  ghost predicate Explains<V>(sig: Signature<V>, args: seq<V>, kwargs: Dict<string, V>, e: Error) {
    match e
    case TooManyPositional => |args| > |sig|
    case MultipleValues(n) => exists i :: 0 <= i < |args| && i < |sig| && sig[i].name == n && HasKey(kwargs, n)
    case MissingArgument(n) =>
      exists i :: |args| <= i < |sig| && sig[i].name == n && !HasKey(kwargs, n) && sig[i].default.None?
    case UnexpectedKeyword(k) => k in Keys(kwargs) && k !in Names(sig)
    case _ => false
  }

  /** Each exception `map_arguments` raises names what is wrong with the call. */
  lemma MapArgumentsErrors<V>(sig: Signature<V>, args: seq<V>, kwargs: Dict<string, V>)
    ensures MapArguments(sig, args, kwargs).Failure? ==>
      Explains(sig, args, kwargs, MapArguments(sig, args, kwargs).error)
    ensures MapArguments(sig, args, kwargs).Failure? && MapArguments(sig, args, kwargs).error.UnexpectedKeyword? ==>
      FirstUnknownKeyword(kwargs, Names(sig)) == Some(MapArguments(sig, args, kwargs).error.name)
  {
    if BindParams(sig, args, kwargs).Failure? {
      BindParamsErrors(sig, args, kwargs);
    }
  }

  lemma {:induction false} BindParamsErrors<V>(sig: Signature<V>, args: seq<V>, kwargs: Dict<string, V>)
    requires BindParams(sig, args, kwargs).Failure?
    ensures !BindParams(sig, args, kwargs).error.UnexpectedKeyword?
    ensures Explains(sig, args, kwargs, BindParams(sig, args, kwargs).error)
    decreases |sig|
  {
    if sig != [] {
      var p, sig' := sig[0], sig[1..];
      var args' := if args == [] then [] else args[1..];
      var e := BindParams(sig, args, kwargs).error;
      if BindParams(sig', args', kwargs).Failure? && e == BindParams(sig', args', kwargs).error {
        BindParamsErrors(sig', args', kwargs);
        match e
        case MultipleValues(n) =>
          var i :| 0 <= i < |args'| && i < |sig'| && sig'[i].name == n && HasKey(kwargs, n);
          assert sig[i + 1] == sig'[i];
        case MissingArgument(n) =>
          var i :| |args'| <= i < |sig'| && sig'[i].name == n && !HasKey(kwargs, n) && sig'[i].default.None?;
          assert sig[i + 1] == sig'[i];
        case _ =>
      }
    }
  }

  /**
    `argument_value(name, ...)` is the value `map_arguments` binds to `name`:
    the caller's value when one is passed by position or keyword, the declared
    default otherwise; a name that is no parameter raises KeyError.
  */
  lemma ArgumentValueSpec<V>(name: string, sig: Signature<V>, args: seq<V>, kwargs: Dict<string, V>)
    requires DistinctNames(sig)
    ensures ArgumentValue(name, sig, args, kwargs).Success? <==> Accepts(sig, args, kwargs) && name in Names(sig)
    ensures Accepts(sig, args, kwargs) && name !in Names(sig) ==>
      ArgumentValue(name, sig, args, kwargs) == Failure(KeyError(name))
    ensures MapArguments(sig, args, kwargs).Failure? ==>
      ArgumentValue(name, sig, args, kwargs) == Failure(MapArguments(sig, args, kwargs).error)
    ensures forall i :: 0 <= i < |sig| && sig[i].name == name && Accepts(sig, args, kwargs) ==>
      ArgumentValue(name, sig, args, kwargs) == Success(Resolved(sig[i], Given(sig, args, kwargs, i)))
  {
    MapArgumentsSpec(sig, args, kwargs);
    if Accepts(sig, args, kwargs) {
      var arguments := MapArguments(sig, args, kwargs).value;
      assert DistinctKeys(arguments) by {
        forall i, j | 0 <= i < j < |arguments| ensures arguments[i].0 != arguments[j].0 {
          assert arguments[i].0 == Keys(arguments)[i] == sig[i].name;
          assert arguments[j].0 == Keys(arguments)[j] == sig[j].name;
        }
      }
      forall i | 0 <= i < |sig| && sig[i].name == name
        ensures ArgumentValue(name, sig, args, kwargs) == Success(Resolved(sig[i], Given(sig, args, kwargs, i)))
      {
        assert arguments[i].0 == Keys(arguments)[i];
        assert arguments[i] in arguments;
        DistinctKeysGet(arguments, name, arguments[i].1);
      }
      if name in Names(sig) {
        var i :| 0 <= i < |sig| && Names(sig)[i] == name;
      } else {
        var r := Get(arguments, name);
        assert r.None?;
      }
    }
  }

  /** A dict whose keys are the parameter names, in order, is one Python dict. */
  lemma NamedArgumentsDistinct<V>(sig: Signature<V>, arguments: Dict<string, V>, i: nat)
    requires DistinctNames(sig)
    requires Keys(arguments) == Names(sig)
    requires i < |sig|
    ensures Get(arguments, sig[i].name) == Some(arguments[i].1)
  {
    assert DistinctKeys(arguments) by {
      forall j, k | 0 <= j < k < |arguments| ensures arguments[j].0 != arguments[k].0 {
        assert arguments[j].0 == Keys(arguments)[j] && arguments[k].0 == Keys(arguments)[k];
      }
    }
    assert arguments[i].0 == Keys(arguments)[i];
    assert arguments[i] in arguments;
    DistinctKeysGet(arguments, sig[i].name, arguments[i].1);
  }

  /** Binding a complete argument dict by keyword gives that dict back. */
  lemma RebindByKeyword<V>(sig: Signature<V>, arguments: Dict<string, V>)
    requires DistinctNames(sig)
    requires Keys(arguments) == Names(sig)
    ensures MapArguments(sig, [], arguments) == Success(arguments)
  {
    forall i | 0 <= i < |sig| ensures Get(arguments, sig[i].name) == Some(arguments[i].1) {
      NamedArgumentsDistinct(sig, arguments, i);
    }
    assert Accepts(sig, [], arguments);
    MapArgumentsSpec(sig, [], arguments);
    SameItems(MapArguments(sig, [], arguments).value, arguments);
  }

  // ---------------------------------------------------------------------------
  // The examples in the documentation of `map_arguments` and `argument_value`,
  // for `lambda x, y, z=42: None`.

  function ExampleSignature(): Signature<int> {
    [Param("x", None), Param("y", None), Param("z", Some(42))]
  }

  /** The parameters of `lambda x, y, z=42: None`: distinct names, only `z` with a default. */
  lemma ExampleSignatureFacts(sig: Signature<int>)
    requires sig == ExampleSignature()
    ensures Names(sig) == ["x", "y", "z"]
    ensures DistinctNames(sig)
  {
  }

  /** `map_arguments(func, [1], {'y': 2})`: x by position, y by keyword, z defaulted. */
  lemma MapArgumentsExampleDefault(sig: Signature<int>)
    requires sig == ExampleSignature()
    ensures MapArguments(sig, [1], [("y", 2)]) == Success([("x", 1), ("y", 2), ("z", 42)])
  {
    ExampleSignatureFacts(sig);
    assert Keys([("y", 2)]) == ["y"];
    assert Keys([("x", 1), ("y", 2), ("z", 42)]) == ["x", "y", "z"];
    BindsTo(sig, [1], [("y", 2)], [("x", 1), ("y", 2), ("z", 42)]);
  }

  /** `map_arguments(func, [1, 2], {'z': 4})`: z given by keyword. */
  lemma MapArgumentsExampleKeyword(sig: Signature<int>)
    requires sig == ExampleSignature()
    ensures MapArguments(sig, [1, 2], [("z", 4)]) == Success([("x", 1), ("y", 2), ("z", 4)])
  {
    ExampleSignatureFacts(sig);
    assert Keys([("z", 4)]) == ["z"];
    assert Keys([("x", 1), ("y", 2), ("z", 4)]) == ["x", "y", "z"];
    BindsTo(sig, [1, 2], [("z", 4)], [("x", 1), ("y", 2), ("z", 4)]);
  }

  /** `map_arguments(func, [1, 2, 3], {})`: z given by position. */
  lemma MapArgumentsExamplePositional(sig: Signature<int>)
    requires sig == ExampleSignature()
    ensures MapArguments(sig, [1, 2, 3], []) == Success([("x", 1), ("y", 2), ("z", 3)])
  {
    ExampleSignatureFacts(sig);
    assert Keys<string, int>([]) == [];
    assert Keys([("x", 1), ("y", 2), ("z", 3)]) == ["x", "y", "z"];
    BindsTo(sig, [1, 2, 3], [], [("x", 1), ("y", 2), ("z", 3)]);
  }

  /** A call binds to `expected` when `expected` lists every parameter with the value the call resolves it to. */
  lemma BindsTo<V>(sig: Signature<V>, args: seq<V>, kwargs: Dict<string, V>, expected: Dict<string, V>)
    requires DistinctNames(sig)
    requires Keys(expected) == Names(sig)
    requires Accepts(sig, args, kwargs)
    requires forall i :: 0 <= i < |sig| ==> Given(sig, args, kwargs, i).Some? || sig[i].default.Some?
    requires forall i :: 0 <= i < |sig| ==> expected[i].1 == Resolved(sig[i], Given(sig, args, kwargs, i))
    ensures MapArguments(sig, args, kwargs) == Success(expected)
  {
    MapArgumentsSpec(sig, args, kwargs);
    SameItems(MapArguments(sig, args, kwargs).value, expected);
  }

  /** `argument_value('z', func, [1, 2], {})` is the default 42. */
  lemma ArgumentValueExampleDefault(sig: Signature<int>)
    requires sig == ExampleSignature()
    ensures ArgumentValue("z", sig, [1, 2], []) == Success(42)
  {
    ExampleSignatureFacts(sig);
    assert Keys<string, int>([]) == [];
    ArgumentValueSpec("z", sig, [1, 2], []);
  }

  /** `argument_value('z', func, [1, 2], {'z': 4})` is the keyword argument 4. */
  lemma ArgumentValueExampleKeyword(sig: Signature<int>)
    requires sig == ExampleSignature()
    ensures ArgumentValue("z", sig, [1, 2], [("z", 4)]) == Success(4)
  {
    ExampleSignatureFacts(sig);
    assert Keys([("z", 4)]) == ["z"];
    ArgumentValueSpec("z", sig, [1, 2], [("z", 4)]);
  }

  /** `argument_value('z', func, [1, 2, 3], {})` is the positional argument 3. */
  lemma ArgumentValueExamplePositional(sig: Signature<int>)
    requires sig == ExampleSignature()
    ensures ArgumentValue("z", sig, [1, 2, 3], []) == Success(3)
  {
    ExampleSignatureFacts(sig);
    assert Keys<string, int>([]) == [];
    ArgumentValueSpec("z", sig, [1, 2, 3], []);
  }
}
