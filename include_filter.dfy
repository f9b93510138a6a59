/**
  `keep_only_include_keys` (chromadol/util.py): the wrapper that cuts the
  mapping a store method returns down to the `ids` key and the keys named by
  the call's `include` argument, declared default included.
*/
module IncludeFilter {
  import opened Wrappers
  import opened Values
  import opened OrderedDicts
  import opened Binding

  /** A store method: its declared parameters and what it returns for a complete argument dict. */
  datatype Method = Method(sig: Signature<Value>, body: Dict<string, Value> -> Value)

  /** `method(*args, **kwargs)`: Python binds the call, fills in the defaults and runs the body. */
  function Call(m: Method, args: seq<Value>, kwargs: Dict<string, Value>): Result<Value, Error> {
    var arguments :- MapArguments(m.sig, args, kwargs);
    Success(m.body(arguments))
  }

  /** The identity field, which the wrapper keeps whatever `include` says. */
  const IdsKey: Value := Str("ids")

  /** `['ids'] + list(kwargs.get('include', []))` over the bound arguments. */
  function KeepKeys(arguments: Dict<string, Value>): Result<seq<Value>, Error> {
    var fields :- AsList(Get(arguments, "include").GetOr(List([])));
    Success([IdsKey] + fields)
  }

  /**
    The wrapped method as the source writes it: after binding, the method is
    called with the positional arguments again and with every bound argument
    by keyword.
  */
  function KeepOnlyIncludeKeysAsWritten(m: Method, args: seq<Value>, kwargs: Dict<string, Value>)
    : Result<Dict<Value, Value>, Error>
  {
    var arguments :- MapArguments(m.sig, args, kwargs);
    var keep :- KeepKeys(arguments);
    var out :- Call(m, args, arguments);
    var items :- Items(out);
    Success(SubDict(items, keep))
  }

  /** The wrapped method with the call corrected to `method(**kwargs)`: the bound arguments by keyword only. */
  function KeepOnlyIncludeKeys(m: Method, args: seq<Value>, kwargs: Dict<string, Value>)
    : Result<Dict<Value, Value>, Error>
  {
    var arguments :- MapArguments(m.sig, args, kwargs);
    var keep :- KeepKeys(arguments);
    var out :- Call(m, [], arguments);
    var items :- Items(out);
    Success(SubDict(items, keep))
  }

  /**
    The field names a call asks for: `list(v)` of the value `argument_value`
    gives `include`, or none when the method has no `include` parameter.
  */
  function Requested(m: Method, args: seq<Value>, kwargs: Dict<string, Value>): Result<seq<Value>, Error> {
    match ArgumentValue("include", m.sig, args, kwargs)
    case Success(v) => AsList(v)
    case Failure(e) => if e == KeyError("include") then Success([]) else Failure(e)
  }

  /** The keys the wrapper keeps are `ids` and the requested fields. */
  lemma {:induction false} KeepKeysRequested(m: Method, args: seq<Value>, kwargs: Dict<string, Value>)
    requires DistinctNames(m.sig)
    requires MapArguments(m.sig, args, kwargs).Success?
    ensures KeepKeys(MapArguments(m.sig, args, kwargs).value).Success? <==> Requested(m, args, kwargs).Success?
    ensures Requested(m, args, kwargs).Success? ==>
      KeepKeys(MapArguments(m.sig, args, kwargs).value).value == [IdsKey] + Requested(m, args, kwargs).value
    ensures Requested(m, args, kwargs).Failure? ==>
      KeepKeys(MapArguments(m.sig, args, kwargs).value).error == Requested(m, args, kwargs).error
  {
    MapArgumentsSpec(m.sig, args, kwargs);
    ArgumentValueSpec("include", m.sig, args, kwargs);
  }

  /** Calling a method by keyword with the arguments a call bound is that call. */
  lemma CallRebound(m: Method, args: seq<Value>, kwargs: Dict<string, Value>)
    requires DistinctNames(m.sig)
    requires MapArguments(m.sig, args, kwargs).Success?
    ensures Call(m, [], MapArguments(m.sig, args, kwargs).value) == Call(m, args, kwargs)
  {
    MapArgumentsSpec(m.sig, args, kwargs);
    RebindByKeyword(m.sig, MapArguments(m.sig, args, kwargs).value);
  }

  /**
    The wrapped method answers exactly the calls the method answers with a
    mapping and whose `include` is a list; it returns the items of the
    method's result whose key is `ids` or a requested field, every such item,
    in the order of the method's result.
  */
  lemma KeepOnlyIncludeKeysSpec(m: Method, args: seq<Value>, kwargs: Dict<string, Value>)
    requires DistinctNames(m.sig)
    ensures KeepOnlyIncludeKeys(m, args, kwargs).Success? <==>
      && Call(m, args, kwargs).Success?
      && Requested(m, args, kwargs).Success?
      && Call(m, args, kwargs).value.Mapping?
    ensures KeepOnlyIncludeKeys(m, args, kwargs).Success? ==>
      var out, fields := Call(m, args, kwargs).value.entries, Requested(m, args, kwargs).value;
      var r := KeepOnlyIncludeKeys(m, args, kwargs).value;
      && (forall e :: e in r <==> e in out && (e.0 == IdsKey || e.0 in fields))
      && IsSubsequence(r, out)
    ensures MapArguments(m.sig, args, kwargs).Failure? ==>
      KeepOnlyIncludeKeys(m, args, kwargs) == Failure(MapArguments(m.sig, args, kwargs).error)
  {
    MapArgumentsSpec(m.sig, args, kwargs);
    if MapArguments(m.sig, args, kwargs).Success? {
      KeepKeysRequested(m, args, kwargs);
      CallRebound(m, args, kwargs);
      var keep := KeepKeys(MapArguments(m.sig, args, kwargs).value);
      var out := Call(m, args, kwargs);
      if keep.Success? && out.Success? && out.value.Mapping? {
        SubDictKeepsOrder(out.value.entries, keep.value);
        SubDictMembers(out.value.entries, keep.value);
      }
    }
  }

  /**
    When the call does not pass `include`, the wrapper keeps the fields of the
    method's declared default; when it passes `include`, the fields it names.
  */
  lemma RequestedIsIncludeArgument(m: Method, args: seq<Value>, kwargs: Dict<string, Value>, i: nat)
    requires DistinctNames(m.sig)
    requires Accepts(m.sig, args, kwargs)
    requires i < |m.sig| && m.sig[i].name == "include"
    ensures Given(m.sig, args, kwargs, i).None? ==> Requested(m, args, kwargs) == AsList(m.sig[i].default.value)
    ensures Given(m.sig, args, kwargs, i).Some? ==>
      Requested(m, args, kwargs) == AsList(Given(m.sig, args, kwargs, i).value)
  {
    MapArgumentsSpec(m.sig, args, kwargs);
    ArgumentValueSpec("include", m.sig, args, kwargs);
  }

  /** A method without an `include` parameter keeps only `ids`. */
  lemma NoIncludeParameterKeepsIds(m: Method, args: seq<Value>, kwargs: Dict<string, Value>)
    requires DistinctNames(m.sig)
    requires Accepts(m.sig, args, kwargs)
    requires "include" !in Names(m.sig)
    ensures Requested(m, args, kwargs) == Success([])
  {
    ArgumentValueSpec("include", m.sig, args, kwargs);
  }

  /** On keyword-only calls, the only kind the source's tests make, the wrapper as written is the corrected one. */
  lemma AsWrittenAgreesOnKeywordCalls(m: Method, kwargs: Dict<string, Value>)
    requires DistinctNames(m.sig)
    ensures KeepOnlyIncludeKeysAsWritten(m, [], kwargs) == KeepOnlyIncludeKeys(m, [], kwargs)
  {
  }

  /**
    As written, a call that passes any argument by position is refused with
    "multiple values" for the first parameter, although the method itself
    accepts it.
  */
  lemma AsWrittenRefusesPositional(m: Method, args: seq<Value>, kwargs: Dict<string, Value>)
    requires DistinctNames(m.sig)
    requires Accepts(m.sig, args, kwargs) && args != []
    requires Requested(m, args, kwargs).Success?
    ensures Call(m, args, kwargs).Success?
    ensures KeepOnlyIncludeKeysAsWritten(m, args, kwargs) == Failure(MultipleValues(m.sig[0].name))
  {
    MapArgumentsSpec(m.sig, args, kwargs);
    KeepKeysRequested(m, args, kwargs);
    var arguments := MapArguments(m.sig, args, kwargs).value;
    assert HasKey(arguments, m.sig[0].name) by {
      assert Keys(arguments)[0] == m.sig[0].name;
    }
  }

  /** The wrapper over a call that binds to `arguments`, whose `include` is the list `fields`. */
  lemma KeepOnlyIncludeKeysOnBinding(m: Method, args: seq<Value>, kwargs: Dict<string, Value>,
                                     arguments: Dict<string, Value>, fields: seq<Value>)
    requires DistinctNames(m.sig)
    requires MapArguments(m.sig, args, kwargs) == Success(arguments)
    requires Get(arguments, "include") == Some(List(fields))
    requires m.body(arguments).Mapping?
    ensures Call(m, args, kwargs) == Success(m.body(arguments))
    ensures KeepOnlyIncludeKeys(m, args, kwargs) == Success(SubDict(m.body(arguments).entries, [IdsKey] + fields))
  {
    CallRebound(m, args, kwargs);
  }

  // ---------------------------------------------------------------------------
  // The scenario of chromadol/tests/test_util.py: a collection holding
  // 'apple' and 'banana' with documents 'crumble' and 'split', and its `get`.

  function NoValues(): Value {
    List([NoneValue, NoneValue])
  }

  /** What the collection stores for a field, one value per record. */
  function Stored(field: string): Value {
    if field == "documents" then List([Str("crumble"), Str("split")]) else NoValues()
  }

  /** A field of a `get` result: the stored values when included, None otherwise. */
  function FieldItem(field: string, included: seq<Value>): (Value, Value) {
    (Str(field), if Str(field) in included then Stored(field) else NoneValue)
  }

  /** `Collection.get(ids=None, where=None, limit=None, offset=None, where_document=None, include=["metadatas", "documents"])`. */
  function GetSignature(): Signature<Value> {
    [ Param("ids", Some(NoneValue)), Param("where", Some(NoneValue)), Param("limit", Some(NoneValue)),
      Param("offset", Some(NoneValue)), Param("where_document", Some(NoneValue)),
      Param("include", Some(List([Str("metadatas"), Str("documents")]))) ]
  }

  /** What `get` returns for the two records: every field, each filled only when included. */
  function GetBody(arguments: Dict<string, Value>): Value {
    var given := Get(arguments, "include");
    var included := if given.Some? && given.value.List? then given.value.items else [];
    Mapping([ (IdsKey, List([Str("apple"), Str("banana")])),
              FieldItem("embeddings", included), FieldItem("metadatas", included), FieldItem("documents", included),
              FieldItem("uris", included), FieldItem("data", included) ])
  }

  function GetMethod(): Method {
    Method(GetSignature(), GetBody)
  }

  /** The arguments a call of `get` binds to, with `include` set to `fields`. */
  function GetArguments(fields: seq<Value>): Dict<string, Value> {
    [ ("ids", NoneValue), ("where", NoneValue), ("limit", NoneValue), ("offset", NoneValue),
      ("where_document", NoneValue), ("include", List(fields)) ]
  }

  /** The parameter names of `get`. */
  lemma GetParameterNames(sig: Signature<Value>)
    requires sig == GetSignature()
    ensures Names(sig) == ["ids", "where", "limit", "offset", "where_document", "include"]
  {
  }

  /** The parameter names of `get` are distinct and are the keys of its argument dicts. */
  lemma GetNames(sig: Signature<Value>, fields: seq<Value>)
    requires sig == GetSignature()
    ensures DistinctNames(sig)
    ensures Keys(GetArguments(fields)) == Names(sig)
  {
    GetParameterNames(sig);
    GetArgumentKeys(fields);
    var names := Names(sig);
    forall i, j | 0 <= i < j < |sig| ensures sig[i].name != sig[j].name {
      assert sig[i].name == names[i] && sig[j].name == names[j];
      assert names[i][0] != names[j][0] || |names[i]| != |names[j]|;
    }
  }

  lemma GetArgumentKeys(fields: seq<Value>)
    ensures Keys(GetArguments(fields)) == ["ids", "where", "limit", "offset", "where_document", "include"]
  {
  }

  /** `get()` is accepted, and each parameter resolves to its default. */
  lemma GetDefaultsResolve(sig: Signature<Value>, arguments: Dict<string, Value>)
    requires sig == GetSignature() && arguments == GetArguments([Str("metadatas"), Str("documents")])
    ensures Accepts(sig, [], [])
    ensures forall i :: 0 <= i < |sig| ==> Given(sig, [], [], i).Some? || sig[i].default.Some?
    ensures forall i :: 0 <= i < |sig| ==> arguments[i].1 == Resolved(sig[i], Given(sig, [], [], i))
  {
    assert Keys<string, Value>([]) == [];
  }

  /** `get()` binds every parameter to its default. */
  lemma GetBindsDefaults(sig: Signature<Value>, arguments: Dict<string, Value>)
    requires sig == GetSignature() && arguments == GetArguments([Str("metadatas"), Str("documents")])
    ensures MapArguments(sig, [], []) == Success(arguments)
    ensures Get(arguments, "include") == Some(List([Str("metadatas"), Str("documents")]))
  {
    GetNames(sig, [Str("metadatas"), Str("documents")]);
    GetDefaultsResolve(sig, arguments);
    BindsTo(sig, [], [], arguments);
    NamedArgumentsDistinct(sig, arguments, 5);
  }

  /** A keyword-only call of `get(include=fields)` gives `include` and nothing else. */
  lemma GetIncludeGiven(sig: Signature<Value>, kwargs: Dict<string, Value>, fields: seq<Value>)
    requires sig == GetSignature() && kwargs == [("include", List(fields))]
    ensures forall i :: 0 <= i < |sig| ==> Given(sig, [], kwargs, i) == if i == 5 then Some(List(fields)) else None
  {
    forall i | 0 <= i < |sig| ensures Given(sig, [], kwargs, i) == if i == 5 then Some(List(fields)) else None {
      assert kwargs[1..] == [];
      if i != 5 {
        assert sig[i].name != "include" by {
          assert |sig[i].name| != |"include"|;
        }
      }
    }
  }

  /** `get(include=fields)` is accepted, and each parameter but `include` resolves to its default. */
  lemma GetIncludeResolves(sig: Signature<Value>, kwargs: Dict<string, Value>, fields: seq<Value>, arguments: Dict<string, Value>)
    requires sig == GetSignature() && kwargs == [("include", List(fields))] && arguments == GetArguments(fields)
    ensures Accepts(sig, [], kwargs)
    ensures forall i :: 0 <= i < |sig| ==> Given(sig, [], kwargs, i).Some? || sig[i].default.Some?
    ensures forall i :: 0 <= i < |sig| ==> arguments[i].1 == Resolved(sig[i], Given(sig, [], kwargs, i))
  {
    GetIncludeGiven(sig, kwargs, fields);
    GetIncludeAccepted(sig, kwargs, fields);
    GetDefaultsDeclared(sig);
    GetArgumentValues(arguments, fields);
  }

  lemma GetIncludeAccepted(sig: Signature<Value>, kwargs: Dict<string, Value>, fields: seq<Value>)
    requires sig == GetSignature() && kwargs == [("include", List(fields))]
    ensures Accepts(sig, [], kwargs)
  {
    assert Keys(kwargs) == ["include"];
    GetParameterNames(sig);
    GetDefaultsDeclared(sig);
  }

  /** Every parameter of `get` declares a default, None for all but `include`. */
  lemma GetDefaultsDeclared(sig: Signature<Value>)
    requires sig == GetSignature()
    ensures |sig| == 6
    ensures forall i :: 0 <= i < |sig| ==> sig[i].default.Some?
    ensures forall i :: 0 <= i < 5 ==> sig[i].default == Some(NoneValue)
  {
  }

  /** The argument dicts of `get`: None for every parameter but `include`. */
  lemma GetArgumentValues(arguments: Dict<string, Value>, fields: seq<Value>)
    requires arguments == GetArguments(fields)
    ensures |arguments| == 6
    ensures forall i :: 0 <= i < 5 ==> arguments[i].1 == NoneValue
    ensures arguments[5].1 == List(fields)
  {
  }

  /** `get(include=fields)` binds `include` to `fields` and the other parameters to their defaults. */
  lemma GetBindsInclude(sig: Signature<Value>, kwargs: Dict<string, Value>, fields: seq<Value>, arguments: Dict<string, Value>)
    requires sig == GetSignature() && kwargs == [("include", List(fields))] && arguments == GetArguments(fields)
    ensures MapArguments(sig, [], kwargs) == Success(arguments)
    ensures Get(arguments, "include") == Some(List(fields))
  {
    GetNames(sig, fields);
    GetIncludeResolves(sig, kwargs, fields, arguments);
    BindsTo(sig, [], kwargs, arguments);
    NamedArgumentsDistinct(sig, arguments, 5);
  }

  /** `subdict` of a `get` result for the default `include` keeps `ids`, `metadatas` and `documents`. */
  lemma SubDictOfGetDefault(e0: (Value, Value), e1: (Value, Value), e2: (Value, Value),
                            e3: (Value, Value), e4: (Value, Value), e5: (Value, Value), keep: seq<Value>)
    requires e0.0 == IdsKey && e1.0 == Str("embeddings") && e2.0 == Str("metadatas")
    requires e3.0 == Str("documents") && e4.0 == Str("uris") && e5.0 == Str("data")
    requires keep == [IdsKey, Str("metadatas"), Str("documents")]
    ensures SubDict([e0, e1, e2, e3, e4, e5], keep) == [e0, e2, e3]
  {
    assert e1.0 !in keep && e4.0 !in keep && e5.0 !in keep;
    assert e0.0 in keep && e2.0 in keep && e3.0 in keep;
    assert [e5][1..] == [];
    assert SubDict([e5], keep) == [];
    assert [e4, e5][1..] == [e5];
    assert SubDict([e4, e5], keep) == [];
    assert [e3, e4, e5][1..] == [e4, e5];
    assert SubDict([e3, e4, e5], keep) == [e3];
    assert [e2, e3, e4, e5][1..] == [e3, e4, e5];
    assert SubDict([e2, e3, e4, e5], keep) == [e2, e3];
    assert [e1, e2, e3, e4, e5][1..] == [e2, e3, e4, e5];
    assert SubDict([e1, e2, e3, e4, e5], keep) == [e2, e3];
    assert [e0, e1, e2, e3, e4, e5][1..] == [e1, e2, e3, e4, e5];
    assert [e0] + [e2, e3] == [e0, e2, e3];
  }

  /** `subdict` of a `get` result for `include=['uris']` keeps `ids` and `uris`. */
  lemma SubDictOfGetUris(e0: (Value, Value), e1: (Value, Value), e2: (Value, Value),
                         e3: (Value, Value), e4: (Value, Value), e5: (Value, Value), keep: seq<Value>)
    requires e0.0 == IdsKey && e1.0 == Str("embeddings") && e2.0 == Str("metadatas")
    requires e3.0 == Str("documents") && e4.0 == Str("uris") && e5.0 == Str("data")
    requires keep == [IdsKey, Str("uris")]
    ensures SubDict([e0, e1, e2, e3, e4, e5], keep) == [e0, e4]
  {
    assert e1.0 !in keep && e2.0 !in keep && e3.0 !in keep && e5.0 !in keep;
    assert e0.0 in keep && e4.0 in keep;
    assert [e5][1..] == [];
    assert SubDict([e5], keep) == [];
    assert [e4, e5][1..] == [e5];
    assert SubDict([e4, e5], keep) == [e4];
    assert [e3, e4, e5][1..] == [e4, e5];
    assert SubDict([e3, e4, e5], keep) == [e4];
    assert [e2, e3, e4, e5][1..] == [e3, e4, e5];
    assert SubDict([e2, e3, e4, e5], keep) == [e4];
    assert [e1, e2, e3, e4, e5][1..] == [e2, e3, e4, e5];
    assert SubDict([e1, e2, e3, e4, e5], keep) == [e4];
    assert [e0, e1, e2, e3, e4, e5][1..] == [e1, e2, e3, e4, e5];
    assert [e0] + [e4] == [e0, e4];
  }

  /** The items of a `get` result for a call whose `include` is `fields`. */
  lemma GetBodyEntries(arguments: Dict<string, Value>, fields: seq<Value>)
    requires Get(arguments, "include") == Some(List(fields))
    ensures GetBody(arguments) == Mapping([ (IdsKey, List([Str("apple"), Str("banana")])),
      FieldItem("embeddings", fields), FieldItem("metadatas", fields), FieldItem("documents", fields),
      FieldItem("uris", fields), FieldItem("data", fields) ])
  {
  }

  /** The items of a `get` result for the default `include`: metadatas and documents filled, the rest None. */
  lemma DefaultFieldItems(fields: seq<Value>)
    requires fields == [Str("metadatas"), Str("documents")]
    ensures FieldItem("embeddings", fields) == (Str("embeddings"), NoneValue)
    ensures FieldItem("metadatas", fields) == (Str("metadatas"), NoValues())
    ensures FieldItem("documents", fields) == (Str("documents"), List([Str("crumble"), Str("split")]))
    ensures FieldItem("uris", fields) == (Str("uris"), NoneValue)
    ensures FieldItem("data", fields) == (Str("data"), NoneValue)
  {
  }

  /** The items of a `get` result for the default `include` that the filter keeps. */
  lemma GetKeepsDefault(arguments: Dict<string, Value>, fields: seq<Value>)
    requires fields == [Str("metadatas"), Str("documents")] && Get(arguments, "include") == Some(List(fields))
    ensures GetBody(arguments).Mapping?
    ensures SubDict(GetBody(arguments).entries, [IdsKey] + fields) == [
      (IdsKey, List([Str("apple"), Str("banana")])),
      (Str("metadatas"), NoValues()),
      (Str("documents"), List([Str("crumble"), Str("split")]))]
  {
    GetBodyEntries(arguments, fields);
    DefaultFieldItems(fields);
    SubDictOfGetDefault((IdsKey, List([Str("apple"), Str("banana")])),
      FieldItem("embeddings", fields), FieldItem("metadatas", fields), FieldItem("documents", fields),
      FieldItem("uris", fields), FieldItem("data", fields), [IdsKey] + fields);
  }

  /** The items of a `get` result for `include=['uris']` that the filter keeps. */
  lemma GetKeepsUris(arguments: Dict<string, Value>, fields: seq<Value>)
    requires fields == [Str("uris")] && Get(arguments, "include") == Some(List(fields))
    ensures GetBody(arguments).Mapping?
    ensures SubDict(GetBody(arguments).entries, [IdsKey] + fields) == [
      (IdsKey, List([Str("apple"), Str("banana")])),
      (Str("uris"), NoValues())]
  {
    GetBodyEntries(arguments, fields);
    assert FieldItem("uris", fields) == (Str("uris"), NoValues());
    SubDictOfGetUris((IdsKey, List([Str("apple"), Str("banana")])),
      FieldItem("embeddings", fields), FieldItem("metadatas", fields), FieldItem("documents", fields),
      FieldItem("uris", fields), FieldItem("data", fields), [IdsKey] + fields);
  }

  /** Unwrapped, `get()` returns every field, those outside the default `include` as None. */
  lemma GetReturnsEveryField(m: Method, fields: seq<Value>)
    requires m == GetMethod() && fields == [Str("metadatas"), Str("documents")]
    ensures Call(m, [], []) == Success(Mapping([
      (IdsKey, List([Str("apple"), Str("banana")])), (Str("embeddings"), NoneValue),
      (Str("metadatas"), NoValues()), (Str("documents"), List([Str("crumble"), Str("split")])),
      (Str("uris"), NoneValue), (Str("data"), NoneValue)]))
  {
    var arguments := GetArguments(fields);
    GetBindsDefaults(m.sig, arguments);
    GetBodyEntries(arguments, fields);
    DefaultFieldItems(fields);
  }

  /** Wrapped, `get()` keeps `ids` and the two fields of the declared default `include`. */
  lemma WrappedGetUsesDefaultInclude(m: Method, fields: seq<Value>)
    requires m == GetMethod() && fields == [Str("metadatas"), Str("documents")]
    ensures KeepOnlyIncludeKeys(m, [], []) == Success([
      (IdsKey, List([Str("apple"), Str("banana")])),
      (Str("metadatas"), NoValues()),
      (Str("documents"), List([Str("crumble"), Str("split")]))])
  {
    var arguments := GetArguments(fields);
    GetNames(m.sig, fields);
    GetBindsDefaults(m.sig, arguments);
    GetKeepsDefault(arguments, fields);
    KeepOnlyIncludeKeysOnBinding(m, [], [], arguments, fields);
  }

  /** Wrapped, `get(include=['uris'])` keeps `ids` and `uris` only. */
  lemma WrappedGetUsesGivenInclude(m: Method, kwargs: Dict<string, Value>, fields: seq<Value>)
    requires m == GetMethod() && fields == [Str("uris")] && kwargs == [("include", List(fields))]
    ensures KeepOnlyIncludeKeys(m, [], kwargs) == Success([
      (IdsKey, List([Str("apple"), Str("banana")])),
      (Str("uris"), NoValues())])
  {
    var arguments := GetArguments(fields);
    GetNames(m.sig, fields);
    GetBindsInclude(m.sig, kwargs, fields, arguments);
    GetKeepsUris(arguments, fields);
    KeepOnlyIncludeKeysOnBinding(m, [], kwargs, arguments, fields);
  }

  /**
    The `query` result of the same test, filtered for `include=['documents',
    'distances']`: the kept keys come in the result's order (`ids`,
    `distances`, `documents`), not in the order of `include`.
  */
  lemma SubDictOfQuery(e0: (Value, Value), e1: (Value, Value), e2: (Value, Value), e3: (Value, Value),
                       e4: (Value, Value), e5: (Value, Value), e6: (Value, Value), keep: seq<Value>)
    requires e0.0 == IdsKey && e1.0 == Str("distances") && e2.0 == Str("metadatas") && e3.0 == Str("embeddings")
    requires e4.0 == Str("documents") && e5.0 == Str("uris") && e6.0 == Str("data")
    requires keep == [IdsKey] + [Str("documents"), Str("distances")]
    ensures SubDict([e0, e1, e2, e3, e4, e5, e6], keep) == [e0, e1, e4]
  {
    assert e0.0 in keep && e1.0 in keep && e4.0 in keep;
    assert e2.0 !in keep && e3.0 !in keep && e5.0 !in keep && e6.0 !in keep;
    assert [e6][1..] == [];
    assert SubDict([e6], keep) == [];
    assert [e5, e6][1..] == [e6];
    assert SubDict([e5, e6], keep) == [];
    assert [e4, e5, e6][1..] == [e5, e6];
    assert SubDict([e4, e5, e6], keep) == [e4];
    assert [e3, e4, e5, e6][1..] == [e4, e5, e6];
    assert SubDict([e3, e4, e5, e6], keep) == [e4];
    assert [e2, e3, e4, e5, e6][1..] == [e3, e4, e5, e6];
    assert SubDict([e2, e3, e4, e5, e6], keep) == [e4];
    assert [e1, e2, e3, e4, e5, e6][1..] == [e2, e3, e4, e5, e6];
    assert SubDict([e1, e2, e3, e4, e5, e6], keep) == [e1, e4];
    assert [e0, e1, e2, e3, e4, e5, e6][1..] == [e1, e2, e3, e4, e5, e6];
    assert [e0] + [e1, e4] == [e0, e1, e4];
  }
}
