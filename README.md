# chromadol utilities, modelled in Dafny

This project models the helpers in `chromadol/util.py`. They sit between chromadol's
dict-like collection adapter and a chromadb `Collection`.

- **Key filtering.** `subdict` keeps the items of a mapping whose key is listed.
  `keep_only_include_keys` wraps a store method such as `Collection.get` or
  `Collection.query`. The wrapped method returns only the `ids` item and the
  fields its `include` argument asks for. When the call omits `include`, the
  method's declared default is used.
- **Argument binding.** `map_arguments` binds a call's positional and keyword
  arguments to the declared parameter list, as Python's `Signature.bind` and
  `apply_defaults` do. `argument_value` reads one parameter of that binding.
- **Conditional add.** `ids_not_in_collection` and
  `indices_of_id_not_in_collection` find the candidate ids a collection does not
  hold, and their positions. `add_if_missing` adds only those records, with every
  field list cut down to the same positions.
- **Mapping.** `mapped_list` with a single worker is `list(map(func, iterable))`.
  With no iterable it returns the partially applied function.

Modules, one concept each:

- `Wrappers` (`wrappers.dfy`): `Option` and `Result`.
- `Values` (`values.dfy`): the Python values that pass through the wrapper, and
  the exceptions the code can raise.
- `OrderedDicts` (`ordered_dicts.dfy`): a Python dict as a sequence of
  key/value pairs in insertion order, and `subdict`.
- `Binding` (`binding.dfy`): `map_arguments`, `argument_value`, a reference
  semantics stated parameter by parameter, and the doctests.
- `IncludeFilter` (`include_filter.dfy`): `keep_only_include_keys` and the
  scenario of `tests/test_util.py`.
- `Store` (`store.dfy`): a `Collection` class with the fields it updates in
  place (the stored ids and one value list per field), its `Add` method, the
  two lookups, and the `AddIfMissing` method.
- `MappedLists` (`mapped_list.dfy`): `mapped_list`.

The pure helpers are functions with lemmas. `add_if_missing` changes a
collection, so it is a method that modifies a `Collection` object. Its
contract gives the whole new state and the error cases. It keeps the
collection's invariant: ids are distinct and every field holds one value per id.

## Model

| member | source | states |
|---|---|---|
| OrderedDicts.Keys | chromadol/util.py:54 | the keys of a dict, one per item, in item order |
| OrderedDicts.Get | chromadol/util.py:126 | `d.get(k)` finds a value exactly when `k` is a key, and the value it finds is the one stored with `k` |
| OrderedDicts.DistinctKeysGet | chromadol/util.py:117 | in a dict whose keys are distinct, looking up a key gives the value stored with it |
| OrderedDicts.SameItems | chromadol/util.py:97-99 | two dicts with the same keys and values, position by position, are the same dict |
| OrderedDicts.SubsequenceMembers | chromadol/util.py:54 | every item of a subsequence is an item of the original |
| OrderedDicts.SubDict | chromadol/util.py:48-54 | `subdict(d, keys)`; no ensures of its own, specified by SubDictMembers, SubDictKeepsOrder, SubDictKeepsDistinctKeys and SubDictUnique |
| OrderedDicts.SubDictMembers | chromadol/util.py:48-54 | `subdict(d, keys)` holds an item exactly when `d` holds it and its key is in `keys`, with the value unchanged |
| OrderedDicts.SubDictKeepsOrder | chromadol/util.py:54 | the items of `subdict(d, keys)` come in the order `d` has them |
| OrderedDicts.SubDictKeepsDistinctKeys | chromadol/util.py:54 | the result of `subdict` is again a dict: no key occurs twice |
| OrderedDicts.SubDictUnique | chromadol/util.py:48-54 | any dict that keeps the order of `d` and holds exactly the items of `d` with a listed key is `subdict(d, keys)`, so the properties above determine it |
| OrderedDicts.SubDictExample | chromadol/util.py:51-52 | `subdict(dict(a=1, b=2, c=3), ['a', 'c'])` is `{'a': 1, 'c': 3}` |
| Values.AsList | chromadol/util.py:126 | `list(v)` succeeds exactly for lists, strings and dicts, and gives a list's items unchanged |
| Binding.Names | chromadol/util.py:97 | the parameter names, in declaration order |
| Binding.BindParams | chromadol/util.py:97 | the parameter walk of `Signature.bind`; no ensures of its own, specified by BindParamsSucceeds, BindParamsValues, BindParamsKeys and BindParamsErrors |
| Binding.Bind | chromadol/util.py:97 | `signature(func).bind(*args, **kwargs)`: the walk, then the check for unknown keywords; no ensures of its own, specified through MapArguments by MapArgumentsAccepts and MapArgumentsErrors |
| Binding.ApplyDefaults | chromadol/util.py:98 | `b.apply_defaults()`; no ensures of its own, specified by ApplyDefaultsSpec |
| Binding.MapArguments | chromadol/util.py:85-99 | `map_arguments`; no ensures of its own, specified by MapArgumentsSpec, MapArgumentsAccepts, MapArgumentsValues and MapArgumentsErrors |
| Binding.ArgumentValue | chromadol/util.py:102-117 | `argument_value`; no ensures of its own, specified by ArgumentValueSpec |
| Binding.FirstUnknownKeyword | chromadol/util.py:97 | a keyword it reports is one the call passes and that names no parameter, and every keyword before it names one; it reports none exactly when every keyword names a parameter |
| Binding.BindParamsSucceeds | chromadol/util.py:97 | the parameter walk succeeds exactly when there are no surplus positional arguments, no parameter is given both by position and by keyword, and every later parameter is named by keyword or has a default |
| Binding.BindParamsValues | chromadol/util.py:97 | after binding, each parameter holds its positional argument or else its keyword argument, and a parameter given neither is unbound |
| Binding.BindParamsKeys | chromadol/util.py:97 | binding only binds declared parameters |
| Binding.BindParamsErrors | chromadol/util.py:97 | each error of the parameter walk names a real defect of the call: surplus positional arguments, a parameter given twice, or a missing parameter without a default |
| Binding.ApplyDefaultsSpec | chromadol/util.py:98 | `apply_defaults` lists every parameter in declaration order, with its bound value or else its default |
| Binding.MapArgumentsSpec | chromadol/util.py:85-99 | `map_arguments` succeeds exactly when the call is acceptable. It then lists every parameter in declaration order, with its positional argument, else its keyword argument, else its default |
| Binding.MapArgumentsAccepts | chromadol/util.py:97-99 | `map_arguments` succeeds exactly for the calls Python accepts, whether or not the parameter names are distinct |
| Binding.MapArgumentsValues | chromadol/util.py:97-99 | on success, the keys are the parameter names, and each value is what the caller gave or else the default |
| Binding.MapArgumentsErrors | chromadol/util.py:97 | every TypeError `map_arguments` raises names what is wrong with the call; an unknown-keyword error names the first keyword, in the call's order, that names no parameter |
| Binding.ArgumentValueSpec | chromadol/util.py:102-117 | `argument_value(name, ...)` is the caller's value for `name` when one is passed by position or keyword, and the declared default otherwise. A name that is no parameter raises KeyError, and a binding error is passed on unchanged |
| Binding.NamedArgumentsDistinct | chromadol/util.py:117 | in a binding keyed by the parameter names, looking up a parameter gives its value |
| Binding.RebindByKeyword | chromadol/util.py:125-128 | passing a complete binding back by keyword binds to that same binding |
| Binding.BindsTo | chromadol/util.py:85-99 | a call binds to a given dict when that dict lists every parameter with the value the call resolves it to |
| Binding.ExampleSignatureFacts | chromadol/util.py:89 | `lambda x, y, z=42` has the distinct parameters x, y, z |
| Binding.MapArgumentsExampleDefault | chromadol/util.py:89-91 | `map_arguments(func, [1], {'y': 2})` is `{'x': 1, 'y': 2, 'z': 42}` |
| Binding.MapArgumentsExampleKeyword | chromadol/util.py:92-93 | `map_arguments(func, [1, 2], {'z': 4})` is `{'x': 1, 'y': 2, 'z': 4}` |
| Binding.MapArgumentsExamplePositional | chromadol/util.py:94-95 | `map_arguments(func, [1, 2, 3], {})` is `{'x': 1, 'y': 2, 'z': 3}` |
| Binding.ArgumentValueExampleDefault | chromadol/util.py:108-110 | `argument_value('z', func, [1, 2], {})` is 42 |
| Binding.ArgumentValueExampleKeyword | chromadol/util.py:111-112 | `argument_value('z', func, [1, 2], {'z': 4})` is 4 |
| Binding.ArgumentValueExamplePositional | chromadol/util.py:113-114 | `argument_value('z', func, [1, 2, 3], {})` is 3 |
| IncludeFilter.Call | chromadol/util.py:128 | calling the wrapped method: bind, fill in defaults, run its body; no ensures of its own, specified by CallRebound and KeepOnlyIncludeKeysOnBinding |
| IncludeFilter.KeepKeys | chromadol/util.py:126-127 | `['ids'] + list(kwargs.get('include', []))`; no ensures of its own, specified by KeepKeysRequested |
| IncludeFilter.Requested | chromadol/util.py:126 | the fields a call asks for, through `argument_value`; no ensures of its own, specified by KeepKeysRequested, RequestedIsIncludeArgument and NoIncludeParameterKeepsIds |
| IncludeFilter.KeepOnlyIncludeKeysAsWritten | chromadol/util.py:120-130 | the wrapper as written, calling `method(*args, **kwargs)`; no ensures of its own, specified by AsWrittenRefusesPositional and AsWrittenAgreesOnKeywordCalls |
| IncludeFilter.KeepOnlyIncludeKeys | chromadol/util.py:120-130 | the wrapper with the call corrected to `method(**kwargs)`; no ensures of its own, specified by KeepOnlyIncludeKeysSpec and KeepOnlyIncludeKeysOnBinding |
| IncludeFilter.KeepKeysRequested | chromadol/util.py:125-127 | the kept keys are `ids` followed by the list made of the `include` argument (given or defaulted), and they fail exactly when that list does |
| IncludeFilter.CallRebound | chromadol/util.py:125-128 | calling the method by keyword with the bound arguments is the same call as the original |
| IncludeFilter.KeepOnlyIncludeKeysSpec | chromadol/util.py:120-130 | the wrapper answers exactly when the method answers with a mapping and `list(include)` succeeds (the declared default when omitted, nothing when the method has no `include` parameter). It returns the items of the method's result whose key is `ids` or a requested field, every such item, in the order of the method's result. It passes binding errors on |
| IncludeFilter.RequestedIsIncludeArgument | chromadol/util.py:125-126 | the requested fields are the declared default of `include` when the call omits it, and the given value otherwise |
| IncludeFilter.NoIncludeParameterKeepsIds | chromadol/util.py:126-127 | for a method without an `include` parameter, only `ids` is kept |
| IncludeFilter.AsWrittenAgreesOnKeywordCalls | chromadol/util.py:124-128 | for calls without positional arguments, the wrapper as written and the corrected wrapper agree |
| IncludeFilter.AsWrittenRefusesPositional | chromadol/util.py:125-128 | as written, any call with a positional argument is refused with "multiple values" for the first parameter, although the method accepts the call |
| IncludeFilter.KeepOnlyIncludeKeysOnBinding | chromadol/util.py:125-128 | for a call that binds to given arguments with a list `include`, the wrapper returns `subdict(method(**arguments), ['ids'] + include)` |
| IncludeFilter.GetParameterNames | chromadol/tests/test_util.py:28 | the parameters of `Collection.get` in this model are ids, where, limit, offset, where_document, include |
| IncludeFilter.GetNames | chromadol/tests/test_util.py:28 | those names are distinct and are the keys of every binding of `get` |
| IncludeFilter.GetArgumentKeys | chromadol/tests/test_util.py:28 | the keys of a binding of `get` are its parameter names |
| IncludeFilter.GetDefaultsResolve | chromadol/tests/test_util.py:28 | `get()` is accepted and each parameter takes its default |
| IncludeFilter.GetBindsDefaults | chromadol/tests/test_util.py:28 | `get()` binds `include` to the default `['metadatas', 'documents']` |
| IncludeFilter.GetIncludeGiven | chromadol/tests/test_util.py:34 | `get(include=fields)` gives `include` and no other parameter |
| IncludeFilter.GetIncludeAccepted | chromadol/tests/test_util.py:34 | `get(include=fields)` is accepted |
| IncludeFilter.GetDefaultsDeclared | chromadol/tests/test_util.py:28 | every parameter of `get` has a default, None for all but `include` |
| IncludeFilter.GetArgumentValues | chromadol/tests/test_util.py:34 | the values of a binding of `get` with `include=fields` |
| IncludeFilter.GetIncludeResolves | chromadol/tests/test_util.py:34 | with `include=fields`, every parameter but `include` takes its default |
| IncludeFilter.GetBindsInclude | chromadol/tests/test_util.py:34 | `get(include=fields)` binds `include` to `fields` and the rest to their defaults |
| IncludeFilter.SubDictOfGetDefault | chromadol/tests/test_util.py:28-32 | keeping ids, metadatas and documents out of a `get` result keeps those three items, in result order |
| IncludeFilter.SubDictOfGetUris | chromadol/tests/test_util.py:34-37 | keeping ids and uris out of a `get` result keeps those two items |
| IncludeFilter.GetBodyEntries | chromadol/tests/test_util.py:16-23 | the `get` result for the two stored records lists every field, each filled only when included |
| IncludeFilter.DefaultFieldItems | chromadol/tests/test_util.py:16-23 | with the default `include`, metadatas and documents are filled and the other fields are None |
| IncludeFilter.GetKeepsDefault | chromadol/tests/test_util.py:28-32 | the default `get` result cut down to ids, metadatas and documents |
| IncludeFilter.GetKeepsUris | chromadol/tests/test_util.py:34-37 | the `get(include=['uris'])` result cut down to ids and uris |
| IncludeFilter.GetReturnsEveryField | chromadol/tests/test_util.py:16-23 | the unwrapped `get()` returns ids, embeddings, metadatas, documents, uris and data |
| IncludeFilter.WrappedGetUsesDefaultInclude | chromadol/tests/test_util.py:27-32 | the wrapped `get()` returns exactly ids, metadatas and documents, with their values |
| IncludeFilter.WrappedGetUsesGivenInclude | chromadol/tests/test_util.py:34-37 | the wrapped `get(include=['uris'])` returns exactly ids and uris |
| IncludeFilter.SubDictOfQuery | chromadol/tests/test_util.py:39-54 | keeping `['ids', 'documents', 'distances']` out of a `query` result gives ids, distances, documents: the order of the result, not of `include` |
| Store.ColumnLength | chromadol/util.py:78 | in a batch whose lists all have one value per record, every field's column, given or not, has one value per record |
| Store.DistinctAppend | chromadol/util.py:78 | appending new, distinct ids keeps the stored ids distinct |
| Store.Column | chromadol/util.py:78 | the values a batch gives for a field; a field the batch leaves out gets one None per record |
| Store.AddRefusal | chromadol/util.py:78 | why `Collection.add` refuses a batch: an unknown field, then a list of the wrong length, then an id given twice or already stored; no ensures of its own, used by the contract of Collection.Add |
| Store.FirstMisaligned | chromadol/util.py:78 | a field it reports has a list of the wrong length; it reports none exactly when every list is as long as the id list |
| Store.Collection.constructor | chromadol/util.py:7 | an empty collection satisfies the invariant |
| Store.Collection.Add | chromadol/util.py:78 | `Collection.add` either refuses the batch and changes nothing, or appends the ids and each field's values (None for fields it leaves out). It keeps the invariant |
| Store.FoundIds | chromadol/util.py:58 | `collection.get(ids=query, include=[])['ids']` holds exactly the stored ids the query names |
| Store.NotFound | chromadol/util.py:64 | the comprehension keeps exactly the ids not in the found set |
| Store.NotFoundCounts | chromadol/util.py:64 | each id not found is kept as often as it occurs in the input |
| Store.NotFoundKeepsOrder | chromadol/util.py:64 | the ids kept stay in input order |
| Store.AbsentFrom | chromadol/util.py:59 | `[i for i, id_ in enumerate(ids) if id_ not in found]` from a position on; no ensures of its own, specified by AbsentFromSpec and SelectAbsentFrom |
| Store.AbsentFromSpec | chromadol/util.py:59 | the enumerated positions are valid, hold exactly the ids not found, and increase strictly |
| Store.SelectAbsentFrom | chromadol/util.py:57-64 | picking the ids at the positions the index comprehension yields gives what the id comprehension yields |
| Store.FoundSet | chromadol/util.py:58 | the found set holds exactly the queried ids that are stored |
| Store.IdsNotInCollection | chromadol/util.py:62-64 | `ids_not_in_collection` holds exactly the given ids the collection does not store |
| Store.IdsNotInCollectionCounts | chromadol/util.py:62-64 | duplicates are kept: an id that is not stored occurs as often as in the input, and a stored id not at all |
| Store.IndicesOfIdNotInCollection | chromadol/util.py:57-64 | the ids at the returned positions are exactly `ids_not_in_collection(collection, ids)` |
| Store.IndicesOfIdNotInCollectionSpec | chromadol/util.py:57-59 | the positions are valid, their ids are not stored, every unstored position is included, and they increase strictly |
| Store.Select | chromadol/util.py:73 | `[xs[i] for i in idx]` succeeds exactly when every index is in range, and then picks `xs[i]` for each index in order; otherwise it raises IndexError |
| Store.SliceEach | chromadol/util.py:77 | the comprehension over `kwargs` succeeds exactly when every list can be cut down. It keeps every key in order, cuts each value to the given positions, and otherwise raises IndexError |
| Store.NothingMissing | chromadol/util.py:71-75 | nothing is missing exactly when every given id is stored, and the missing positions are empty exactly then |
| Store.SliceEachKeepsFields | chromadol/util.py:76-77 | cutting the lists down keeps which fields are given and which are unknown |
| Store.SlicedColumn | chromadol/util.py:73-78 | each field of the batch handed to `add` holds, record by record, the caller's value at the missing positions |
| Store.GivenAt | chromadol/util.py:73-77 | the caller's value for a field at one position of `ids`; no ensures of its own, used by SlicedColumn and AddIfMissing |
| Store.MissingRefusal | chromadol/util.py:72-78 | why `add_if_missing` fails: a list too short for a missing position, then an unknown field, then an absent id given twice; no ensures of its own, related to AddRefusal by MissingBatchRefusal and used by AddIfMissing |
| Store.MissingBatchRefusal | chromadol/util.py:72-78 | the batch handed to `add` is aligned and holds no stored id, so `add` refuses it only for an unknown field or an id given twice |
| Store.AddIfMissing | chromadol/util.py:67-78 | does nothing when every id is stored or `ids` is empty. Otherwise it adds, in one `add` call, exactly the unstored ids, each with the caller's field values at its position. Stored records keep their values. Refusals change nothing. On success every given id is stored, and the invariant holds throughout |
| MappedLists.MappedList | chromadol/util.py:38-39 | `list(map(func, iterable))` has the iterable's length and holds `func` of each element at its position |
| MappedLists.PartialMappedList | chromadol/util.py:36-37 | `mapped_list(func)` without an iterable returns a function that, for every iterable, gives a list of the same length holding `func` of each element at its position |
| MappedLists.MappedListAppend | chromadol/util.py:38-39 | mapping a concatenation maps each part and concatenates the results |
| MappedLists.MappedListExample | chromadol/util.py:30-31 | `mapped_list(lambda x: x**2, [1,2,3])` is `[1, 4, 9]` |
| MappedLists.PartialMappedListExample | chromadol/util.py:32-34 | `mapped_list(lambda x: x**2)` applied to `[1,2,3]` gives `[1, 4, 9]` |

## Left out

- The thread-pool branch of `mapped_list` (chromadol/util.py:40-45) and its `max_workers` parameter: the branch exists for concurrency, and it reads the CPU count from the environment.
- `Delegator`, `_methods_containing_include_argument` and `transform_methods_to_keep_only_include_keys` (chromadol/util.py:133-182): they rely on runtime reflection (`dir`, `getattr`, `setattr`, `inspect.signature`). The model takes the wrapped method as a given parameter list plus a body function.
- The `Sig(Collection.add).ch_names(...)` decorator (chromadol/util.py:67) is a call into another library, and it changes only the function's signature.
- chromadol/base.py is not part of this model, so `chromadol/__init__.py` has nothing to model.
- chromadb itself is not modelled: persistence, embeddings, `query` similarity search, and `get` beyond "which of these ids are stored". `Store.Collection.Add` is an abstraction of `Collection.add`. It refuses an unknown field, a field list of the wrong length, and an id given twice or already stored. chromadb's own handling of an id that is already stored is not modelled.
- Store.Collection.Add: fields are the five fields `Collection.add` accepts (embeddings, metadatas, documents, images, uris). Their values are not validated further.
- Binding: the model covers methods whose parameters are all positional-or-keyword, such as `Collection.get` and `Collection.query`. The pydantic `copy`/`dict`/`json` methods the wrapper also wraps (chromadol/util.py:151-157) have keyword-only parameters, and `json` also takes `**dumps_kwargs`; keyword-only, positional-only, `*args` and `**kwargs` parameters are left out.
- Binding.MapArgumentsSpec: it assumes distinct parameter names, because Python refuses a definition that repeats one. `Binding.MapArgumentsAccepts` drops that assumption for the success condition.
- Store: `ids` is a list of string ids. The single-id form that `MaybeSome[ID]` allows is left out, and so is a `kwargs` value that is not a list.
- Store.GivenAt: its fallback to None for a list too short for the position is never reached by a successful `add_if_missing`, which raises IndexError first.
- Exceptions raised by the user's `func` in `mapped_list`, or by the wrapped method's body, are not modelled. Bodies are total functions.
- The second doctest of `mapped_list` (chromadol/util.py:32-34) calls `vectorize`, which chromadol/util.py does not define, so as written it raises NameError. `MappedLists.PartialMappedListExample` states it with `squares` read as `mapped_list(lambda x: x**2)`, what it evidently means.
- `identity` (chromadol/util.py:18-20) is trivial and is not used by the modelled helpers.
- `keep_only_include_keys` as written is modelled by `IncludeFilter.KeepOnlyIncludeKeysAsWritten`. The rest of the model uses the corrected form (see Findings).

## Findings

| source | as written | input that shows it | evidently intended | confidence | as-written member | corrected member |
|---|---|---|---|---|---|---|
| chromadol/util.py:125-128 | the wrapper binds the call with `map_arguments`, then calls `method(*args, **kwargs)` with the original positional arguments AND every bound argument by keyword | any call with a positional argument, e.g. `wrapped.get(['apple'])`: the first parameter `ids` is then given both by position and by keyword, and Python raises "got multiple values for argument 'ids'" | call the method once, with the bound arguments (`method(**kwargs)`), so the wrapper accepts every call the method accepts | not executed | IncludeFilter.AsWrittenRefusesPositional | IncludeFilter.KeepOnlyIncludeKeysSpec |
