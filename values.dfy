/**
  The Python values that cross the boundary of the helpers: call arguments, the
  `include` argument and the mapping a store method returns, and the exceptions
  the helpers can raise.
*/
module Values {
  import opened Wrappers

  datatype Value =
    | NoneValue
    | Bool(b: bool)
    | Int(i: int)
    | Str(s: string)
    | List(items: seq<Value>)
    | Mapping(entries: seq<(Value, Value)>)

  /** The exceptions raised by the modelled code, with what identifies each. */
  datatype Error =
    // TypeErrors raised by binding a call to a signature
    | TooManyPositional
    | MultipleValues(name: string)
    | MissingArgument(name: string)
    | UnexpectedKeyword(name: string)
    // `d[name]` on a missing key
    | KeyError(name: string)
    // `list(v)` on a value that is not iterable
    | NotIterable
    // `v.items()` on a value that is not a mapping
    | NotAMapping
    // `xs[i]` with `i` past the end of `xs`
    | IndexError
    // the store refuses a batch that names one id twice or an id it already holds
    | DuplicateIds
    // the store refuses a field list whose length differs from the id list's
    | LengthMismatch(field: string)

  /** Python's `list(v)`: a list is copied, a string gives its characters, a mapping its keys. */
  function AsList(v: Value): (r: Result<seq<Value>, Error>)
    ensures r.Success? <==> (v.List? || v.Str? || v.Mapping?)
    ensures v.List? ==> r == Success(v.items)
  {
    match v
    case List(items) => Success(items)
    case Str(s) => Success(seq(|s|, i requires 0 <= i < |s| => Str([s[i]])))
    case Mapping(es) => Success(seq(|es|, i requires 0 <= i < |es| => es[i].0))
    case _ => Failure(NotIterable)
  }

  /** The items of a value used as a mapping (`d.items()`). */
  function Items(v: Value): Result<seq<(Value, Value)>, Error> {
    if v.Mapping? then Success(v.entries) else Failure(NotAMapping)
  }
}
