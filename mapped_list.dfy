/** `mapped_list` (chromadol/util.py) with a single worker: `map` collected into a list. */
module MappedLists {

  /** `list(map(func, iterable))`: `func` applied to every element, in order. */
  function MappedList<A, B>(func: A -> B, iterable: seq<A>): (r: seq<B>)
    ensures |r| == |iterable|
    ensures forall i :: 0 <= i < |iterable| ==> r[i] == func(iterable[i])
  {
    if iterable == [] then [] else [func(iterable[0])] + MappedList(func, iterable[1..])
  }

  /** `mapped_list(func)` without an iterable: the function that maps `func` over the iterable it is given. */
  function PartialMappedList<A(!new), B>(func: A -> B): (r: seq<A> -> seq<B>)
    ensures forall xs :: |r(xs)| == |xs|
    ensures forall xs, i :: 0 <= i < |xs| ==> r(xs)[i] == func(xs[i])
  {
    xs => MappedList(func, xs)
  }

  /** Mapping a concatenation maps each part. */
  lemma {:induction false} MappedListAppend<A, B>(func: A -> B, xs: seq<A>, ys: seq<A>)
    ensures MappedList(func, xs + ys) == MappedList(func, xs) + MappedList(func, ys)
  {
    if xs != [] {
      assert (xs + ys)[1..] == xs[1..] + ys;
      MappedListAppend(func, xs[1..], ys);
    }
  }

  /** The doctest: squaring `[1, 2, 3]` gives `[1, 4, 9]`. */
  lemma MappedListExample()
    ensures MappedList((x: int) => x * x, [1, 2, 3]) == [1, 4, 9]
  {
  }

  /** The second doctest, with `squares` read as `mapped_list(lambda x: x**2)`. */
  lemma PartialMappedListExample()
    ensures PartialMappedList((x: int) => x * x)([1, 2, 3]) == [1, 4, 9]
  {
  }
}
