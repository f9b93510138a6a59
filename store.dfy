/**
  `ids_not_in_collection`, `indices_of_id_not_in_collection` and
  `add_if_missing` (chromadol/util.py) over a collection reduced to its list of
  stored ids and one list of values per field, aligned with the ids.
*/
module Store {
  import opened Wrappers
  import opened Values
  import opened OrderedDicts
  import opened Binding

  /** The fields `Collection.add` accepts next to `ids`. */
  const FieldNames: seq<string> := ["embeddings", "metadatas", "documents", "images", "uris"]

  /** No element occurs twice. */
  predicate Distinct(s: seq<string>) {
    forall i, j :: 0 <= i < j < |s| ==> s[i] != s[j]
  }

  /** The values a batch gives for `field`, or None for each of its `n` records when it gives none. */
  function Column(batch: Dict<string, seq<Value>>, field: string, n: nat): (r: seq<Value>)
    ensures Get(batch, field).Some? ==> r == Get(batch, field).value
    ensures Get(batch, field).None? ==> |r| == n && forall k :: 0 <= k < n ==> r[k] == NoneValue
  {
    match Get(batch, field)
    case Some(values) => values
    case None => seq(n, _ => NoneValue)
  }

  lemma ColumnLength(batch: Dict<string, seq<Value>>, field: string, n: nat)
    requires forall e :: e in batch ==> |e.1| == n
    ensures |Column(batch, field, n)| == n
  {
    match Get(batch, field)
    case Some(values) => assert (field, values) in batch;
    case None =>
  }

  lemma DistinctAppend(a: seq<string>, b: seq<string>)
    requires Distinct(a) && Distinct(b)
    requires forall x :: x in b ==> x !in a
    ensures Distinct(a + b)
  {
    forall i, j | 0 <= i < j < |a + b|
      ensures (a + b)[i] != (a + b)[j]
    {
      if j >= |a| && i < |a| {
        assert (a + b)[j] in b;
      }
    }
  }

  /** The first field of a batch whose list is not as long as the batch's id list. */
  function FirstMisaligned(batch: Dict<string, seq<Value>>, n: nat): (r: Option<string>)
    ensures r.Some? ==> exists e :: e in batch && e.0 == r.value && |e.1| != n
    ensures r.None? <==> forall e :: e in batch ==> |e.1| == n
  {
    if batch == [] then None
    else if |batch[0].1| != n then Some(batch[0].0)
    else FirstMisaligned(batch[1..], n)
  }

  /**
    Why `Collection.add` refuses a batch, if it does: an unknown field, then a
    field list of the wrong length, then an id named twice or already stored.
  */
  function AddRefusal(stored: seq<string>, newIds: seq<string>, batch: Dict<string, seq<Value>>): Option<Error> {
    match FirstUnknownKeyword(batch, FieldNames)
    case Some(name) => Some(UnexpectedKeyword(name))
    case None =>
      match FirstMisaligned(batch, |newIds|)
      case Some(name) => Some(LengthMismatch(name))
      case None =>
        if Distinct(newIds) && forall x :: x in newIds ==> x !in stored then None else Some(DuplicateIds)
  }

  class Collection {
    var ids: seq<string>
    var fields: map<string, seq<Value>>

    /** Every id is stored once, and every field holds one value per id. */
    ghost predicate Valid()
      reads this
    {
      && Distinct(ids)
      && (forall f :: f in fields <==> f in FieldNames)
      && (forall f :: f in fields ==> |fields[f]| == |ids|)
    }

    constructor ()
      ensures Valid()
      ensures ids == []
      ensures forall f :: f in fields ==> fields[f] == []
    {
      ids := [];
      fields := map f | f in FieldNames :: [];
    }

    /**
      `Collection.add(ids, **fields)`: appends the records, a field the batch
      leaves out getting None, or refuses the batch as `AddRefusal` says and
      changes nothing.
    */
    method Add(newIds: seq<string>, batch: Dict<string, seq<Value>>) returns (result: Result<(), Error>)
      requires Valid()
      modifies this
      ensures Valid()
      ensures AddRefusal(old(ids), newIds, batch).Some? ==>
        result == Failure(AddRefusal(old(ids), newIds, batch).value) && ids == old(ids) && fields == old(fields)
      ensures AddRefusal(old(ids), newIds, batch).None? ==>
        && result == Success(())
        && ids == old(ids) + newIds
        && fields.Keys == old(fields).Keys
        && forall f :: f in fields ==> fields[f] == old(fields)[f] + Column(batch, f, |newIds|)
    {
      var refusal := AddRefusal(ids, newIds, batch);
      if refusal.Some? {
        return Failure(refusal.value);
      }
      forall f | f in fields
        ensures |Column(batch, f, |newIds|)| == |newIds|
      {
        ColumnLength(batch, f, |newIds|);
      }
      DistinctAppend(ids, newIds);
      ids := ids + newIds;
      fields := map f | f in fields :: fields[f] + Column(batch, f, |newIds|);
      result := Success(());
    }
  }

  /** `collection.get(ids=query, include=[])['ids']`: the stored ids the query names, in store order. */
  function FoundIds(stored: seq<string>, query: seq<string>): (r: seq<string>)
    ensures forall x :: x in r <==> x in stored && x in query
  {
    if stored == [] then []
    else (if stored[0] in query then [stored[0]] else []) + FoundIds(stored[1..], query)
  }

  /** `[id_ for id_ in ids if id_ not in found]`. */
  function NotFound(ids: seq<string>, found: set<string>): (r: seq<string>)
    ensures forall x :: x in r <==> x in ids && x !in found
  {
    if ids == [] then []
    else
      assert ids == [ids[0]] + ids[1..];
      (if ids[0] in found then [] else [ids[0]]) + NotFound(ids[1..], found)
  }

  /** Each id not found is kept as often as `ids` holds it; a found id not at all. */
  lemma {:induction false} NotFoundCounts(ids: seq<string>, found: set<string>)
    ensures forall x :: multiset(NotFound(ids, found))[x] == if x in found then 0 else multiset(ids)[x]
  {
    if ids != [] {
      NotFoundCounts(ids[1..], found);
      assert ids == [ids[0]] + ids[1..];
      var head := if ids[0] in found then [] else [ids[0]];
      assert NotFound(ids, found) == head + NotFound(ids[1..], found);
      assert multiset(NotFound(ids, found)) == multiset(head) + multiset(NotFound(ids[1..], found));
      assert multiset(ids) == multiset([ids[0]]) + multiset(ids[1..]);
    }
  }

  /** `[i for i, id_ in enumerate(ids) if id_ not in found]`, from position `i` on. */
  function AbsentFrom(ids: seq<string>, found: set<string>, i: nat): seq<nat>
    requires i <= |ids|
    decreases |ids| - i
  {
    if i == |ids| then []
    else (if ids[i] in found then [] else [i]) + AbsentFrom(ids, found, i + 1)
  }

  /**
    The positions from `i` on whose id is not in `found`, each once, in
    increasing order.
  */
  lemma {:induction false} AbsentFromSpec(ids: seq<string>, found: set<string>, i: nat)
    requires i <= |ids|
    ensures forall k :: 0 <= k < |AbsentFrom(ids, found, i)| ==>
      i <= AbsentFrom(ids, found, i)[k] < |ids| && ids[AbsentFrom(ids, found, i)[k]] !in found
    ensures forall k :: i <= k < |ids| && ids[k] !in found ==> k in AbsentFrom(ids, found, i)
    ensures forall k, l :: 0 <= k < l < |AbsentFrom(ids, found, i)| ==>
      AbsentFrom(ids, found, i)[k] < AbsentFrom(ids, found, i)[l]
    decreases |ids| - i
  {
    if i < |ids| {
      AbsentFromSpec(ids, found, i + 1);
      var later := AbsentFrom(ids, found, i + 1);
      if ids[i] !in found {
        var r := [i] + later;
        assert AbsentFrom(ids, found, i) == r;
        forall k | 0 <= k < |r| ensures i <= r[k] < |ids| && ids[r[k]] !in found {
          if k > 0 {
            assert r[k] == later[k - 1];
          }
        }
        forall k | i <= k < |ids| && ids[k] !in found ensures k in r {
          if k > i {
            assert k in later;
          }
        }
        forall k, l | 0 <= k < l < |r| ensures r[k] < r[l] {
          assert r[l] == later[l - 1];
          if k > 0 {
            assert r[k] == later[k - 1];
          }
        }
      }
    }
  }

  /** The ids of `set(collection.get(ids=ids, include=[])['ids'])`. */
  function FoundSet(c: Collection, ids: seq<string>): (r: set<string>)
    reads c
    ensures forall x :: x in r <==> x in c.ids && x in ids
  {
    set x | x in FoundIds(c.ids, ids)
  }

  /**
    `ids_not_in_collection`: the ids not stored in the collection, in the
    order given, each as often as it is given.
  */
  function IdsNotInCollection(c: Collection, ids: seq<string>): (r: seq<string>)
    reads c
    ensures forall x :: x in r <==> x in ids && x !in c.ids
  {
    NotFound(ids, FoundSet(c, ids))
  }

  /** `ids_not_in_collection` keeps duplicates: an id not stored occurs in it as often as in `ids`. */
  lemma IdsNotInCollectionCounts(c: Collection, ids: seq<string>)
    ensures forall x :: multiset(IdsNotInCollection(c, ids))[x] == if x in c.ids then 0 else multiset(ids)[x]
  {
    NotFoundCounts(ids, FoundSet(c, ids));
    forall x ensures multiset(IdsNotInCollection(c, ids))[x] == if x in c.ids then 0 else multiset(ids)[x] {
      if x !in ids {
        assert multiset(ids)[x] == 0;
      }
    }
  }

  /**
    `indices_of_id_not_in_collection`: the positions of the ids not stored;
    the ids at them are `ids_not_in_collection`.
  */
  function IndicesOfIdNotInCollection(c: Collection, ids: seq<string>): (r: seq<nat>)
    reads c
    ensures Select(ids, r) == Success(IdsNotInCollection(c, ids))
  {
    SelectAbsentFrom(ids, FoundSet(c, ids), 0);
    assert ids[0..] == ids;
    AbsentFrom(ids, FoundSet(c, ids), 0)
  }

  /** The positions are valid, hold exactly the ids not stored, and increase strictly. */
  lemma IndicesOfIdNotInCollectionSpec(c: Collection, ids: seq<string>)
    ensures var r := IndicesOfIdNotInCollection(c, ids);
      && (forall k :: 0 <= k < |r| ==> r[k] < |ids| && ids[r[k]] !in c.ids)
      && (forall k :: 0 <= k < |ids| && ids[k] !in c.ids ==> k in r)
      && (forall k, l :: 0 <= k < l < |r| ==> r[k] < r[l])
  {
    AbsentFromSpec(ids, FoundSet(c, ids), 0);
  }

  /** `[xs[i] for i in idx]`, which raises IndexError at the first index past the end of `xs`. */
  function Select<T>(xs: seq<T>, idx: seq<nat>): (r: Result<seq<T>, Error>)
    ensures r.Success? <==> forall k :: 0 <= k < |idx| ==> idx[k] < |xs|
    ensures r.Success? ==> |r.value| == |idx| && forall k :: 0 <= k < |idx| ==> r.value[k] == xs[idx[k]]
    ensures r.Failure? ==> r.error == IndexError
  {
    if idx == [] then Success([])
    else if idx[0] >= |xs| then Failure(IndexError)
    else
      var rest :- Select(xs, idx[1..]);
      Success([xs[idx[0]]] + rest)
  }

  /** `{k: get_missing(v) for k, v in kwargs.items()}`: every field list cut down to the positions `idx`. */
  function SliceEach(kwargs: Dict<string, seq<Value>>, idx: seq<nat>): (r: Result<Dict<string, seq<Value>>, Error>)
    ensures r.Success? <==> forall e :: e in kwargs ==> Select(e.1, idx).Success?
    ensures r.Success? ==>
      && Keys(r.value) == Keys(kwargs)
      && forall k :: 0 <= k < |kwargs| ==> Select(kwargs[k].1, idx) == Success(r.value[k].1)
    ensures r.Success? ==> forall e :: e in r.value ==> |e.1| == |idx|
    ensures r.Failure? ==> r.error == IndexError
  {
    if kwargs == [] then Success([])
    else
      var values :- Select(kwargs[0].1, idx);
      var rest :- SliceEach(kwargs[1..], idx);
      Success([(kwargs[0].0, values)] + rest)
  }

  /** The ids not found keep their order in `ids`. */
  lemma {:induction false} NotFoundKeepsOrder(ids: seq<string>, found: set<string>)
    ensures IsSubsequence(NotFound(ids, found), ids)
  {
    if ids != [] {
      var rest := NotFound(ids[1..], found);
      NotFoundKeepsOrder(ids[1..], found);
      if ids[0] in found {
        assert NotFound(ids, found) == rest;
      } else {
        assert NotFound(ids, found) == [ids[0]] + rest;
        assert ([ids[0]] + rest)[1..] == rest;
      }
    }
  }

  /** Picking the positions of the absent ids out of `ids` gives the absent ids. */
  lemma {:induction false} SelectAbsentFrom(ids: seq<string>, found: set<string>, i: nat)
    requires i <= |ids|
    ensures Select(ids, AbsentFrom(ids, found, i)) == Success(NotFound(ids[i..], found))
    decreases |ids| - i
  {
    if i == |ids| {
      assert ids[i..] == [];
    } else {
      SelectAbsentFrom(ids, found, i + 1);
      var later, rest := AbsentFrom(ids, found, i + 1), NotFound(ids[i + 1..], found);
      assert ids[i..] != [] && ids[i..][0] == ids[i] && ids[i..][1..] == ids[i + 1..];
      if ids[i] in found {
        assert AbsentFrom(ids, found, i) == later;
        assert NotFound(ids[i..], found) == rest;
      } else {
        var idx := [i] + later;
        assert AbsentFrom(ids, found, i) == idx;
        assert NotFound(ids[i..], found) == [ids[i]] + rest;
        assert idx[0] == i && idx[1..] == later;
        assert Select(ids, idx) == Success([ids[i]] + rest);
      }
    }
  }

  /** Nothing is missing exactly when the collection holds every id given. */
  lemma NothingMissing(c: Collection, ids: seq<string>)
    ensures IdsNotInCollection(c, ids) == [] <==> forall x :: x in ids ==> x in c.ids
    ensures IndicesOfIdNotInCollection(c, ids) == [] <==> IdsNotInCollection(c, ids) == []
  {
    if IdsNotInCollection(c, ids) != [] {
      assert IdsNotInCollection(c, ids)[0] in IdsNotInCollection(c, ids);
    }
  }

  /** Cutting the field lists down keeps which fields are given, and so which are unknown. */
  lemma {:induction false} SliceEachKeepsFields(kwargs: Dict<string, seq<Value>>, idx: seq<nat>, field: string)
    requires SliceEach(kwargs, idx).Success?
    ensures FirstUnknownKeyword(SliceEach(kwargs, idx).value, FieldNames) == FirstUnknownKeyword(kwargs, FieldNames)
    ensures Get(SliceEach(kwargs, idx).value, field).Some? <==> Get(kwargs, field).Some?
    ensures Get(kwargs, field).Some? ==>
      Select(Get(kwargs, field).value, idx) == Success(Get(SliceEach(kwargs, idx).value, field).value)
  {
    if kwargs != [] {
      var sliced := SliceEach(kwargs, idx).value;
      SliceEachKeepsFields(kwargs[1..], idx, field);
      assert sliced[0].0 == kwargs[0].0;
      assert sliced[1..] == SliceEach(kwargs[1..], idx).value;
    }
  }

  /**
    The value a call of `add_if_missing` gives `field` at position `i` of its
    ids: None when it gives no such field (and, a case a successful call never
    reaches, when the list stops before `i`).
  */
  function GivenAt(kwargs: Dict<string, seq<Value>>, field: string, i: nat): Value {
    match Get(kwargs, field)
    case Some(values) => if i < |values| then values[i] else NoneValue
    case None => NoneValue
  }

  /** Each field of the cut-down batch holds, record by record, what the call gave at the missing positions. */
  lemma SlicedColumn(kwargs: Dict<string, seq<Value>>, missing: seq<nat>, field: string)
    requires SliceEach(kwargs, missing).Success?
    ensures forall k :: 0 <= k < |missing| ==>
      Column(SliceEach(kwargs, missing).value, field, |missing|)[k] == GivenAt(kwargs, field, missing[k])
  {
    SliceEachKeepsFields(kwargs, missing, field);
  }

  /**
    Why `add_if_missing` fails once it has found the absent positions
    `missing` (and `absent`, the ids at them): a field list too short for one
    of those positions, then an unknown field, then an absent id given twice.
  */
  function MissingRefusal(missing: seq<nat>, absent: seq<string>, kwargs: Dict<string, seq<Value>>): Option<Error> {
    if SliceEach(kwargs, missing).Failure? then Some(IndexError)
    else match FirstUnknownKeyword(kwargs, FieldNames)
      case Some(name) => Some(UnexpectedKeyword(name))
      case None => if Distinct(absent) then None else Some(DuplicateIds)
  }

  /**
    The batch `add_if_missing` hands to `Collection.add` is aligned and holds
    no stored id, so the store refuses it only for an unknown field or an id
    given twice.
  */
  lemma MissingBatchRefusal(c: Collection, ids: seq<string>, kwargs: Dict<string, seq<Value>>)
    requires SliceEach(kwargs, IndicesOfIdNotInCollection(c, ids)).Success?
    ensures
      var missing := IndicesOfIdNotInCollection(c, ids);
      AddRefusal(c.ids, IdsNotInCollection(c, ids), SliceEach(kwargs, missing).value)
        == MissingRefusal(missing, IdsNotInCollection(c, ids), kwargs)
  {
    var missing := IndicesOfIdNotInCollection(c, ids);
    SliceEachKeepsFields(kwargs, missing, "ids");
  }

  /**
    `add_if_missing`: adds to the collection the records whose id it does not
    hold yet, every field list cut down to the positions of those ids, in one
    `Collection.add` call; does nothing when there are none.
  */
  method AddIfMissing(c: Collection, ids: seq<string>, kwargs: Dict<string, seq<Value>>) returns (result: Result<(), Error>)
    requires c.Valid()
    modifies c
    ensures c.Valid()
    ensures old(IdsNotInCollection(c, ids)) == [] ==> result == Success(()) && c.ids == old(c.ids) && c.fields == old(c.fields)
    ensures
      var refusal := MissingRefusal(old(IndicesOfIdNotInCollection(c, ids)), old(IdsNotInCollection(c, ids)), kwargs);
      old(IdsNotInCollection(c, ids)) != [] && refusal.Some? ==>
        result == Failure(refusal.value) && c.ids == old(c.ids) && c.fields == old(c.fields)
    ensures
      var missing := old(IndicesOfIdNotInCollection(c, ids));
      old(IdsNotInCollection(c, ids)) != [] && MissingRefusal(missing, old(IdsNotInCollection(c, ids)), kwargs).None? ==>
        && result == Success(())
        && c.ids == old(c.ids) + old(IdsNotInCollection(c, ids))
        && c.fields.Keys == old(c.fields).Keys
        && (forall f :: f in c.fields ==> c.fields[f][..|old(c.ids)|] == old(c.fields)[f])
        && (forall f, k :: f in c.fields && 0 <= k < |missing| ==>
              c.fields[f][|old(c.ids)| + k] == GivenAt(kwargs, f, missing[k]))
    ensures result.Success? ==> forall x :: x in ids ==> x in c.ids
  {
    NothingMissing(c, ids);
    ghost var before, absentIds := c.ids, IdsNotInCollection(c, ids);
    assert forall x :: x in ids ==> x in before || x in absentIds;
    result := Success(());
    if |ids| > 0 {
      var missing := IndicesOfIdNotInCollection(c, ids);
      if |missing| > 0 {
        var sliced :- SliceEach(kwargs, missing);
        var absent := Select(ids, missing).value;
        assert absent == absentIds && |absent| == |missing|;
        MissingBatchRefusal(c, ids, kwargs);
        assert AddRefusal(c.ids, absent, sliced) == MissingRefusal(missing, absent, kwargs);
        forall f | f in FieldNames {
          SlicedColumn(kwargs, missing, f);
        }
        result := c.Add(absent, sliced);
      }
    }
  }
}
