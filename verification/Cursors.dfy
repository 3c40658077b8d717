/**
 The C cursors `dasi_list_t`, `dasi_wipe_t`, `dasi_purge_t` and the cursor part of
 `dasi_retrieve_t`: a `first` flag in front of an iterator whose generator is already
 positioned on the first element.
 */
module Cursors {
  import opened Outcome
  import opened Backend
  import opened Generators
  import opened Keys
  import opened OrderedMap

  datatype CursorState = CursorState(first: bool, position: nat)

  const FRESH := CursorState(true, 0)

  /** One `next` call over n elements. */
  function CursorNext(s: CursorState, n: nat): CursorState {
    if s.first then s.(first := false) else s.(position := Advanced(s.position, n))
  }

  function CursorStatus(s: CursorState, n: nat): Status {
    if s.position < n then Success else IterationComplete
  }

  /** The state and the last return code of k calls in a row. */
  function CursorAfter(n: nat, k: nat): CursorState {
    if k == 0 then FRESH else CursorNext(CursorAfter(n, k - 1), n)
  }

  /**
   Call k (counting from 1) succeeds exactly for k <= n and then stands on element k-1; every
   later call reports completion and changes nothing any more.
   */
  lemma {:induction false} CursorVisitsEach(n: nat, k: nat)
    requires k > 0
    ensures var s := CursorAfter(n, k);
            && (CursorStatus(s, n) == Success <==> k <= n)
            && (k <= n ==> s == CursorState(false, k - 1))
            && (k > n ==> s == CursorState(false, n) && CursorNext(s, n) == s)
  {
    if k > 1 {
      CursorVisitsEach(n, k - 1);
    }
  }

  class Cursor<E, T> {
    const iter: APIIterator<E, T>
    var first: bool

    ghost function Repr(): set<object> {
      {this} + iter.generator.Repr()
    }

    ghost predicate Valid()
      reads Repr()
    {
      && this !in iter.generator.Repr()
      && iter.generator.Valid()
      && iter.generator.Position() <= |Elements()|
      && (first ==> iter.generator.Position() == 0)
    }

    ghost function Elements(): seq<T> {
      iter.generator.Yields()
    }

    ghost function State(): CursorState
      requires Valid()
      reads Repr()
    {
      CursorState(first, iter.generator.Position())
    }

    constructor (generator: Generator<E, T>)
      requires generator.Valid() && generator.Position() == 0
      ensures Valid() && State() == FRESH && iter.generator == generator
    {
      iter := APIIterator(generator);
      first := true;
    }

    /** `dasi_wipe_next`, `dasi_purge_next`, and the movement of `dasi_list_next` and `dasi_retrieve_next`. */
    method Next() returns (status: Status)
      requires Valid()
      modifies Repr()
      ensures Valid()
      ensures State() == CursorNext(old(State()), |Elements()|)
      ensures status == CursorStatus(State(), |Elements()|)
    {
      if first {
        first := false;
      } else {
        iter.Advance();
      }
      var end := iter.AtEnd();
      if end {
        return IterationComplete;
      }
      return Success;
    }

    /** `dasi_wipe_get_value`, `dasi_purge_get_value`: the current element, or a failed assertion behind the last. */
    method Current() returns (r: Result<T, Status>)
      requires Valid()
      ensures r.Ok? <==> State().position < |Elements()|
      ensures r.Ok? ==> r.value == Elements()[State().position]
      ensures r.Err? ==> r.error == ErrorAssert
    {
      var end := iter.AtEnd();
      if end {
        return Err(ErrorAssert);
      }
      var x := iter.generator.Value();
      return Ok(x);
    }
  }

  /** The loop every C client writes, `while (next() == DASI_SUCCESS) { get(); }`: it sees what a range-for sees. */
  method Drain<E, T>(cursor: Cursor<E, T>) returns (seen: seq<T>)
    requires cursor.Valid() && cursor.State() == FRESH
    modifies cursor.Repr()
    ensures cursor.Valid()
    ensures seen == cursor.Elements()
  {
    seen := [];
    var status := cursor.Next();
    while status == Success
      invariant cursor.Valid() && !cursor.first
      invariant status == CursorStatus(cursor.State(), |cursor.Elements()|)
      invariant seen == cursor.Elements()[..cursor.State().position]
      decreases |cursor.Elements()| - cursor.State().position
    {
      var x := cursor.Current();
      seen := seen + [x.value];
      status := cursor.Next();
    }
  }

  /** Prefetching or fetched at once, in a C++ range-for or through a C cursor: the same elements in the same order. */
  method AllTraversalsAgree<E, T>(elements: seq<E>, convert: E -> T)
    returns (ranged: seq<T>, prefetched: seq<T>, fetched: seq<T>)
    ensures ranged == prefetched == fetched == Mapped(convert, elements)
  {
    var source := new Source(elements);
    var lazy := new LazyGenerator(source, convert);
    ranged := RangeFor(Lazy(lazy));
    source := new Source(elements);
    lazy := new LazyGenerator(source, convert);
    var cursor := new Cursor(Lazy(lazy));
    prefetched := Drain(cursor);
    source := new Source(elements);
    var eager := new EagerGenerator(source, convert);
    assert source.elements[0..] == source.elements;
    cursor := new Cursor(Eager(eager));
    fetched := Drain(cursor);
  }

  // ---- listing ---------------------------------------------------------------------------

  /** `dasi_list_t`: the cursor and the location text of the element it last moved to. */
  class ListHandle {
    const generator: LazyGenerator<FdbElement, Element>
    const cursor: Cursor<FdbElement, Element>
    var uriCache: string

    ghost function Repr(): set<object> {
      {this, cursor, generator, generator.source}
    }

    ghost predicate Valid()
      reads Repr()
    {
      && cursor.iter.generator == Lazy(generator) && generator.convert == ElementOf
      && cursor.Valid()
      && (!cursor.first && cursor.State().position < |Objects()| ==>
            uriCache == Objects()[cursor.State().position].uri)
    }

    ghost function State(): CursorState
      requires Valid()
      reads Repr()
    {
      cursor.State()
    }

    /** What the backend found. */
    ghost function Objects(): seq<FdbElement> {
      generator.source.elements
    }

    constructor (source: Source<FdbElement>)
      requires source.pos == 0
      modifies source
      ensures Valid() && fresh(Repr() - {source})
      ensures Objects() == source.elements && State() == FRESH
    {
      var lazy := new LazyGenerator(source, ElementOf);
      generator := lazy;
      cursor := new Cursor(Lazy(lazy));
      uriCache := "";
    }

    /** `dasi_list_next`. */
    method Next() returns (status: Status)
      requires Valid()
      modifies Repr()
      ensures Valid()
      ensures State() == CursorNext(old(State()), |Objects()|)
      ensures status == CursorStatus(State(), |Objects()|)
    {
      status := cursor.Next();
      if status == Success {
        var x := cursor.iter.generator.Value();
        uriCache := x.location.uri;
      }
    }
  }

  /** pydasi's `ListItem`; the key is an object of its own. */
  datatype ListItem = ListItem(key: Key, uri: string, timestamp: int, offset: int, length: int)

  /** Every field of the item is the object's own; of a repeated keyword the key holds the last value. */
  ghost predicate Lists(item: ListItem, o: FdbElement)
    reads item.key
  {
    && HoldsLastValues(item.key.values, o.pairs)
    && item.uri == o.uri && item.timestamp == o.timestamp && item.offset == o.offset && item.length == |o.bytes|
  }

  /** pydasi's `List.__next__`, with `dasi_list_attrs` copying the key; None is `StopIteration`. */
  method ListNext(list: ListHandle) returns (item: Option<ListItem>)
    requires list.Valid()
    modifies list.Repr()
    ensures list.Valid()
    ensures list.State() == CursorNext(old(list.State()), |list.Objects()|)
    ensures item.Some? <==> list.State().position < |list.Objects()|
    ensures item.Some? ==> fresh(item.value.key) && item.value.key !in list.Repr()
    ensures item.Some? ==> Lists(item.value, list.Objects()[list.State().position])
  {
    var status := list.Next();
    if status == IterationComplete {
      return None;
    }
    ElementDescribes(list.Objects()[list.State().position]);
    hide ElementOf, HoldsLastValues;
    var current := list.cursor.Current();
    var e := current.value;
    var key := new Key.Copy(e.key);
    return Some(ListItem(key, list.uriCache, e.timestamp, e.location.offset, e.location.length));
  }

  /** One item per object, in order, no two of them sharing a key object. */
  ghost predicate Collected(items: seq<ListItem>, objects: seq<FdbElement>)
    reads set i | 0 <= i < |items| :: items[i].key
  {
    && |items| == |objects|
    && (forall i :: 0 <= i < |items| ==> Lists(items[i], objects[i]))
    && forall i, j :: 0 <= i < j < |items| ==> items[i].key != items[j].key
  }

  lemma CollectedCons(item: ListItem, rest: seq<ListItem>, objects: seq<FdbElement>, k: nat)
    requires k < |objects| && Lists(item, objects[k]) && Collected(rest, objects[k + 1..])
    requires forall i :: 0 <= i < |rest| ==> rest[i].key != item.key
    ensures Collected([item] + rest, objects[k..])
  {
    hide Lists;
  }

  /** The items of all objects from object k on. */
  method CollectListFrom(list: ListHandle, ghost k: nat) returns (items: seq<ListItem>)
    requires list.Valid() && k <= |list.Objects()| && list.State() == CursorAfter(|list.Objects()|, k)
    modifies list.Repr()
    ensures list.Valid() && Collected(items, list.Objects()[k..])
    ensures forall i :: 0 <= i < |items| ==> fresh(items[i].key)
    decreases |list.Objects()| - k
  {
    CursorVisitsEach(|list.Objects()|, k + 1);
    assert CursorAfter(|list.Objects()|, k + 1) == CursorNext(CursorAfter(|list.Objects()|, k), |list.Objects()|);
    assert Collected([], []);
    hide *;
    var next := ListNext(list);
    if next.None? {
      return [];
    }
    var rest := CollectListFrom(list, k + 1);
    CollectedCons(next.value, rest, list.Objects(), k);
    items := [next.value] + rest;
  }

  /**
   `list(dasi.list(query))`: although the generator reuses one element, every collected item
   keeps showing its own object, through a key object of its own.
   */
  method CollectList(list: ListHandle) returns (items: seq<ListItem>)
    requires list.Valid() && list.State() == FRESH
    modifies list.Repr()
    ensures list.Valid()
    ensures |items| == |list.Objects()|
    ensures forall i :: 0 <= i < |items| ==> fresh(items[i].key) && Lists(items[i], list.Objects()[i])
    ensures forall i, j :: 0 <= i < j < |items| ==> items[i].key != items[j].key
  {
    items := CollectListFrom(list, 0);
    assert list.Objects()[0..] == list.Objects();
    hide Lists, ListHandle.Valid;
  }
}
