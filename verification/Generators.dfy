/**
 The C++ generators and iterators. List, wipe and purge share one prefetching generator
 that pulls the backend one element ahead; retrieval drains the backend first. Iterators
 refer to their generator, so all iterators of one generator share its position.
 */
module Generators {
  import opened Outcome
  import opened Backend

  function Mapped<E, T>(convert: E -> T, elements: seq<E>): seq<T> {
    seq(|elements|, i requires 0 <= i < |elements| => convert(elements[i]))
  }

  /** One position forward, stopping behind the last of n elements. */
  function Advanced(position: nat, n: nat): nat {
    if position < n then position + 1 else position
  }

  /** `ListGeneratorImpl`, `WipeGeneratorImpl`, `PurgeGeneratorImpl`, by the conversion each applies. */
  class LazyGenerator<E, T> {
    const source: Source<E>
    const convert: E -> T
    var element: Option<T>
    var done: bool

    /** Holds before the first prefetch as well. */
    ghost predicate Consistent()
      reads this, source
    {
      && source.pos <= |source.elements|
      && element == (if source.pos == 0 then None else Some(convert(source.elements[source.pos - 1])))
      && (done ==> source.pos == |source.elements|)
    }

    ghost predicate Valid()
      reads this, source
    {
      Consistent() && (!done ==> source.pos > 0)
    }

    ghost function Position(): nat
      requires Valid()
      reads this, source
    {
      if done then |source.elements| else source.pos - 1
    }

    constructor (source: Source<E>, convert: E -> T)
      requires source.pos == 0
      modifies source
      ensures Valid() && Position() == 0
      ensures this.source == source && this.convert == convert
    {
      this.source := source;
      this.convert := convert;
      element := None;
      done := false;
      new;
      Next();
    }

    method Next()
      requires Consistent()
      modifies this, source
      ensures Valid()
      ensures old(source.pos) == 0 && !old(done) ==> Position() == 0
      ensures old(Valid()) ==> Position() == Advanced(old(Position()), |source.elements|)
    {
      if !done {
        var next := source.Next();
        match next
        case Some(e) => element := Some(convert(e));
        case None => done := true;
      }
    }
  }

  /** `RetrieveResultImpl`: everything is fetched at construction and never changed again. */
  class EagerGenerator<E, T> {
    const convert: E -> T
    const values: seq<E>
    var iter: nat
    var element: Option<T>
    var done: bool

    ghost predicate Valid()
      reads this
    {
      && iter <= |values|
      && done == (iter == |values|)
      && (!done ==> element == Some(convert(values[iter])))
    }

    ghost function Position(): nat
      reads this
    {
      iter
    }

    constructor (source: Source<E>, convert: E -> T)
      requires source.pos <= |source.elements|
      modifies source
      ensures Valid() && Position() == 0
      ensures values == source.elements[old(source.pos)..] && this.convert == convert
    {
      var fetched: seq<E> := [];
      var next := source.Next();
      while next.Some?
        invariant old(source.pos) <= source.pos <= |source.elements|
        invariant next.None? ==> source.pos == |source.elements| && fetched == source.elements[old(source.pos)..]
        invariant next.Some? ==> source.pos > old(source.pos) && next.value == source.elements[source.pos - 1]
        invariant next.Some? ==> fetched == source.elements[old(source.pos)..source.pos - 1]
        decreases |source.elements| - source.pos, next.Some?
      {
        fetched := fetched + [next.value];
        next := source.Next();
      }
      this.convert := convert;
      values := fetched;
      element := None;
      done := false;
      iter := 0;
      new;
      UpdateResult();
    }

    method Next()
      requires Valid()
      modifies this
      ensures Valid()
      ensures Position() == Advanced(old(Position()), |values|)
    {
      if !done {
        iter := iter + 1;
        UpdateResult();
      }
    }

    method UpdateResult()
      requires iter <= |values|
      modifies this`done, this`element
      ensures Valid()
    {
      done := iter == |values|;
      if !done {
        element := Some(convert(values[iter]));
      }
    }
  }

  /** `APIGeneratorImpl`: the two kinds of generator behind one interface. */
  datatype Generator<E, T> = Lazy(lazy: LazyGenerator<E, T>) | Eager(eager: EagerGenerator<E, T>) {

    ghost function Repr(): set<object> {
      match this
      case Lazy(g) => {g, g.source}
      case Eager(g) => {g}
    }

    ghost predicate Valid()
      reads Repr()
    {
      match this
      case Lazy(g) => g.Valid()
      case Eager(g) => g.Valid()
    }

    /** Everything the generator ever yields. */
    ghost function Yields(): seq<T> {
      match this
      case Lazy(g) => Mapped(g.convert, g.source.elements)
      case Eager(g) => Mapped(g.convert, g.values)
    }

    ghost function Position(): nat
      requires Valid()
      reads Repr()
    {
      match this
      case Lazy(g) => g.Position()
      case Eager(g) => g.Position()
    }

    method Next()
      requires Valid()
      modifies Repr()
      ensures Valid()
      ensures Position() == Advanced(old(Position()), |Yields()|)
    {
      match this
      case Lazy(g) => g.Next();
      case Eager(g) => g.Next();
    }

    /** The reference to the reused element; defined only while not done. */
    method Value() returns (value: T)
      requires Valid() && Position() < |Yields()|
      ensures value == Yields()[Position()]
    {
      match this
      case Lazy(g) => value := g.element.value;
      case Eager(g) => value := g.element.value;
    }

    method Done() returns (done: bool)
      requires Valid()
      ensures Position() <= |Yields()| && (done <==> Position() == |Yields()|)
    {
      match this
      case Lazy(g) => done := g.done;
      case Eager(g) => done := g.done;
    }
  }

  /** `APIIterator`: a copyable reference to the generator; comparing with the sentinel asks the generator. */
  datatype APIIterator<E, T> = APIIterator(generator: Generator<E, T>) {

    method Advance()
      requires generator.Valid()
      modifies generator.Repr()
      ensures generator.Valid()
      ensures generator.Position() == Advanced(old(generator.Position()), |generator.Yields()|)
    {
      generator.Next();
    }

    method AtEnd() returns (atEnd: bool)
      requires generator.Valid()
      ensures generator.Position() <= |generator.Yields()|
      ensures atEnd <==> generator.Position() == |generator.Yields()|
    {
      atEnd := generator.Done();
    }
  }

  /** `for (const auto& x : generator)`: what the loop body sees, one after another. */
  method RangeFor<E, T>(generator: Generator<E, T>) returns (seen: seq<T>)
    requires generator.Valid()
    modifies generator.Repr()
    ensures generator.Valid()
    ensures old(generator.Position()) <= |generator.Yields()|
    ensures seen == generator.Yields()[old(generator.Position())..]
    ensures generator.Position() == |generator.Yields()|
  {
    var begin := APIIterator(generator);
    seen := [];
    var end := begin.AtEnd();
    while !end
      invariant generator.Valid()
      invariant old(generator.Position()) <= generator.Position() <= |generator.Yields()|
      invariant seen == generator.Yields()[old(generator.Position())..generator.Position()]
      invariant end <==> generator.Position() == |generator.Yields()|
      decreases |generator.Yields()| - generator.Position()
    {
      var x := begin.generator.Value();
      seen := seen + [x];
      begin.Advance();
      end := begin.AtEnd();
    }
  }

  /** What one of two iterators sees when turn t takes element t, as long as there is one. */
  function Share<T>(elements: seq<T>, schedule: seq<bool>, mine: bool): seq<T> {
    if schedule == [] then []
    else
      var t := |schedule| - 1;
      Share(elements, schedule[..t], mine)
      + if schedule[t] == mine && t < |elements| then [elements[t]] else []
  }

  lemma ShareSnoc<T>(elements: seq<T>, schedule: seq<bool>, mine: bool)
    requires 0 < |schedule| <= |elements|
    ensures var t := |schedule| - 1;
            var before := Share(elements, schedule[..t], mine);
            Share(elements, schedule, mine) == if schedule[t] == mine then before + [elements[t]] else before
  {
  }

  /** Two shares put back together in the order of turns. */
  function Merged<T>(left: seq<T>, right: seq<T>, schedule: seq<bool>): seq<T> {
    if schedule == [] then []
    else
      var t := |schedule| - 1;
      if schedule[t] then
        if left == [] then [] else Merged(left[..|left| - 1], right, schedule[..t]) + [left[|left| - 1]]
      else
        if right == [] then [] else Merged(left, right[..|right| - 1], schedule[..t]) + [right[|right| - 1]]
  }

  /** The two shares together are exactly the elements taken, none lost, none twice, in the order of turns. */
  lemma {:induction false} SharesMerge<T>(elements: seq<T>, schedule: seq<bool>)
    requires |schedule| <= |elements|
    ensures |Share(elements, schedule, true)| + |Share(elements, schedule, false)| == |schedule|
    ensures Merged(Share(elements, schedule, true), Share(elements, schedule, false), schedule)
            == elements[..|schedule|]
  {
    if schedule != [] {
      var t := |schedule| - 1;
      var init := schedule[..t];
      SharesMerge(elements, init);
      ShareSnoc(elements, schedule, true);
      ShareSnoc(elements, schedule, false);
      var left, right := Share(elements, init, true), Share(elements, init, false);
      hide Share;
      assert (left + [elements[t]])[..|left|] == left && (right + [elements[t]])[..|right|] == right;
      assert elements[..t] + [elements[t]] == elements[..t + 1];
    }
  }

  /** Turns after the last element see nothing. */
  lemma {:induction false} ShareExhausted<T>(elements: seq<T>, schedule: seq<bool>, mine: bool)
    requires |schedule| >= |elements|
    ensures Share(elements, schedule, mine) == Share(elements, schedule[..|elements|], mine)
    decreases |schedule|
  {
    if |schedule| == |elements| {
      assert schedule[..|elements|] == schedule;
    } else {
      var init := schedule[..|schedule| - 1];
      ShareExhausted(elements, init, mine);
      assert init[..|elements|] == schedule[..|elements|];
    }
  }

  /** One turn of an iterator: dereference unless at the end, then increment. */
  method Turn<E, T>(it: APIIterator<E, T>) returns (seen: seq<T>)
    requires it.generator.Valid()
    modifies it.generator.Repr()
    ensures it.generator.Valid()
    ensures it.generator.Position() == Advanced(old(it.generator.Position()), |it.generator.Yields()|)
    ensures old(it.generator.Position()) < |it.generator.Yields()| ==>
              seen == [it.generator.Yields()[old(it.generator.Position())]]
    ensures old(it.generator.Position()) >= |it.generator.Yields()| ==> seen == []
  {
    seen := [];
    var end := it.AtEnd();
    if !end {
      var x := it.generator.Value();
      seen := [x];
    }
    it.Advance();
  }

  /** Two iterators of one generator, taking turns in any order. */
  method TwoIterators<E, T>(generator: Generator<E, T>, schedule: seq<bool>) returns (left: seq<T>, right: seq<T>)
    requires generator.Valid() && generator.Position() == 0
    modifies generator.Repr()
    ensures generator.Valid()
    ensures left == Share(generator.Yields(), schedule, true)
    ensures right == Share(generator.Yields(), schedule, false)
  {
    var first, second := APIIterator(generator), APIIterator(generator);
    left, right := [], [];
    for k := 0 to |schedule|
      invariant generator.Valid()
      invariant generator.Position() == if k <= |generator.Yields()| then k else |generator.Yields()|
      invariant left == Share(generator.Yields(), schedule[..k], true)
      invariant right == Share(generator.Yields(), schedule[..k], false)
    {
      assert schedule[..k + 1][..k] == schedule[..k];
      if schedule[k] {
        var seen := Turn(first);
        left := left + seen;
      } else {
        var seen := Turn(second);
        right := right + seen;
      }
    }
    assert schedule[..|schedule|] == schedule;
  }
}
