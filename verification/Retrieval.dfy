/** `dasi_retrieve_t` and pydasi's `Retrieve`, proved against the retrieval state machine. */
module Retrieval {
  import opened Outcome
  import opened Backend
  import opened Generators
  import opened Cursors
  import opened Keys
  import opened OrderedMap
  import P = Protocol

  class RetrieveHandle {
    const result: EagerGenerator<FdbElement, Element>
    const cursor: Cursor<FdbElement, Element>
    var dh: Option<DataHandle>

    ghost function Repr(): set<object> {
      {this, result, cursor}
    }

    ghost predicate Valid()
      reads Repr()
    {
      && cursor.iter.generator == Eager(result)
      && result.convert == ElementOf
      && cursor.Valid()
      && (dh.Some? ==> dh.value.contents == Stream(result.values) && dh.value.pos <= |dh.value.contents|)
    }

    ghost function Objects(): seq<FdbElement> {
      result.values
    }

    ghost function State(): (s: P.State)
      requires Valid()
      reads Repr()
      ensures P.Reachable(Objects(), s)
    {
      P.State(cursor.State(), dh.Some?, if dh.None? then 0 else dh.value.pos)
    }

    constructor (source: Source<FdbElement>)
      requires source.pos == 0
      modifies source
      ensures Valid() && fresh(Repr())
      ensures Objects() == source.elements && State() == P.START
    {
      var generator := new EagerGenerator(source, ElementOf);
      result := generator;
      cursor := new Cursor(Eager(generator));
      dh := None;
      new;
      assert source.elements[0..] == source.elements;
    }

    /** `dasi_retrieve_next`. */
    method Next() returns (status: Status)
      requires Valid()
      modifies Repr()
      ensures Valid()
      ensures (State(), P.Moved(status)) == P.Step(Objects(), old(State()), P.Next)
    {
      status := cursor.Next();
    }

    /** `dasi_retrieve_attrs`; the key is a copy owned by the caller. */
    method Attrs() returns (reply: P.Reply, key: Key?)
      requires Valid()
      ensures (State(), reply) == P.Step(Objects(), State(), P.Attrs)
      ensures reply.Attributes? <==> State().cursor.position < |Objects()|
      ensures reply.Attributes? ==> Describes(reply.element, Objects()[State().cursor.position])
      ensures reply.Attributes? ==> key != null && fresh(key) && key.values == reply.element.key
    {
      var current := cursor.Current();
      if current.Err? {
        return P.Failed(current.error), null;
      }
      ElementDescribes(Objects()[State().cursor.position]);
      key := new Key.Copy(current.value.key);
      reply := P.Attributes(current.value);
    }

    /** `dasi_retrieve_count`. */
    method Count() returns (count: nat)
      requires Valid()
      ensures (State(), P.Counted(count)) == P.Step(Objects(), State(), P.Count)
      ensures count == |Objects()|
    {
      count := |result.values|;
    }

    /** `RetrieveResultImpl::dataHandle`: the objects' handles gathered in result order. */
    method Gather() returns (handle: DataHandle)
      ensures handle == DataHandle(Stream(Objects()), 0)
    {
      var contents: seq<byte> := [];
      for i := 0 to |result.values|
        invariant contents == Stream(result.values[..i])
      {
        assert result.values[..i + 1][..i] == result.values[..i];
        contents := contents + result.values[i].bytes;
      }
      assert result.values[..|result.values|] == result.values;
      handle := DataHandle(contents, 0);
    }

    /** `dasi_retrieve_read`: opens the stream on the first accepted read. */
    method Read(data: array<byte>, length: int) returns (status: Status, got: nat)
      requires Valid() && length <= data.Length
      modifies Repr(), data
      ensures Valid()
      ensures got <= data.Length && data[got..] == old(data[got..])
      ensures status == ErrorAssert <==> length <= 0
      ensures var (s, reply) := P.Step(Objects(), old(State()), P.Read(length));
              && State() == s
              && (reply.Failed? ==> reply == P.Failed(status) && got == 0)
              && (!reply.Failed? ==> reply == P.Bytes(status, data[..got]))
    {
      if length <= 0 {
        return ErrorAssert, 0;
      }
      if dh.None? {
        var handle := Gather();
        dh := Some(handle);
      }
      var after;
      got, after := dh.value.Read(data, length);
      dh := Some(after);
      status := if got == 0 then IterationComplete else Success;
    }
  }

  /** One accepted read, as the bytes it delivers. */
  method ReadChunk(handle: RetrieveHandle, data: array<byte>, length: nat) returns (status: Status, chunk: seq<byte>)
    requires handle.Valid() && 0 < length <= data.Length
    modifies handle.Repr(), data
    ensures handle.Valid() && |chunk| <= length
    ensures old(handle.State()).position <= handle.State().position <= |Stream(handle.Objects())|
    ensures chunk == Stream(handle.Objects())[old(handle.State()).position..handle.State().position]
    ensures status == if chunk == [] then IterationComplete else Success
    ensures chunk == [] ==> handle.State().position == |Stream(handle.Objects())|
  {
    P.ReadReply(handle.Objects(), handle.State(), length);
    var got;
    status, got := handle.Read(data, length);
    chunk := data[..got];
  }

  /**
   The C client's loop `while (read(handle, buffer, &length) == SUCCESS)`, each call asking for as many
   bytes as the one before delivered: it ends, with length 0, having received the rest of the stream.
   */
  method ReadToEnd(handle: RetrieveHandle, length: nat) returns (received: seq<byte>, last: nat)
    requires handle.Valid() && length > 0
    modifies handle.Repr()
    ensures handle.Valid() && last == 0
    ensures old(handle.State()).position <= |Stream(handle.Objects())|
    ensures received == Stream(handle.Objects())[old(handle.State()).position..]
  {
    var data := new byte[length];
    ghost var all, start := Stream(handle.Objects()), handle.State().position;
    received := [];
    var status, chunk := ReadChunk(handle, data, length);
    ghost var pos := handle.State().position;
    hide *;
    while status == Success
      invariant handle.Valid() && |chunk| <= data.Length
      invariant pos == handle.State().position
      invariant start <= pos <= |all| && received + chunk == all[start..pos]
      invariant status == if chunk == [] then IterationComplete else Success
      invariant chunk == [] ==> pos == |all|
      decreases |all| - pos, |chunk|
    {
      received := received + chunk;
      status, chunk := ReadChunk(handle, data, |chunk|);
      P.Continued(all, start, pos, handle.State().position);
      pos := handle.State().position;
    }
    last := |chunk|;
    assert received + [] == received && all[start..] == all[start..|all|];
  }

  // ---- pydasi ----------------------------------------------------------------------------

  /** pydasi's `RetrieveItem`: key object and buffer belong to the item alone. */
  datatype RetrieveItem = RetrieveItem(key: Key, data: array<byte>, timestamp: int, offset: int, length: int)

  datatype Iteration = Item(item: RetrieveItem) | StopIteration | Raised(status: Status)

  ghost predicate Shows(item: RetrieveItem, e: Element, bytes: seq<byte>)
    reads item.key, item.data
  {
    && item.key.values == e.key && item.data[..] == bytes
    && item.timestamp == e.timestamp && item.offset == e.location.offset
  }

  ghost predicate Produces(r: Iteration, produced: P.Produced)
    reads if r.Item? then {r.item.key, r.item.data} else {}
  {
    match produced
    case Item(e, bytes, length) => r.Item? && Shows(r.item, e, bytes) && r.item.length == length
    case Stop => r == StopIteration
    case Raised(status) => r == Raised(status)
  }

  /** `Retrieve.__read`. */
  method RetrieveRead(handle: RetrieveHandle) returns (r: Iteration)
    requires handle.Valid() && handle.State().cursor.position < |handle.Objects()|
    modifies handle.Repr()
    ensures handle.Valid()
    ensures handle.State() == P.ClientRead(handle.Objects(), old(handle.State())).0
    ensures Produces(r, P.ClientRead(handle.Objects(), old(handle.State())).1)
    ensures r.Item? ==> fresh(r.item.key) && fresh(r.item.data)
  {
    hide HoldsLastValues, Describes, Stream, RetrieveHandle.Valid;
    var reply, key := handle.Attrs();
    var e := reply.element;
    var data := new byte[e.location.length](_ => 0);
    assert data[..] == P.Zeros(data.Length);
    var status, got := handle.Read(data, data.Length);
    if status == ErrorAssert {
      return Raised(status);
    }
    assert data[got..] == P.Zeros(data.Length - got);
    assert data[..] == data[..got] + data[got..];
    r := Item(RetrieveItem(key, data, e.timestamp, e.location.offset, got));
  }

  /** `Retrieve.__next__`. */
  method RetrieveNext(handle: RetrieveHandle) returns (r: Iteration)
    requires handle.Valid()
    modifies handle.Repr()
    ensures handle.Valid()
    ensures handle.State() == P.ClientNext(handle.Objects(), old(handle.State())).0
    ensures Produces(r, P.ClientNext(handle.Objects(), old(handle.State())).1)
    ensures r.Item? ==> fresh(r.item.key) && fresh(r.item.data)
  {
    var moved := handle.Next();
    if moved == IterationComplete {
      return StopIteration;
    }
    r := RetrieveRead(handle);
  }

  /** Field by field, the item is that object, which is not empty. */
  ghost predicate ItemShows(item: RetrieveItem, archived: FdbElement)
    reads item.key, item.data
  {
    && archived.bytes != [] && item.data[..] == archived.bytes && item.length == |archived.bytes|
    && HoldsLastValues(item.key.values, archived.pairs)
    && item.timestamp == archived.timestamp && item.offset == archived.offset
  }

  lemma ExpectedItem(r: Iteration, objects: seq<FdbElement>, i: nat)
    requires r.Item? && Produces(r, P.Expected(objects, i))
    ensures i < |objects| && ItemShows(r.item, objects[i])
  {
    P.ExpectedDelivers(objects, i);
  }

  lemma ExpectedEnd(r: Iteration, objects: seq<FdbElement>, i: nat)
    requires !r.Item? && i <= |objects| && Produces(r, P.Expected(objects, i))
    ensures r.Raised? <==> i < |objects|
    ensures r.Raised? ==> objects[i].bytes == []
  {
  }

  /** Every item from call k on, up to the first that is not an item. */
  method CollectFrom(handle: RetrieveHandle, ghost k: nat) returns (items: seq<RetrieveItem>, failed: bool)
    requires handle.Valid() && k <= |handle.Objects()| && P.InStep(handle.Objects(), handle.State(), k)
    modifies handle.Repr()
    ensures k + |items| <= |handle.Objects()|
    ensures forall i :: 0 <= i < |items| ==> fresh(items[i].key) && fresh(items[i].data)
    ensures forall i :: 0 <= i < |items| ==> ItemShows(items[i], handle.Objects()[k + i])
    ensures forall i, j :: 0 <= i < j < |items| ==> items[i].key != items[j].key && items[i].data != items[j].data
    ensures failed <==> k + |items| < |handle.Objects()|
    ensures failed ==> handle.Objects()[k + |items|].bytes == []
    decreases |handle.Objects()| - k
  {
    hide P.ClientNext, P.InStep, P.Expected, Shows, ItemShows, Produces, Stream;
    ghost var objects := handle.Objects();
    P.StepInStep(objects, handle.State(), k);
    var r := RetrieveNext(handle);
    if !r.Item? {
      ExpectedEnd(r, objects, k);
      return [], r.Raised?;
    }
    ExpectedItem(r, objects, k);
    var rest;
    rest, failed := CollectFrom(handle, k + 1);
    items := [r.item] + rest;
  }

  /**
   `list(dasi.retrieve(query))`: the items are the leading objects up to the first empty one, each
   still showing its own key and bytes in storage of its own; it fails exactly if there is an empty one.
   */
  method CollectRetrieve(handle: RetrieveHandle) returns (items: seq<RetrieveItem>, failed: bool)
    requires handle.Valid() && handle.State() == P.START
    modifies handle.Repr()
    ensures |items| <= |handle.Objects()|
    ensures forall i :: 0 <= i < |items| ==> fresh(items[i].key) && fresh(items[i].data)
    ensures forall i :: 0 <= i < |items| ==> ItemShows(items[i], handle.Objects()[i])
    ensures forall i, j :: 0 <= i < j < |items| ==> items[i].key != items[j].key && items[i].data != items[j].data
    ensures failed <==> |items| < |handle.Objects()|
    ensures failed ==> handle.Objects()[|items|].bytes == []
  {
    items, failed := CollectFrom(handle, 0);
  }
}
