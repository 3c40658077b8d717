/**
 What the storage library hands over, as far as this repository can observe it: finite
 iterators over elements, and byte handles that read across object boundaries.
 */
module Backend {
  import opened Outcome
  import opened OrderedMap

  newtype byte = x: int | 0 <= x < 256

  /** One archived object: its key pairs as stored, where it lies, and the bytes its location yields. */
  datatype FdbElement =
    FdbElement(pairs: seq<(string, string)>, timestamp: int, uri: string, offset: int, bytes: seq<byte>)

  datatype Location = Location(uri: string, offset: int, length: int)

  /** `dasi::ListElement`, also used for retrieval. */
  datatype Element = Element(key: map<string, string>, timestamp: int, location: Location)

  /** The translation the list and retrieve generators share: `key.set` per pair, then the location fields. */
  function ElementOf(e: FdbElement): Element {
    Element(AssignAll(map[], e.pairs), e.timestamp, Location(e.uri, e.offset, |e.bytes|))
  }

  /** What an element tells about its object, field by field. */
  ghost predicate Describes(e: Element, o: FdbElement) {
    && HoldsLastValues(e.key, o.pairs)
    && e.timestamp == o.timestamp
    && e.location.uri == o.uri && e.location.offset == o.offset && e.location.length == |o.bytes|
  }

  /** No field is mixed up with another, and of a repeated keyword the last pair counts. */
  lemma ElementDescribes(o: FdbElement)
    ensures Describes(ElementOf(o), o)
  {
    AssigningHoldsLastValues(o.pairs);
  }

  /** All objects' bytes, one object after another. */
  function Stream(objects: seq<FdbElement>): seq<byte> {
    if objects == [] then []
    else Stream(objects[..|objects| - 1]) + objects[|objects| - 1].bytes
  }

  /** Where object k starts in the stream; for k == |objects|, the length of the stream. */
  function Start(objects: seq<FdbElement>, k: nat): nat
    requires k <= |objects|
  {
    |Stream(objects[..k])|
  }

  /** Object k occupies exactly its own stretch of the stream. */
  lemma {:induction false} ObjectInStream(objects: seq<FdbElement>, k: nat)
    requires k < |objects|
    ensures Start(objects, k + 1) == Start(objects, k) + |objects[k].bytes|
    ensures Start(objects, k + 1) <= |Stream(objects)|
    ensures Stream(objects)[Start(objects, k)..Start(objects, k + 1)] == objects[k].bytes
  {
    assert objects[..k + 1][..k] == objects[..k];
    var init := objects[..|objects| - 1];
    if k < |init| {
      ObjectInStream(init, k);
      assert init[..k] == objects[..k] && init[..k + 1] == objects[..k + 1];
    } else {
      assert objects[..k] == init && objects[..k + 1] == objects;
    }
  }

  /** A backend iterator: `next` delivers the elements once, in order. */
  class Source<E> {
    const elements: seq<E>
    var pos: nat

    constructor (elements: seq<E>)
      ensures this.elements == elements && pos == 0
    {
      this.elements := elements;
      pos := 0;
    }

    method Next() returns (r: Option<E>)
      requires pos <= |elements|
      modifies this
      ensures pos <= |elements|
      ensures old(pos) < |elements| ==> r == Some(elements[old(pos)]) && pos == old(pos) + 1
      ensures old(pos) == |elements| ==> r == None && pos == old(pos)
    {
      if pos == |elements| {
        return None;
      }
      r := Some(elements[pos]);
      pos := pos + 1;
    }
  }

  /** An open `eckit::DataHandle` over concatenated objects: a read returns what is left, up to what was asked. */
  datatype DataHandle = DataHandle(contents: seq<byte>, pos: nat) {

    method Read(data: array<byte>, length: nat) returns (n: nat, after: DataHandle)
      requires pos <= |contents| && length <= data.Length
      modifies data
      ensures n == if length <= |contents| - pos then length else |contents| - pos
      ensures after == DataHandle(contents, pos + n)
      ensures data[..n] == contents[pos..pos + n] && data[n..] == old(data[n..])
    {
      n := if length <= |contents| - pos then length else |contents| - pos;
      forall i | 0 <= i < n {
        data[i] := contents[pos + i];
      }
      after := DataHandle(contents, pos + n);
    }
  }
}
