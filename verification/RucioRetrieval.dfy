/** `RucioRetrieve`: iterate over the matching DIDs, passing over those that cannot be downloaded. */
module RucioRetrieval {
  import opened Outcome

  /** What trying to download one entry comes to. */
  datatype Download = Data(bytes: seq<int>) | NotDownloadable | Aborts(text: string)

  /** An entry of the DID listing, with what happens when it is visited; metadata None is a failing lookup. */
  datatype DidEntry =
    DidEntry(name: Option<string>, did: Option<string>, download: Download, metadata: Option<map<string, string>>)

  datatype RetrieveItem = RetrieveItem(name: string, data: seq<int>, metadata: map<string, string>)

  datatype Iteration = Item(item: RetrieveItem) | Raised(text: string) | StopIteration

  function NameOf(e: DidEntry): string {
    match e.name
    case Some(name) => name
    case None => if e.did.Some? then e.did.value else ""
  }

  function Visit(e: DidEntry): Iteration
    requires !e.download.NotDownloadable?
  {
    match e.download
    case Data(bytes) => Item(RetrieveItem(NameOf(e), bytes, if e.metadata.Some? then e.metadata.value else map[]))
    case Aborts(text) => Raised(text)
  }

  /**
   What the caller sees of an entry: its bytes under its name, else its DID, else no name, with empty
   metadata after a failing lookup; or the error that aborted the download.
   */
  predicate Presents(r: Iteration, e: DidEntry) {
    match e.download
    case Data(bytes) =>
      && r.Item? && r.item.data == bytes
      && (e.name.Some? ==> r.item.name == e.name.value)
      && (e.name.None? && e.did.Some? ==> r.item.name == e.did.value)
      && (e.name.None? && e.did.None? ==> r.item.name == "")
      && (e.metadata.Some? ==> r.item.metadata == e.metadata.value)
      && (e.metadata.None? ==> r.item.metadata == map[])
    case Aborts(text) => r == Raised(text)
    case NotDownloadable => false
  }

  /** What the entries from `index` on have to show, in order: items and aborting errors, nothing for skipped ones. */
  function Outcomes(dids: seq<DidEntry>, index: nat): seq<Iteration>
    requires index <= |dids|
    decreases |dids| - index
  {
    if index == |dids| then []
    else if dids[index].download.NotDownloadable? then Outcomes(dids, index + 1)
    else [Visit(dids[index])] + Outcomes(dids, index + 1)
  }

  function Skipped(dids: seq<DidEntry>, index: nat): nat
    requires index <= |dids|
    decreases |dids| - index
  {
    if index == |dids| then 0
    else Skipped(dids, index + 1) + if dids[index].download.NotDownloadable? then 1 else 0
  }

  /** Yielded, aborted and skipped entries together are all entries. */
  lemma {:induction false} NothingUnaccounted(dids: seq<DidEntry>, index: nat)
    requires index <= |dids|
    ensures |Outcomes(dids, index)| + Skipped(dids, index) == |dids| - index
    decreases |dids| - index
  {
    if index < |dids| {
      NothingUnaccounted(dids, index + 1);
    }
  }

  /** The outcomes are a subsequence of the listing: `places[j]` tells which entry outcome j comes from. */
  lemma {:induction false} OutcomesInOrder(dids: seq<DidEntry>, index: nat) returns (places: seq<nat>)
    requires index <= |dids|
    ensures |places| == |Outcomes(dids, index)|
    ensures forall j :: 0 <= j < |places| ==>
              && index <= places[j] < |dids| && !dids[places[j]].download.NotDownloadable?
              && Outcomes(dids, index)[j] == Visit(dids[places[j]])
              && Presents(Outcomes(dids, index)[j], dids[places[j]])
    ensures forall i, j :: 0 <= i < j < |places| ==> places[i] < places[j]
    ensures forall i :: index <= i < |dids| && !dids[i].download.NotDownloadable? ==> i in places
    decreases |dids| - index
  {
    places := [];
    if index < |dids| {
      var rest := OutcomesInOrder(dids, index + 1);
      places := if dids[index].download.NotDownloadable? then rest else [index] + rest;
    }
  }

  class RucioRetrieve {
    var didList: seq<DidEntry>
    var index: nat
    var current: Option<RetrieveItem>

    ghost predicate Valid()
      reads this
    {
      index <= |didList|
    }

    constructor ()
      ensures Valid() && didList == [] && current == None
    {
      didList := [];
      index := 0;
      current := None;
    }

    /** `__iter__`: takes the listing and starts over. */
    method Iter(listing: seq<DidEntry>)
      modifies this
      ensures Valid() && didList == listing && index == 0 && current == old(current)
    {
      didList := listing;
      index := 0;
    }

    /** `__next__`: an aborting error consumes its entry, so the following call goes on behind it. */
    method Next() returns (r: Iteration)
      requires Valid()
      modifies this
      ensures Valid() && didList == old(didList)
      ensures var before, after := Outcomes(didList, old(index)), Outcomes(didList, index);
              && (r == StopIteration <==> before == [])
              && if before == [] then after == [] && index == |didList|
              else r == before[0] && after == before[1..] && index > old(index)
      ensures forall i :: old(index) <= i < index - 1 ==> didList[i].download.NotDownloadable?
      ensures r != StopIteration ==> index > 0 && Presents(r, didList[index - 1])
      ensures current == if r.Item? then Some(r.item) else old(current)
    {
      while index < |didList|
        invariant old(index) <= index <= |didList| && didList == old(didList) && current == old(current)
        invariant forall i :: old(index) <= i < index ==> didList[i].download.NotDownloadable?
        invariant Outcomes(didList, index) == Outcomes(didList, old(index))
        decreases |didList| - index
      {
        var entry := didList[index];
        index := index + 1;
        var name := NameOf(entry);
        if entry.download.NotDownloadable? {
          continue;
        }
        if entry.download.Aborts? {
          return Raised(entry.download.text);
        }
        var metadata := map[];
        if entry.metadata.Some? {
          metadata := entry.metadata.value;
        }
        var item := RetrieveItem(name, entry.download.bytes, metadata);
        current := Some(item);
        return Item(item);
      }
      return StopIteration;
    }

    /** `__len__`: the listing's size, whatever has been visited. */
    method Len() returns (n: nat)
      ensures n == |didList|
    {
      n := |didList|;
    }
  }

  /** Calling `__next__` until it stops, going on after aborting errors: everything, once, in listing order. */
  method Exhaust(retrieve: RucioRetrieve) returns (seen: seq<Iteration>)
    requires retrieve.Valid()
    modifies retrieve
    ensures retrieve.Valid() && retrieve.didList == old(retrieve.didList)
    ensures seen == Outcomes(retrieve.didList, old(retrieve.index))
    ensures |seen| + Skipped(retrieve.didList, old(retrieve.index)) == |retrieve.didList| - old(retrieve.index)
  {
    NothingUnaccounted(retrieve.didList, retrieve.index);
    ghost var all := Outcomes(retrieve.didList, retrieve.index);
    seen := [];
    var r := retrieve.Next();
    while r != StopIteration
      invariant retrieve.Valid() && retrieve.didList == old(retrieve.didList)
      invariant r == StopIteration ==> seen == all
      invariant r != StopIteration ==> seen + [r] + Outcomes(retrieve.didList, retrieve.index) == all
      decreases |all| - |seen|, r != StopIteration
    {
      seen := seen + [r];
      assert seen + Outcomes(retrieve.didList, retrieve.index) == all;
      r := retrieve.Next();
    }
  }
}
