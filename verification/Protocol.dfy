/**
 The retrieval handle as a state machine: a cursor over the results and, beside it, a byte
 stream over all of them with a position of its own. Calls may come in any order.
 */
module Protocol {
  import opened Outcome
  import opened Backend
  import opened Cursors

  datatype State = State(cursor: CursorState, streaming: bool, position: nat)

  const START := State(FRESH, false, 0)

  datatype Op = Next | Attrs | Count | Read(length: int)

  datatype Reply =
    | Moved(status: Status)
    | Attributes(element: Element)
    | Counted(count: nat)
    | Bytes(status: Status, bytes: seq<byte>)
    | Failed(status: Status)

  ghost predicate Reachable(objects: seq<FdbElement>, s: State) {
    && s.position <= |Stream(objects)|
    && s.cursor.position <= |objects|
    && (!s.streaming ==> s.position == 0)
    && (s.cursor.first ==> s.cursor.position == 0)
  }

  function Step(objects: seq<FdbElement>, s: State, op: Op): (r: (State, Reply))
    requires Reachable(objects, s)
    ensures Reachable(objects, r.0)
  {
    match op
    case Next =>
      var cursor := CursorNext(s.cursor, |objects|);
      (s.(cursor := cursor), Moved(CursorStatus(cursor, |objects|)))
    case Attrs =>
      if s.cursor.position < |objects| then (s, Attributes(ElementOf(objects[s.cursor.position])))
      else (s, Failed(ErrorAssert))
    case Count =>
      (s, Counted(|objects|))
    case Read(length) =>
      if length <= 0 then (s, Failed(ErrorAssert))
      else
        var left := |Stream(objects)| - s.position;
        var n := if length <= left then length else left;
        var bytes := Stream(objects)[s.position..s.position + n];
        (State(s.cursor, true, s.position + n), Bytes(if n == 0 then IterationComplete else Success, bytes))
  }

  /** A whole session: the calls in order, with every reply. */
  function Run(objects: seq<FdbElement>, s: State, ops: seq<Op>): (r: (State, seq<Reply>))
    requires Reachable(objects, s)
    ensures Reachable(objects, r.0) && |r.1| == |ops|
  {
    if ops == [] then (s, [])
    else
      var (s1, replies) := Run(objects, s, ops[..|ops| - 1]);
      var (s2, reply) := Step(objects, s1, ops[|ops| - 1]);
      (s2, replies + [reply])
  }

  // ---- the stream ------------------------------------------------------------------------

  /** All bytes a session returned, in the order they came. */
  function Received(replies: seq<Reply>): seq<byte> {
    if replies == [] then []
    else
      var last := replies[|replies| - 1];
      Received(replies[..|replies| - 1]) + if last.Bytes? then last.bytes else []
  }

  /**
   In any session, however reads of any sizes are mixed with other calls, the bytes received
   are the next stretch of all objects concatenated in result order.
   */
  lemma {:induction false} ReceivedIsNextStretch(objects: seq<FdbElement>, s: State, ops: seq<Op>)
    requires Reachable(objects, s)
    ensures var (t, replies) := Run(objects, s, ops);
            s.position <= t.position && Received(replies) == Stream(objects)[s.position..t.position]
  {
    hide Step, Stream;
    if ops != [] {
      var init, last := ops[..|ops| - 1], ops[|ops| - 1];
      var (s1, replies) := Run(objects, s, init);
      var (s2, reply) := Step(objects, s1, last);
      assert Run(objects, s, ops) == (s2, replies + [reply]);
      hide *;
      ReceivedIsNextStretch(objects, s, init);
      StepBytes(objects, s1, last);
      ReceivedSnoc(replies, reply);
      Continued(Stream(objects), s.position, s1.position, s2.position);
    }
  }

  lemma ReceivedSnoc(replies: seq<Reply>, reply: Reply)
    ensures Received(replies + [reply]) == Received(replies) + if reply.Bytes? then reply.bytes else []
  {
    assert (replies + [reply])[..|replies|] == replies;
  }

  /** Adjacent stretches of a stream. */
  lemma Continued(all: seq<byte>, start: nat, p: nat, q: nat)
    requires start <= p <= q <= |all|
    ensures all[start..p] + all[p..q] == all[start..q]
  {
  }

  lemma StepBytes(objects: seq<FdbElement>, s: State, op: Op)
    requires Reachable(objects, s)
    ensures var (t, reply) := Step(objects, s, op);
            && s.position <= t.position
            && (if reply.Bytes? then reply.bytes else []) == Stream(objects)[s.position..t.position]
  {
  }

  lemma ReadReply(objects: seq<FdbElement>, s: State, length: int)
    requires Reachable(objects, s) && length > 0
    ensures var (t, next) := Step(objects, s, Read(length));
            && next.Bytes? && |next.bytes| <= length
            && t.position == s.position + |next.bytes|
            && next.bytes == Stream(objects)[s.position..t.position]
            && (next.status == IterationComplete <==> next.bytes == [])
            && (next.bytes == [] <==> s.position == |Stream(objects)|)
            && (|next.bytes| < length ==> t.position == |Stream(objects)|)
  {
  }

  /**
   From a new handle: what a session received is a prefix of everything, and one more read of
   any positive size reports completion, with no bytes, exactly when the prefix is everything.
   */
  lemma StreamRefinement(objects: seq<FdbElement>, ops: seq<Op>, length: int)
    requires length > 0
    ensures var (s, replies) := Run(objects, START, ops);
            var next := Step(objects, s, Read(length)).1;
            && next.Bytes? && |next.bytes| <= length
            && Received(replies) + next.bytes <= Stream(objects)
            && (next.status == IterationComplete <==> next.bytes == [])
            && (next.bytes == [] <==> Received(replies) == Stream(objects))
            && (|next.bytes| < length ==> Received(replies) + next.bytes == Stream(objects))
  {
    hide Step, Stream, Run;
    var (s, replies) := Run(objects, START, ops);
    var (t, next) := Step(objects, s, Read(length));
    ReceivedIsNextStretch(objects, START, ops);
    ReadReply(objects, s, length);
    var all := Stream(objects);
    assert Received(replies) == all[..s.position];
    assert all[..s.position] + all[s.position..t.position] == all[..t.position];
    assert all[..|all|] == all;
  }

  // ---- the replies of a session -----------------------------------------------------------

  function Moves(ops: seq<Op>): nat {
    if ops == [] then 0
    else Moves(ops[..|ops| - 1]) + if ops[|ops| - 1] == Next then 1 else 0
  }

  /** Only the number of `next` calls matters for the cursor. */
  lemma {:induction false} CursorOfSession(objects: seq<FdbElement>, ops: seq<Op>)
    ensures Run(objects, START, ops).0.cursor == CursorAfter(|objects|, Moves(ops))
  {
    if ops != [] {
      CursorOfSession(objects, ops[..|ops| - 1]);
    }
  }

  lemma {:induction false} ReplyOfCall(objects: seq<FdbElement>, s: State, ops: seq<Op>, i: nat)
    requires Reachable(objects, s) && i < |ops|
    ensures Run(objects, s, ops).1[i] == Step(objects, Run(objects, s, ops[..i]).0, ops[i]).1
    decreases |ops|
  {
    hide Step;
    var init := ops[..|ops| - 1];
    if i < |init| {
      ReplyOfCall(objects, s, init, i);
      assert init[..i] == ops[..i];
    }
  }

  /**
   Every reply of every session: moves succeed as often as there are objects, attributes are those of the
   object last moved to (of the first, before any move), the count is the number of all objects throughout.
   */
  lemma {:induction false} RepliesInSession(objects: seq<FdbElement>, ops: seq<Op>, i: nat)
    requires i < |ops|
    ensures var reply, moves := Run(objects, START, ops).1[i], Moves(ops[..i]);
            var k := if moves == 0 then 0 else moves - 1;
            match ops[i]
            case Next => reply == Moved(if moves < |objects| then Success else IterationComplete)
            case Count => reply == Counted(|objects|)
            case Attrs =>
              if k < |objects| then reply.Attributes? && Describes(reply.element, objects[k])
              else reply == Failed(ErrorAssert)
            case Read(length) => reply == Failed(ErrorAssert) <==> length <= 0
  {
    ReplyOfCall(objects, START, ops, i);
    CursorOfSession(objects, ops[..i]);
    var moves := Moves(ops[..i]);
    CursorVisitsEach(|objects|, moves + 1);
    if moves > 0 {
      CursorVisitsEach(|objects|, moves);
    }
    var k := if moves == 0 then 0 else moves - 1;
    if k < |objects| {
      ElementDescribes(objects[k]);
    }
    hide Run, Moves, Describes, ElementOf, Stream;
  }

  // ---- independence ----------------------------------------------------------------------

  /** The calls of one side: reads (true) or everything else (false). */
  function Side(ops: seq<Op>, ofReads: bool): seq<Op> {
    if ops == [] then []
    else
      var last := ops[|ops| - 1];
      Side(ops[..|ops| - 1], ofReads) + if last.Read? == ofReads then [last] else []
  }

  /** The replies to the calls of one side. */
  function SideReplies(ops: seq<Op>, replies: seq<Reply>, ofReads: bool): seq<Reply>
    requires |ops| == |replies|
  {
    if ops == [] then []
    else
      var n := |ops| - 1;
      SideReplies(ops[..n], replies[..n], ofReads) + if ops[n].Read? == ofReads then [replies[n]] else []
  }

  lemma RunSnoc(objects: seq<FdbElement>, s: State, ops: seq<Op>, op: Op)
    requires Reachable(objects, s)
    ensures var (s1, replies) := Run(objects, s, ops);
            var (s2, reply) := Step(objects, s1, op);
            Run(objects, s, ops + [op]) == (s2, replies + [reply])
  {
    assert (ops + [op])[..|ops|] == ops;
  }

  /** Two states that one side cannot tell apart. */
  predicate Agree(s: State, t: State, ofReads: bool) {
    if ofReads then s.streaming == t.streaming && s.position == t.position else s.cursor == t.cursor
  }

  lemma StepAgrees(objects: seq<FdbElement>, s: State, t: State, op: Op, ofReads: bool)
    requires Reachable(objects, s) && Reachable(objects, t) && Agree(s, t, ofReads)
    ensures op.Read? == ofReads ==>
              && Step(objects, s, op).1 == Step(objects, t, op).1
              && Agree(Step(objects, s, op).0, Step(objects, t, op).0, ofReads)
    ensures op.Read? != ofReads ==> Agree(Step(objects, s, op).0, t, ofReads)
  {
  }

  /**
   Neither side can notice the other: its replies, and the part of the state it sees, are those
   of a session without the other side's calls. In particular opening the stream late loses nothing.
   */
  lemma {:induction false} SidesAreIndependent(objects: seq<FdbElement>, s: State, ops: seq<Op>, ofReads: bool)
    requires Reachable(objects, s)
    ensures var (t, replies) := Run(objects, s, ops);
            var (u, alone) := Run(objects, s, Side(ops, ofReads));
            SideReplies(ops, replies, ofReads) == alone && Agree(t, u, ofReads)
  {
    if ops != [] {
      var n := |ops| - 1;
      var init, last := ops[..n], ops[n];
      SidesAreIndependent(objects, s, init, ofReads);
      var (t, replies) := Run(objects, s, init);
      var (u, alone) := Run(objects, s, Side(init, ofReads));
      var (t', reply) := Step(objects, t, last);
      assert Run(objects, s, ops) == (t', replies + [reply]);
      assert (replies + [reply])[..n] == replies;
      StepAgrees(objects, t, u, last, ofReads);
      if last.Read? == ofReads {
        RunSnoc(objects, s, Side(init, ofReads), last);
      } else {
        assert Side(ops, ofReads) == Side(init, ofReads);
      }
    }
  }

  // ---- the lockstep client ---------------------------------------------------------------

  /** What pydasi's iteration produces: an item with the number of bytes read, `StopIteration`, or a raised error. */
  datatype Produced =
    | Item(element: Element, data: seq<byte>, length: nat)
    | Stop
    | Raised(status: Status)

  /** pydasi's `Retrieve.__read`: attributes, then one read of the advertised length into a zeroed buffer. */
  function ClientRead(objects: seq<FdbElement>, s: State): (r: (State, Produced))
    requires Reachable(objects, s) && s.cursor.position < |objects|
    ensures Reachable(objects, r.0)
  {
    var e := ElementOf(objects[s.cursor.position]);
    var length := e.location.length;
    var (t, read) := Step(objects, s, Read(length));
    if read.Failed? then (t, Raised(read.status))
    else (t, Item(e, read.bytes + Zeros(length - |read.bytes|), |read.bytes|))
  }

  /** What a fresh `bytearray` holds. */
  function Zeros(n: nat): (z: seq<byte>)
    ensures |z| == n
  {
    seq(n, _ => 0)
  }

  /** pydasi's `Retrieve.__next__`. */
  function ClientNext(objects: seq<FdbElement>, s: State): (r: (State, Produced))
    requires Reachable(objects, s)
    ensures Reachable(objects, r.0)
  {
    var (t, moved) := Step(objects, s, Next);
    if moved == Moved(IterationComplete) then (t, Stop) else ClientRead(objects, t)
  }

  function ClientRun(objects: seq<FdbElement>, s: State, calls: nat): (r: (State, seq<Produced>))
    requires Reachable(objects, s)
    ensures Reachable(objects, r.0) && |r.1| == calls
  {
    if calls == 0 then (s, [])
    else
      var (s1, produced) := ClientRun(objects, s, calls - 1);
      var (s2, last) := ClientNext(objects, s1);
      (s2, produced + [last])
  }

  /** Call i of the iteration, as its user expects it. */
  function Expected(objects: seq<FdbElement>, i: nat): Produced {
    if i >= |objects| then Stop
    else if objects[i].bytes == [] then Raised(ErrorAssert)
    else Item(ElementOf(objects[i]), objects[i].bytes, |objects[i].bytes|)
  }

  /** Field by field: the object's own attributes and bytes, an error if it is empty, the end behind the last. */
  ghost predicate Delivers(p: Produced, objects: seq<FdbElement>, i: nat) {
    if i >= |objects| then p == Stop
    else if objects[i].bytes == [] then p == Raised(ErrorAssert)
    else p.Item? && Describes(p.element, objects[i]) && p.data == objects[i].bytes && p.length == |objects[i].bytes|
  }

  lemma ExpectedDelivers(objects: seq<FdbElement>, i: nat)
    ensures Delivers(Expected(objects, i), objects, i)
  {
    if i < |objects| {
      ElementDescribes(objects[i]);
    }
  }

  ghost predicate InStep(objects: seq<FdbElement>, s: State, calls: nat) {
    var visited := if calls <= |objects| then calls else |objects|;
    && s.cursor == CursorAfter(|objects|, calls)
    && s.position == Start(objects, visited)
  }

  lemma ReadWholeObject(objects: seq<FdbElement>, s: State, k: nat)
    requires Reachable(objects, s) && k < |objects| && s.position == Start(objects, k)
    requires objects[k].bytes != []
    ensures Step(objects, s, Read(|objects[k].bytes|))
            == (State(s.cursor, true, Start(objects, k + 1)), Bytes(Success, objects[k].bytes))
  {
    ObjectInStream(objects, k);
  }

  lemma StepInStep(objects: seq<FdbElement>, s: State, calls: nat)
    requires Reachable(objects, s) && InStep(objects, s, calls)
    ensures InStep(objects, ClientNext(objects, s).0, calls + 1)
    ensures ClientNext(objects, s).1 == Expected(objects, calls)
  {
    CursorVisitsEach(|objects|, calls + 1);
    if calls < |objects| {
      var moved := Step(objects, s, Next).0;
      assert moved.cursor == CursorState(false, calls);
      if objects[calls].bytes == [] {
        ObjectInStream(objects, calls);
      } else {
        ReadWholeObject(objects, moved, calls);
        assert objects[calls].bytes + [] == objects[calls].bytes;
      }
    }
  }

  /**
   The two positions never drift apart: call i produces exactly the i-th object with its own
   key and bytes, raises exactly when that object is empty, and a client that carries on after
   the error is still in step. Behind the last object every call stops.
   */
  lemma {:induction false} Lockstep(objects: seq<FdbElement>, calls: nat)
    ensures var (s, produced) := ClientRun(objects, START, calls);
            && InStep(objects, s, calls)
            && forall i :: 0 <= i < calls ==> produced[i] == Expected(objects, i) && Delivers(produced[i], objects, i)
  {
    hide ClientNext, Expected, Delivers;
    if calls > 0 {
      var (s1, produced) := ClientRun(objects, START, calls - 1);
      Lockstep(objects, calls - 1);
      StepInStep(objects, s1, calls - 1);
      ExpectedDelivers(objects, calls - 1);
      var (s2, last) := ClientNext(objects, s1);
      assert ClientRun(objects, START, calls) == (s2, produced + [last]);
    }
  }

  // ---- a client that reads before its first next -----------------------------------------

  /** One round of the do/while client: what it was told about, and what it then read. */
  datatype Round = Round(element: Element, bytes: seq<byte>)

  /** `do { attributes; read the advertised length; } while (next() == SUCCESS)`, left at the first failing call. */
  function DoWhile(objects: seq<FdbElement>, s: State): seq<Round>
    requires Reachable(objects, s)
    decreases |objects| - s.cursor.position + if s.cursor.first then 1 else 0
  {
    var (s1, attrs) := Step(objects, s, Attrs);
    if attrs.Failed? then []
    else
      var (s2, read) := Step(objects, s1, Read(attrs.element.location.length));
      if read.Failed? then []
      else
        var (s3, moved) := Step(objects, s2, Next);
        [Round(attrs.element, read.bytes)] + if moved.status == Success then DoWhile(objects, s3) else []
  }

  /** The object round r (counting from 0) reports. */
  function ObjectOfRound(r: nat): (k: nat)
    ensures k <= r && (r > 0 ==> k < r)
  {
    if r == 0 then 0 else r - 1
  }

  /** Where the stream stands before round r: object 0 has been passed once too often. */
  function StreamBefore(objects: seq<FdbElement>, r: nat): (position: nat)
    requires 0 < |objects| && r <= |objects| + 1
    ensures position <= |Stream(objects)|
  {
    if r == 0 then 0
    else
      var unbounded := |objects[0].bytes| + Start(objects, r - 1);
      if unbounded <= |Stream(objects)| then unbounded else |Stream(objects)|
  }

  /** What round r comes to: an element describing its object, and a stretch of the stream. */
  function RoundAt(objects: seq<FdbElement>, r: nat): (round: Round)
    requires r <= |objects| && 0 < |objects|
    ensures Describes(round.element, objects[ObjectOfRound(r)])
  {
    ElementDescribes(objects[ObjectOfRound(r)]);
    var from, to := StreamBefore(objects, r), StreamBefore(objects, r + 1);
    Round(ElementOf(objects[ObjectOfRound(r)]), if from <= to then Stream(objects)[from..to] else [])
  }

  function BeforeRound(objects: seq<FdbElement>, r: nat): State
    requires 0 < |objects| && r <= |objects| + 1
  {
    State(CursorAfter(|objects|, r), r > 0, StreamBefore(objects, r))
  }

  /** Round r finds the cursor on the object it reports, and moves it to where round r+1 finds it. */
  lemma {:induction false} RoundCursor(n: nat, r: nat)
    requires r <= n && 0 < n
    ensures CursorAfter(n, r).position == ObjectOfRound(r) && (CursorAfter(n, r).first ==> r == 0)
    ensures CursorNext(CursorAfter(n, r), n) == CursorAfter(n, r + 1)
    ensures CursorStatus(CursorAfter(n, r + 1), n) == if r < n then Success else IterationComplete
  {
    CursorVisitsEach(n, r + 1);
    if r > 0 {
      CursorVisitsEach(n, r);
    }
  }

  /** The read of round r takes the stream from where round r finds it to where round r+1 finds it. */
  lemma {:induction false} RoundStream(objects: seq<FdbElement>, r: nat)
    requires r <= |objects| && 0 < |objects|
    ensures var from, left := StreamBefore(objects, r), |Stream(objects)| - StreamBefore(objects, r);
            var length := |objects[ObjectOfRound(r)].bytes|;
            StreamBefore(objects, r + 1) == from + if length <= left then length else left
    ensures r > 0 && objects[0].bytes != [] && objects[ObjectOfRound(r)].bytes != [] ==>
              StreamBefore(objects, r) > Start(objects, ObjectOfRound(r))
  {
    ObjectInStream(objects, 0);
    ObjectInStream(objects, ObjectOfRound(r));
  }

  lemma {:induction false} OneRound(objects: seq<FdbElement>, r: nat)
    requires 0 < |objects| && r <= |objects|
    ensures var s, e := BeforeRound(objects, r), ElementOf(objects[ObjectOfRound(r)]);
            && Reachable(objects, s)
            && Step(objects, s, Attrs) == (s, Attributes(e))
            && (e.location.length == 0 ==> Step(objects, s, Read(e.location.length)).1.Failed?)
            && (e.location.length > 0 ==>
                  var from, to := StreamBefore(objects, r), StreamBefore(objects, r + 1);
                  var (t, read) := Step(objects, s, Read(e.location.length));
                  && Reachable(objects, BeforeRound(objects, r + 1)) && from <= to
                  && read.Bytes? && read.bytes == Stream(objects)[from..to]
                  && Step(objects, t, Next)
                     == (BeforeRound(objects, r + 1), Moved(if r < |objects| then Success else IterationComplete)))
  {
    RoundCursor(|objects|, r);
    RoundStream(objects, r);
    CursorVisitsEach(|objects|, r + 1);
    hide Stream, StreamBefore, CursorAfter, CursorNext, CursorStatus, Start;
  }

  /** A round with an object that is not empty, then the rest; an empty object ends the run. */
  lemma OneRoundMore(objects: seq<FdbElement>, r: nat)
    requires 0 < |objects| && r <= |objects|
    ensures Reachable(objects, BeforeRound(objects, r))
    ensures objects[ObjectOfRound(r)].bytes == [] ==> DoWhile(objects, BeforeRound(objects, r)) == []
    ensures objects[ObjectOfRound(r)].bytes != [] ==>
              && Reachable(objects, BeforeRound(objects, r + 1))
              && DoWhile(objects, BeforeRound(objects, r))
                 == [RoundAt(objects, r)] + if r < |objects| then DoWhile(objects, BeforeRound(objects, r + 1)) else []
  {
    OneRound(objects, r);
    assert ElementOf(objects[ObjectOfRound(r)]).location.length == |objects[ObjectOfRound(r)].bytes|;
    hide Step, Stream, StreamBefore, CursorAfter, Reachable, ElementOf, BeforeRound, CursorNext, CursorStatus;
  }

  /** How many objects come before the first empty one. */
  function FirstEmpty(objects: seq<FdbElement>): (e: nat)
    ensures e <= |objects| && (e < |objects| ==> objects[e].bytes == [])
    ensures forall k :: 0 <= k < e ==> objects[k].bytes != []
  {
    if objects == [] || objects[0].bytes == [] then 0 else 1 + FirstEmpty(objects[1..])
  }

  /** Rounds r to last. */
  function RoundsFrom(objects: seq<FdbElement>, r: nat, last: nat): seq<Round>
    requires 0 < |objects| && r <= last <= |objects|
    decreases last - r
  {
    [RoundAt(objects, r)] + if r < last then RoundsFrom(objects, r + 1, last) else []
  }

  lemma {:induction false} RoundsFromAt(objects: seq<FdbElement>, r: nat, last: nat, j: nat)
    requires 0 < |objects| && r <= last <= |objects|
    ensures |RoundsFrom(objects, r, last)| == last + 1 - r
    ensures r + j <= last ==> RoundsFrom(objects, r, last)[j] == RoundAt(objects, r + j)
    decreases last - r
  {
    hide RoundAt;
    if r < last {
      RoundsFromAt(objects, r + 1, last, if j == 0 then 0 else j - 1);
    }
  }

  lemma {:induction false} DoWhileRounds(objects: seq<FdbElement>, r: nat, last: nat)
    requires 0 < last <= |objects| && r <= last && forall k :: 0 <= k < last ==> objects[k].bytes != []
    requires last < |objects| ==> objects[last].bytes == []
    ensures Reachable(objects, BeforeRound(objects, r))
    ensures DoWhile(objects, BeforeRound(objects, r)) == RoundsFrom(objects, r, last)
    decreases last - r
  {
    assert RoundsFrom(objects, r, last)
           == [RoundAt(objects, r)] + if r < last then RoundsFrom(objects, r + 1, last) else [];
    assert r == last < |objects| ==> ObjectOfRound(r + 1) == last;
    hide *;
    OneRoundMore(objects, r);
    if r < last {
      DoWhileRounds(objects, r + 1, last);
    } else if last < |objects| {
      OneRoundMore(objects, r + 1);
    }
  }

  /**
   A client that reads before its first `next`, over any results: it makes no round if object 0 is empty,
   otherwise one round more than there are objects before the first empty one. The rounds report objects
   0, 0, 1, 2, ..., each with the bytes it reads, and from the second on these bytes begin behind the
   start of the object reported. So no results are ever visited once per object.
   */
  lemma {:induction false} DoWhileIsOneOff(objects: seq<FdbElement>)
    requires objects != []
    ensures var rounds, e := DoWhile(objects, START), FirstEmpty(objects);
            && |rounds| == (if e == 0 then 0 else e + 1)
            && (forall r :: 0 <= r < |rounds| ==> rounds[r] == RoundAt(objects, r))
            && (forall r :: 1 <= r < |rounds| ==> StreamBefore(objects, r) > Start(objects, ObjectOfRound(r)))
            && (forall r :: 0 <= r < |rounds| ==> StreamBefore(objects, r) <= StreamBefore(objects, r + 1))
  {
    var e := FirstEmpty(objects);
    assert BeforeRound(objects, 0) == START && ObjectOfRound(0) == 0;
    if e == 0 {
      OneRoundMore(objects, 0);
    } else {
      assert forall r :: 0 <= r <= e ==> ObjectOfRound(r) < e;
      hide *;
      DoWhileRounds(objects, 0, e);
      RoundsFromAt(objects, 0, e, 0);
      forall r | 0 <= r <= e
        ensures RoundsFrom(objects, 0, e)[r] == RoundAt(objects, r)
        ensures StreamBefore(objects, r) <= StreamBefore(objects, r + 1)
        ensures r > 0 ==> StreamBefore(objects, r) > Start(objects, ObjectOfRound(r))
      {
        RoundsFromAt(objects, 0, e, r);
        RoundStream(objects, r);
      }
    }
  }
}
