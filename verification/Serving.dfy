/** Framing and the inbound pass together: every connection's messages come out, pass by pass. */
module Serving {
  import opened Text
  import opened ConnectionCaches
  import opened Inbound
  import opened Framing
  import Queues = ConnectionQueues

  /** What a readable socket may give when `wire` is still to come: nothing, or a chunk of it. */
  predicate Offers(wire: Bytes, r: Received) {
    !r.Failed? && Arrived([], r) <= wire
  }

  function Remaining(wire: Bytes, r: Received): (w: Bytes)
    requires Offers(wire, r)
  {
    wire[|Arrived([], r)|..]
  }

  lemma {:induction false} ServedReady(ms: seq<Message>, st: State, wire: Bytes, r: Received, left: Bytes)
    requires AllWellFormed(ms) && Synchronized(ms, st, wire) && Offers(wire, r) && left == Remaining(wire, r)
    ensures Moved(ms, st, wire, Handled(st, r), left)
  {
    assert Arrived([], r) + left == wire;
    Step(ms, st, r, left);
    if wire == [] {
      AllThere(ms, st, r);
    }
  }

  lemma {:induction false} ServedIdle(ms: seq<Message>, st: State, wire: Bytes)
    requires Synchronized(ms, st, wire) && st.buffer == []
    ensures Moved(ms, st, wire, st, wire)
  {
    if wire == [] {
      assert |Stream(ms, |st.sent|)| == 0;
      NoneLeft(ms, |st.sent|);
    }
  }

  /** One connection in one pass: the handler is called when the record is ready, which a non-empty buffer makes it. */
  lemma {:induction false} Served(ms: seq<Message>, st: State, wire: Bytes, r: Received, ready: bool, next: State,
                                  left: Bytes)
    requires AllWellFormed(ms) && Synchronized(ms, st, wire) && Offers(wire, r) && (!ready ==> st.buffer == [])
    requires next == (if ready then Handled(st, r) else st) && left == (if ready then Remaining(wire, r) else wire)
    ensures Moved(ms, st, wire, next, left)
  {
    if ready {
      ServedReady(ms, st, wire, r, left);
    } else {
      ServedIdle(ms, st, wire);
    }
  }

  lemma {:induction false} NoneLeft(ms: seq<Message>, k: nat)
    requires k <= |ms| && Stream(ms, k) == []
    ensures k == |ms|
  {
  }

  /** The records know how much is buffered, and no handler is at work on them. */
  ghost predicate Kept(active: seq<Key>, streams: map<Key, State>, wire: map<Key, Bytes>, records: map<Key, Record>) {
    forall k :: k in active ==>
                  && k in records && k in streams && k in wire
                  && records[k].buffered == |streams[k].buffer| && !records[k].handled && records[k].state == Waiting
                  && records[k].socket == k
  }

  /** Every connection stands in its own list of well-formed messages. */
  ghost predicate InStep(active: seq<Key>, streams: map<Key, State>, wire: map<Key, Bytes>, ms: Key -> seq<Message>) {
    forall k :: k in active ==>
                  k in streams && k in wire && AllWellFormed(ms(k)) && Synchronized(ms(k), streams[k], wire[k])
  }

  ghost predicate AllOffer(active: seq<Key>, wire: map<Key, Bytes>, incoming: Key -> Received) {
    forall k :: k in active ==> k in wire && Offers(wire[k], incoming(k))
  }

  ghost predicate AllMoved(active: seq<Key>, ms: Key -> seq<Message>, streams: map<Key, State>, wire: map<Key, Bytes>,
                           next: map<Key, State>, left: map<Key, Bytes>)
  {
    forall k :: k in active ==>
                  && k in streams && k in wire && k in next && k in left
                  && Moved(ms(k), streams[k], wire[k], next[k], left[k])
  }

  lemma {:induction false} AllServed(active: seq<Key>, was: map<Key, Record>, streams: map<Key, State>,
                                     wire: map<Key, Bytes>, fds: set<int>, incoming: Key -> Received,
                                     ms: Key -> seq<Message>, next: map<Key, State>, left: map<Key, Bytes>)
    requires Kept(active, streams, wire, was) && InStep(active, streams, wire, ms) && AllOffer(active, wire, incoming)
    requires next == NextStreams(streams, was, fds, incoming) && left == NextWire(wire, was, fds, incoming)
    ensures AllMoved(active, ms, streams, wire, next, left) && InStep(active, next, left, ms)
  {
    forall k | k in active ensures k in next && k in left && Moved(ms(k), streams[k], wire[k], next[k], left[k]) {
      Served(ms(k), streams[k], wire[k], incoming(k), IsReady(was, fds, k), next[k], left[k]);
    }
  }

  lemma {:induction false} RecordsKept(active: seq<Key>, was: map<Key, Record>, streams: map<Key, State>,
                                       wire: map<Key, Bytes>, fds: set<int>, incoming: Key -> Received, now: int,
                                       records: map<Key, Record>, next: map<Key, State>, left: map<Key, Bytes>)
    requires Kept(active, streams, wire, was)
    requires Queues.Visiting(was, records, fds, Outcomes(streams, was, incoming, now), [])
    requires next == NextStreams(streams, was, fds, incoming) && left.Keys == wire.Keys
    requires forall k :: k in active ==> !next[k].close
    ensures Kept(active, next, left, records)
  {
  }

  /** What a pass does to one connection: the handler runs exactly when its socket is readable or bytes are buffered;
      then it takes the chunk that is there, and notes the time if there is one. */
  ghost predicate ReadOne(k: Key, fds: set<int>, r: Received, now: int, st: State, wire: Bytes, time: int,
                          next: State, left: Bytes, after: int)
  {
    if k in fds || st.buffer != [] then
      && next == Handled(st, r) && Arrived([], r) + left == wire
      && after == if r.Data? && r.bytes != [] then now else time
    else next == st && left == wire && after == time
  }

  ghost predicate AllRead(active: seq<Key>, fds: set<int>, incoming: Key -> Received, now: int,
                          was: map<Key, Record>, streams: map<Key, State>, wire: map<Key, Bytes>,
                          records: map<Key, Record>, next: map<Key, State>, left: map<Key, Bytes>)
  {
    forall k :: k in active ==>
                  && k in was && k in streams && k in wire && k in records && k in next && k in left
                  && ReadOne(k, fds, incoming(k), now, streams[k], wire[k], was[k].timestamp, next[k], left[k],
                             records[k].timestamp)
  }

  lemma {:induction false} PassReads(active: seq<Key>, fds: set<int>, incoming: Key -> Received, now: int,
                                     was: map<Key, Record>, streams: map<Key, State>, wire: map<Key, Bytes>,
                                     records: map<Key, Record>, next: map<Key, State>, left: map<Key, Bytes>)
    requires Kept(active, streams, wire, was) && AllOffer(active, wire, incoming)
    requires Queues.Visiting(was, records, fds, Outcomes(streams, was, incoming, now), [])
    requires next == NextStreams(streams, was, fds, incoming) && left == NextWire(wire, was, fds, incoming)
    requires forall k :: k in active ==> !next[k].close
    ensures AllRead(active, fds, incoming, now, was, streams, wire, records, next, left)
  {
    forall k | k in active
      ensures k in next && k in left && k in records
      ensures ReadOne(k, fds, incoming(k), now, streams[k], wire[k], was[k].timestamp, next[k], left[k],
                      records[k].timestamp)
    {
      assert Arrived([], incoming(k)) + Remaining(wire[k], incoming(k)) == wire[k];
    }
  }

  class Server {
    const queue: Queues.ConnectionQueue
    /** Each connection's buffer, the frames sent from it, and its handler's close flag. */
    var streams: map<Key, State>
    /** What each peer has still to send. */
    var wire: map<Key, Bytes>

    ghost predicate Valid()
      reads this, queue, queue.cache
    {
      queue.cache.Valid() && Kept(queue.cache.active, streams, wire, queue.cache.records)
    }

    constructor ()
      ensures Valid() && fresh(queue) && fresh(queue.cache) && queue.cache.active == []
    {
      queue := new Queues.ConnectionQueue();
      streams, wire := map[], map[];
    }

    /** One inbound pass with whatever each socket gives: every connection stays open and in step with its messages,
        and when nothing more is to come each of them gets its next message out. */
    method Pass(fds: set<int>, incoming: Key -> Received, now: int, ghost ms: Key -> seq<Message>)
      requires Valid() && InStep(queue.cache.active, streams, wire, ms) && AllOffer(queue.cache.active, wire, incoming)
      modifies this`streams, this`wire, queue.cache
      ensures Valid() && InStep(queue.cache.active, streams, wire, ms) && queue.cache.active == old(queue.cache.active)
      ensures AllMoved(queue.cache.active, ms, old(streams), old(wire), streams, wire)
      ensures AllRead(queue.cache.active, fds, incoming, now, old(queue.cache.records), old(streams), old(wire),
                      queue.cache.records, streams, wire)
    {
      ghost var active, was := queue.cache.active, queue.cache.records;
      ghost var next, left := NextStreams(streams, was, fds, incoming), NextWire(wire, was, fds, incoming);
      AllServed(active, was, streams, wire, fds, incoming, ms, next, left);
      var handed := RunPass(fds, incoming, now, active, was, next);
      RecordsKept(active, was, streams, wire, fds, incoming, now, queue.cache.records, next, left);
      PassReads(active, fds, incoming, now, was, streams, wire, queue.cache.records, next, left);
      HandedStreams(handed, streams, was, fds, incoming, next);
      HandedWire(handed, wire, was, fds, incoming, left);
      streams := WithHanded(streams, handed, incoming);
      wire := TakenFrom(wire, handed, incoming);
    }

    /** When everything has arrived, `n` passes get `n` more messages of every connection out, as far as there are that
        many, whatever select reports. */
    method Drain(n: nat, fds: nat -> set<int>, now: int, ghost ms: Key -> seq<Message>)
      requires Valid() && InStep(queue.cache.active, streams, wire, ms)
      requires forall k :: k in queue.cache.active ==> wire[k] == []
      modifies this`streams, this`wire, queue.cache
      ensures Valid() && InStep(queue.cache.active, streams, wire, ms) && queue.cache.active == old(queue.cache.active)
      ensures Drained(queue.cache.active, ms, old(streams), streams, wire, n)
    {
      var i := 0;
      while i < n
        invariant 0 <= i <= n && Valid() && InStep(queue.cache.active, streams, wire, ms)
        invariant queue.cache.active == old(queue.cache.active)
        invariant Drained(queue.cache.active, ms, old(streams), streams, wire, i)
      {
        ghost var before, dry := streams, wire;
        Pass(fds(i), k => Nothing, now, ms);
        DrainedNext(queue.cache.active, ms, old(streams), before, dry, streams, wire, i);
        i := i + 1;
      }
    }

    /** `n` passes in which the sockets give chunks of at most the given sizes: every connection stays in step, and each
        pass in which its socket is readable and gives something takes in at least one of its bytes. */
    method Intake(n: nat, fds: nat -> set<int>, sizes: nat -> (Key -> nat), now: int, ghost ms: Key -> seq<Message>)
      requires Valid() && InStep(queue.cache.active, streams, wire, ms)
      modifies this`streams, this`wire, queue.cache
      ensures Valid() && InStep(queue.cache.active, streams, wire, ms) && queue.cache.active == old(queue.cache.active)
      ensures TakenIn(queue.cache.active, old(wire), wire, fds, sizes, n)
    {
      var i := 0;
      while i < n
        invariant 0 <= i <= n && Valid() && InStep(queue.cache.active, streams, wire, ms)
        invariant queue.cache.active == old(queue.cache.active)
        invariant TakenIn(queue.cache.active, old(wire), wire, fds, sizes, i)
      {
        ghost var was, before, streamsBefore := queue.cache.records, wire, streams;
        var chunks := Chunks(wire, sizes(i));
        ChunksOffer(queue.cache.active, wire, sizes(i));
        Pass(fds(i), chunks, now, ms);
        TakenInNext(queue.cache.active, old(wire), fds, sizes, i, now, was, streamsBefore, before, queue.cache.records,
                    streams, wire);
        i := i + 1;
      }
    }

    method RunPass(fds: set<int>, incoming: Key -> Received, now: int, ghost active: seq<Key>,
                   ghost was: map<Key, Record>, ghost next: map<Key, State>) returns (handed: seq<Key>)
      requires queue.cache.Valid() && active == queue.cache.active && was == queue.cache.records
      requires next == NextStreams(streams, was, fds, incoming)
      requires forall k :: k in active ==> k in streams && !next[k].close
      modifies queue.cache
      ensures queue.cache.Valid() && queue.cache.active == active
      ensures Queues.Visiting(was, queue.cache.records, fds, Outcomes(streams, was, incoming, now), [])
      ensures forall k :: k in handed <==> IsReady(was, fds, k)
    {
      ghost var outcome := Outcomes(streams, was, incoming, now);
      AllStay(active, was, fds, outcome);
      handed := queue.ProcessInboundTasks(fds, Outcomes(streams, queue.cache.records, incoming, now));
      HandedAreReady(active, was, fds, handed);
    }
  }

  lemma {:induction false} HandedStreams(handed: seq<Key>, streams: map<Key, State>, was: map<Key, Record>,
                                         fds: set<int>, incoming: Key -> Received, next: map<Key, State>)
    requires next == NextStreams(streams, was, fds, incoming)
    requires forall k :: k in handed <==> IsReady(was, fds, k)
    ensures WithHanded(streams, handed, incoming) == next
  {
  }

  lemma {:induction false} HandedWire(handed: seq<Key>, wire: map<Key, Bytes>, was: map<Key, Record>, fds: set<int>,
                                      incoming: Key -> Received, left: map<Key, Bytes>)
    requires left == NextWire(wire, was, fds, incoming)
    requires forall k :: k in handed <==> IsReady(was, fds, k)
    ensures TakenFrom(wire, handed, incoming) == left
  {
  }

  /** What the peers have still to send once the handler has taken its chunks. */
  function TakenFrom(wire: map<Key, Bytes>, handed: seq<Key>, incoming: Key -> Received): (r: map<Key, Bytes>) {
    map k | k in wire ::
      if k in handed && Offers(wire[k], incoming(k)) then Remaining(wire[k], incoming(k)) else wire[k]
  }

  /** The streams after the handler's calls. */
  function WithHanded(streams: map<Key, State>, handed: seq<Key>, incoming: Key -> Received): (r: map<Key, State>) {
    map k | k in streams :: if k in handed then Handled(streams[k], incoming(k)) else streams[k]
  }

  /** A connection after a pass: still in step, and one message further when everything has arrived. */
  ghost predicate Moved(ms: seq<Message>, st: State, wire: Bytes, next: State, left: Bytes) {
    && Synchronized(ms, next, left) && (wire == [] ==> left == [])
    && (wire == [] ==> |next.sent| == if |st.sent| < |ms| then |st.sent| + 1 else |ms|)
  }

  /** What HandleConnection leaves in each record; the time is only noted when bytes came in. */
  function Outcomes(streams: map<Key, State>, records: map<Key, Record>, incoming: Key -> Received, now: int)
      : (o: Key -> Queues.Outcome)
  {
    k => if k in streams && k in records then
           var st := Handled(streams[k], incoming(k));
           var came := incoming(k).Data? && incoming(k).bytes != [];
           Queues.Outcome(|st.buffer|, if came then now else records[k].timestamp, st.close)
         else Queues.Outcome(0, now, false)
  }

  function NextStreams(streams: map<Key, State>, was: map<Key, Record>, fds: set<int>, incoming: Key -> Received)
      : (r: map<Key, State>)
    ensures r.Keys == streams.Keys
  {
    map k | k in streams :: if IsReady(was, fds, k) then Handled(streams[k], incoming(k)) else streams[k]
  }

  function NextWire(wire: map<Key, Bytes>, was: map<Key, Record>, fds: set<int>, incoming: Key -> Received)
      : (r: map<Key, Bytes>)
    ensures r.Keys == wire.Keys
  {
    map k | k in wire ::
      if IsReady(was, fds, k) && Offers(wire[k], incoming(k)) then Remaining(wire[k], incoming(k)) else wire[k]
  }

  lemma {:induction false} HandedAreReady(active: seq<Key>, was: map<Key, Record>, fds: set<int>, handed: seq<Key>)
    requires handed == Keep(active, Queues.Ready(was, fds))
    requires forall k :: k in was && was[k].state == Waiting ==> k in active
    ensures forall k :: k in handed <==> IsReady(was, fds, k)
  {
    forall k ensures k in handed <==> IsReady(was, fds, k) {
      KeepHas(active, Queues.Ready(was, fds), k);
    }
  }

  lemma {:induction false} AllStay(active: seq<Key>, was: map<Key, Record>, fds: set<int>,
                                   outcome: Key -> Queues.Outcome)
    requires forall k :: k in active && IsReady(was, fds, k) ==> !outcome(k).close
    ensures Keep(active, Queues.Remains(was, fds, outcome)) == active
  {
    KeepAll(active, Queues.Remains(was, fds, outcome));
  }

  /** Each connection is `n` messages further, or at the end of them. */
  ghost predicate Drained(active: seq<Key>, ms: Key -> seq<Message>, start: map<Key, State>, streams: map<Key, State>,
                          wire: map<Key, Bytes>, n: nat)
  {
    forall k :: k in active ==>
                  && k in start && k in streams && k in wire && wire[k] == []
                  && |streams[k].sent| == if |start[k].sent| + n < |ms(k)| then |start[k].sent| + n else |ms(k)|
  }

  lemma {:induction false} DrainedNext(active: seq<Key>, ms: Key -> seq<Message>, start: map<Key, State>,
                                       streams: map<Key, State>, wire: map<Key, Bytes>, next: map<Key, State>,
                                       left: map<Key, Bytes>, n: nat)
    requires Drained(active, ms, start, streams, wire, n) && AllMoved(active, ms, streams, wire, next, left)
    ensures Drained(active, ms, start, next, left, n + 1)
  {
  }

  /** With as many passes as messages, every connection has sent all of them, in order, and holds nothing back. */
  lemma {:induction false} DrainedIsDone(active: seq<Key>, ms: Key -> seq<Message>, start: map<Key, State>,
                                         streams: map<Key, State>, wire: map<Key, Bytes>, n: nat, k: Key)
    requires Drained(active, ms, start, streams, wire, n) && InStep(active, streams, wire, ms)
    requires k in active && |start[k].sent| + n >= |ms(k)|
    ensures streams[k] == State([], Frames(ms(k)), false)
  {
    AllSent(ms(k), streams[k]);
  }

  // ---------------------------------------------------------------- every byte is taken in

  function Chunk(wire: Bytes, size: nat): (r: Received) {
    if size == 0 || wire == [] then Nothing else Data(wire[..if size < |wire| then size else |wire|])
  }

  function Chunks(wire: map<Key, Bytes>, size: Key -> nat): (incoming: Key -> Received) {
    k => if k in wire then Chunk(wire[k], size(k)) else Nothing
  }

  lemma {:induction false} ChunksOffer(active: seq<Key>, wire: map<Key, Bytes>, size: Key -> nat)
    requires forall k :: k in active ==> k in wire
    ensures AllOffer(active, wire, Chunks(wire, size))
  {
    forall k | k in active ensures Offers(wire[k], Chunk(wire[k], size(k))) {
      assert [] <= wire[k];
    }
  }

  /** How many of the first `n` passes find the socket readable and give something. */
  function Reads(k: Key, fds: nat -> set<int>, sizes: nat -> (Key -> nat), n: nat): (c: nat) {
    if n == 0 then 0 else Reads(k, fds, sizes, n - 1) + if k in fds(n - 1) && sizes(n - 1)(k) > 0 then 1 else 0
  }

  /** Each such pass has taken in a byte, as long as there was one. */
  ghost predicate TakenIn(active: seq<Key>, start: map<Key, Bytes>, wire: map<Key, Bytes>, fds: nat -> set<int>,
                          sizes: nat -> (Key -> nat), n: nat)
  {
    forall k :: k in active ==>
                  k in start && k in wire && (wire[k] == [] || |wire[k]| + Reads(k, fds, sizes, n) <= |start[k]|)
  }

  lemma {:induction false} TakenInNext(active: seq<Key>, start: map<Key, Bytes>, fds: nat -> set<int>,
                                       sizes: nat -> (Key -> nat), n: nat, now: int, was: map<Key, Record>,
                                       streams: map<Key, State>, wire: map<Key, Bytes>, records: map<Key, Record>,
                                       next: map<Key, State>, left: map<Key, Bytes>)
    requires TakenIn(active, start, wire, fds, sizes, n)
    requires AllRead(active, fds(n), Chunks(wire, sizes(n)), now, was, streams, wire, records, next, left)
    ensures TakenIn(active, start, left, fds, sizes, n + 1)
  {
    forall k | k in active
      ensures k in left && (left[k] == [] || |left[k]| + Reads(k, fds, sizes, n + 1) <= |start[k]|)
    {
      var size := sizes(n)(k);
      var r := Chunk(wire[k], size);
      assert r == Chunks(wire, sizes(n))(k);
      TakenOne(k, fds(n), size, now, streams[k], wire[k], was[k].timestamp, next[k], left[k], records[k].timestamp);
    }
  }

  lemma {:induction false} TakenOne(k: Key, fds: set<int>, size: nat, now: int, st: State, wire: Bytes, time: int,
                                    next: State, left: Bytes, after: int)
    requires ReadOne(k, fds, Chunk(wire, size), now, st, wire, time, next, left, after)
    ensures |left| <= |wire| && (wire != [] && k in fds && size > 0 ==> |left| < |wire|)
  {
  }

  /** A socket that is readable often enough gives everything: at most once per byte is needed. */
  lemma {:induction false} AllTakenIn(active: seq<Key>, start: map<Key, Bytes>, wire: map<Key, Bytes>,
                                      fds: nat -> set<int>, sizes: nat -> (Key -> nat), n: nat, k: Key)
    requires TakenIn(active, start, wire, fds, sizes, n) && k in active && k in start
    requires Reads(k, fds, sizes, n) >= |start[k]|
    ensures k in wire && wire[k] == []
  {
  }
}
