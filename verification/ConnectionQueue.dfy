/** One pass over the ready connections while the handler may close the one in hand. */
module ConnectionQueues {
  import opened Collections
  import opened ConnectionCaches

  /** What a call of HandleConnection leaves behind in its record, and whether it asks for the connection to be
      closed. */
  datatype Outcome = Outcome(buffered: nat, timestamp: int, close: bool)

  function Handled(r: Record, o: Outcome): (h: Record) {
    r.(buffered := o.buffered, timestamp := o.timestamp)
  }

  function Left(r: Record, o: Outcome): (h: Record) {
    var h := Handled(r, o);
    if o.close then h.(state := Free, handled := false, socket := -1, pendingWrite := false, pos := End) else h
  }

  /** The records when those in `todo` are still to be visited. */
  ghost predicate Visiting(was: map<Key, Record>, records: map<Key, Record>, fds: set<int>, outcome: Key -> Outcome,
                           todo: seq<Key>)
  {
    && records.Keys == was.Keys
    && forall k :: k in was ==>
                     records[k] == if k !in todo && IsReady(was, fds, k) then Left(was[k], outcome(k)) else was[k]
  }

  function Ready(records: map<Key, Record>, fds: set<int>): (p: Key -> bool) {
    k => IsReady(records, fds, k)
  }

  function Remains(records: map<Key, Record>, fds: set<int>, outcome: Key -> Outcome): (p: Key -> bool) {
    k => !(IsReady(records, fds, k) && outcome(k).close)
  }

  function Leaves(records: map<Key, Record>, fds: set<int>, outcome: Key -> Outcome): (p: Key -> bool) {
    k => IsReady(records, fds, k) && outcome(k).close
  }

  /** A pass as it should go: the records as they were, the three tests on them, and the sequences they add up to. */
  datatype Plan = Plan(was: map<Key, Record>, fds: set<int>, outcome: Key -> Outcome, ready: Key -> bool,
                       stay: Key -> bool, gone: Key -> bool, all: seq<Key>, rest: seq<Key>, shut: seq<int>)

  ghost predicate Judges(p: Plan) {
    forall k :: p.ready(k) == IsReady(p.was, p.fds, k) && p.gone(k) == (p.ready(k) && p.outcome(k).close)
                && p.stay(k) == !p.gone(k)
  }

  /** Who is handed over and who stays, in terms of the record. */
  predicate HandedOver(r: Record, k: Key, fds: set<int>, o: Outcome, handed: bool, stays: bool) {
    && (handed <==> !r.handled && (k in fds || r.buffered > 0))
    && (stays <==> !(handed && o.close))
  }

  lemma {:induction false} PassMeans(list: seq<Node>, payload: map<Node, Key>, was: map<Key, Record>, active: seq<Key>,
                                     fds: set<int>, outcome: Key -> Outcome)
    requires Consistent(list, payload, was, active)
    ensures var handed, stay := Keep(active, Ready(was, fds)), Keep(active, Remains(was, fds, outcome));
            && (forall k :: k in active ==> k in was && HandedOver(was[k], k, fds, outcome(k), k in handed, k in stay))
            && (forall k :: k in handed || k in stay ==> k in active)
  {
    var handed, stay := Keep(active, Ready(was, fds)), Keep(active, Remains(was, fds, outcome));
    forall k ensures (k in handed <==> k in active && IsReady(was, fds, k))
                     && (k in stay <==> k in active && !(IsReady(was, fds, k) && outcome(k).close))
    {
      KeepHas(active, Ready(was, fds), k);
      KeepHas(active, Remains(was, fds, outcome), k);
    }
    forall k | k in active ensures k in was && was[k].state == Waiting && was[k].socket == k {
      var i :| 0 <= i < |active| && active[i] == k;
      assert Linked(active[i], list[i], was);
    }
  }

  class ConnectionQueue {
    const cache: ConnectionCache

    constructor ()
      ensures fresh(cache) && cache.Valid() && cache.active == []
    {
      cache := new ConnectionCache();
    }

    method Handle(k: Key, o: Outcome)
      requires cache.Valid() && k in cache.records
      modifies cache`records
      ensures cache.Valid() && cache.records == old(cache.records)[k := Handled(old(cache.records)[k], o)]
    {
      cache.records := cache.records[k := Handled(cache.records[k], o)];
    }

    /** Frees the record in front of the cursor, which survives because it is already past it. */
    method FreeVisited(k: Key, ghost i: nat)
      requires cache.Valid() && cache.Cursor(i) && 0 < i && cache.active[i - 1] == k
      modifies cache
      ensures cache.Valid() && cache.Cursor(i - 1) && cache.marker == old(cache.marker)
      ensures cache.records == Freed(old(cache.records), k) && cache.active == Without(old(cache.active), i - 1)
      ensures cache.closed == old(cache.closed) + [k]
    {
      cache.LinkedAt(i - 1);
      cache.PositionIs(i - 1);
      cache.FreeConnection(cache.records[k].socket);
    }

    /** The handler's call and the free that may follow. */
    method Visit(k: Key, o: Outcome, ghost i: nat) returns (ghost next: nat)
      requires cache.Valid() && cache.Cursor(i) && 0 < i && cache.active[i - 1] == k && k in cache.records
      modifies cache
      ensures cache.Valid() && cache.Cursor(next) && cache.marker == old(cache.marker)
      ensures cache.records == old(cache.records)[k := Left(old(cache.records)[k], o)]
      ensures cache.closed == old(cache.closed) + if o.close then [k] else []
      ensures if o.close then next == i - 1 && cache.active == Without(old(cache.active), i - 1)
              else next == i && cache.active == old(cache.active)
    {
      Handle(k, o);
      next := i;
      if o.close {
        FreeVisited(k, i);
        next := i - 1;
      }
    }

    ghost predicate Passing(i: nat, p: Plan, handed: seq<Key>)
      reads cache
    {
      cache.Valid() && cache.Cursor(i) && Stands(p, cache.records, cache.active, cache.closed, i, handed)
    }

    /** Hands every record that was ready at the start to the handler, once and in list order; exactly those whose
        handler asked for it are closed, in that order, and the others stay in order. */
    method ProcessInboundTasks(fds: set<int>, outcome: Key -> Outcome) returns (handed: seq<Key>)
      requires cache.Valid()
      modifies cache
      ensures cache.Valid() && cache.marker == old(cache.marker)
      ensures handed == Keep(old(cache.active), Ready(old(cache.records), fds))
      ensures cache.active == Keep(old(cache.active), Remains(old(cache.records), fds, outcome))
      ensures cache.closed == old(cache.closed) + Keep(old(cache.active), Leaves(old(cache.records), fds, outcome))
      ensures Visiting(old(cache.records), cache.records, fds, outcome, [])
      ensures forall k :: k in old(cache.active) ==>
                k in old(cache.records)
                && HandedOver(old(cache.records)[k], k, fds, outcome(k), k in handed, k in cache.active)
      ensures forall k :: k in handed || k in cache.active ==> k in old(cache.active)
    {
      ghost var was := cache.records;
      PassMeans(cache.list, cache.payload, was, cache.active, fds, outcome);
      ghost var ready, stay, gone := Ready(was, fds), Remains(was, fds, outcome), Leaves(was, fds, outcome);
      handed := Pass(fds, outcome, Plan(was, fds, outcome, ready, stay, gone, Keep(cache.active, ready),
                                        Keep(cache.active, stay), cache.closed + Keep(cache.active, gone)));
    }

    method Pass(fds: set<int>, outcome: Key -> Outcome, ghost p: Plan) returns (handed: seq<Key>)
      requires cache.Valid() && p.was == cache.records && p.fds == fds && p.outcome == outcome && Judges(p)
      requires p.all == Keep(cache.active, p.ready) && p.rest == Keep(cache.active, p.stay)
      requires p.shut == cache.closed + Keep(cache.active, p.gone)
      modifies cache
      ensures cache.Valid() && cache.marker == old(cache.marker)
      ensures handed == p.all && cache.active == p.rest && cache.closed == p.shut
      ensures Visiting(p.was, cache.records, fds, outcome, [])
    {
      handed := [];
      cache.ResetEnumerator();
      ghost var i: nat := 0;
      Begins(p, cache.active, cache.closed);
      var more := true;
      while more
        invariant Passing(i, p, handed) && cache.marker == old(cache.marker)
        invariant !more ==> i == |cache.active|
        decreases |cache.active| - i, more
      {
        handed, more, i := PassOn(i, fds, outcome, p, handed);
      }
      assert cache.active[i..] == [] && cache.active[..i] == cache.active;
    }

    method PassOn(ghost i: nat, fds: set<int>, outcome: Key -> Outcome, ghost p: Plan, handed: seq<Key>)
      returns (after: seq<Key>, more: bool, ghost next: nat)
      requires Passing(i, p, handed) && p.fds == fds && p.outcome == outcome && Judges(p)
      modifies cache
      ensures Passing(next, p, after) && cache.marker == old(cache.marker)
      ensures more ==> |cache.active| - next < old(|cache.active|) - i
      ensures !more ==> next == |cache.active| && |cache.active| - next <= old(|cache.active|) - i
    {
      var r, at := cache.GetNextSetRecord(fds, i);
      after, more, next := handed, false, at;
      ghost var n := if r.None? then at else at - 1;
      SkipsTo(p, cache.records, cache.active, cache.closed, i, n, handed);
      if r.Some? {
        after := handed + [r.value];
        next := HandOver(n, r.value, outcome, p, handed);
        more := true;
      }
    }

    /** The ready record in front of the cursor goes to the handler. */
    method HandOver(ghost i: nat, k: Key, outcome: Key -> Outcome, ghost p: Plan, ghost handed: seq<Key>)
      returns (ghost next: nat)
      requires cache.Valid() && cache.Cursor(i + 1) && cache.active[i] == k && IsReady(cache.records, p.fds, k)
      requires Stands(p, cache.records, cache.active, cache.closed, i, handed) && p.outcome == outcome && Judges(p)
      modifies cache
      ensures Passing(next, p, handed + [k]) && cache.marker == old(cache.marker)
      ensures |cache.active| - next == old(|cache.active|) - i - 1
    {
      cache.OnlyOnce(i);
      Takes(p, cache.records, cache.active, cache.closed, i, k, handed);
      next := Visit(k, outcome(k), i + 1);
    }
  }

  /** Where a pass stands: at position `i`, with `handed` so far and what the rest of the list still adds up to. */
  ghost predicate Stands(p: Plan, records: map<Key, Record>, active: seq<Key>, closed: seq<int>, i: nat,
                         handed: seq<Key>)
  {
    && i <= |active|
    && handed + Keep(active[i..], p.ready) == p.all
    && active[..i] + Keep(active[i..], p.stay) == p.rest
    && closed + Keep(active[i..], p.gone) == p.shut
    && Visiting(p.was, records, p.fds, p.outcome, active[i..])
  }

  lemma {:induction false} Begins(p: Plan, active: seq<Key>, closed: seq<int>)
    requires forall k :: k in p.was && p.was[k].state == Waiting ==> k in active
    requires p.all == Keep(active, p.ready) && p.rest == Keep(active, p.stay) && p.shut == closed + Keep(active, p.gone)
    ensures Stands(p, p.was, active, closed, 0, [])
  {
    assert active[0..] == active;
  }

  /** Records that are not ready are passed over. */
  lemma {:induction false} SkipsTo(p: Plan, records: map<Key, Record>, active: seq<Key>, closed: seq<int>, i: nat,
                                   n: nat, handed: seq<Key>)
    requires Stands(p, records, active, closed, i, handed) && Judges(p)
    requires i <= n <= |active| && NoneReady(records, p.fds, active, i, n)
    ensures Stands(p, records, active, closed, n, handed)
  {
    var h := i;
    while h < n
      invariant i <= h <= n && Stands(p, records, active, closed, h, handed)
    {
      SkipOne(p, records, active, closed, h, handed);
      h := h + 1;
    }
  }

  lemma {:induction false} SkipOne(p: Plan, records: map<Key, Record>, active: seq<Key>, closed: seq<int>, i: nat,
                                   handed: seq<Key>)
    requires Stands(p, records, active, closed, i, handed) && Judges(p)
    requires i < |active| && !IsReady(records, p.fds, active[i])
    ensures Stands(p, records, active, closed, i + 1, handed)
  {
    var k, todo, left := active[i], active[i..], active[i + 1..];
    assert todo == [k] + left && todo[0] == k && todo[1..] == left;
    assert k in todo;
    assert !p.ready(k) && !p.gone(k) && p.stay(k);
    SplitOff(active, i, Keep(left, p.stay));
  }

  lemma {:induction false} SplitOff(active: seq<Key>, i: nat, rest: seq<Key>)
    requires i < |active|
    ensures active[..i] + ([active[i]] + rest) == active[..i + 1] + rest
  {
  }

  lemma {:induction false} OneMore(s: seq<Key>, k: Key, rest: seq<Key>)
    ensures s + ([k] + rest) == (s + [k]) + rest
  {
  }

  /** The ready record at `i` is handed over, and goes or stays. */
  lemma {:induction false} Takes(p: Plan, records: map<Key, Record>, active: seq<Key>, closed: seq<int>, i: nat, k: Key,
                                 handed: seq<Key>)
    requires Stands(p, records, active, closed, i, handed) && Judges(p)
    requires i < |active| && active[i] == k && IsReady(records, p.fds, k) && k !in active[i + 1..]
    ensures var after := records[k := Left(records[k], p.outcome(k))];
            if p.outcome(k).close then Stands(p, after, Without(active, i), closed + [k], i, handed + [k])
            else Stands(p, after, active, closed, i + 1, handed + [k])
  {
    var todo, left := active[i..], active[i + 1..];
    assert todo == [k] + left && todo[0] == k && todo[1..] == left;
    assert k in todo && records[k] == p.was[k] && p.ready(k);
    OneMore(handed, k, Keep(left, p.ready));
    OneMore(closed, k, Keep(left, p.gone));
    var w := Without(active, i);
    assert w[..i] == active[..i] && w[i..] == left;
    SplitOff(active, i, Keep(left, p.stay));
  }
}
