/** The pool with its cursor and the queue's three scans, refining the step system. */
module MsgQueues {
  import opened Msgs
  import opened Collections
  import opened Courier

  class MsgPool {
    /** The messages themselves, by address. */
    var msgs: map<Id, Msg>
    var messages: seq<Id>
    var freeStack: seq<Id>
    var it: nat
    var locked: bool

    constructor ()
      ensures msgs == map[] && messages == [] && freeStack == []
    {
      msgs, messages, freeStack, it, locked := map[], [], [], 0, false;
    }

    method GetReusableMessage(unused: Id, now: int) returns (id: Id)
      modifies this`msgs, this`messages, this`freeStack
      ensures id == (if old(freeStack) != [] then old(freeStack[|freeStack| - 1]) else unused)
      ensures messages == (if old(freeStack) != [] then old(messages) else old(messages) + [id])
      ensures freeStack == (if old(freeStack) != [] then old(freeStack[..|freeStack| - 1]) else [])
      ensures msgs == old(msgs)[id := Reset(now).(state := InUse)]
    {
      if freeStack != [] {
        id := freeStack[|freeStack| - 1];
        freeStack := freeStack[..|freeStack| - 1];
      } else {
        id := unused;
        messages := messages + [id];
      }
      msgs := msgs[id := Reset(now)];
      msgs := msgs[id := msgs[id].(state := InUse)];
    }

    method SetMsgState(id: Id, state: MsgState)
      requires id in msgs
      modifies this`msgs
      ensures msgs == old(msgs)[id := old(msgs)[id].(state := state)]
    {
      msgs := msgs[id := msgs[id].(state := state)];
    }

    method ReturnToPool(id: Id)
      requires id in msgs
      modifies this`msgs, this`freeStack
      ensures msgs == old(msgs)[id := old(msgs)[id].(state := Inactive)] && freeStack == old(freeStack) + [id]
    {
      SetMsgState(id, Inactive);
      freeStack := freeStack + [id];
    }

    method GetHead() returns (r: Option<Id>)
      modifies this`it
      ensures locked ==> it == 0 && r == if messages == [] then None else Some(messages[0])
      ensures !locked ==> it == old(it) && r == None
    {
      if !locked {
        return None;
      }
      it := 0;
      return if it == |messages| then None else Some(messages[it]);
    }

    /** Moving on from the end of the list has no meaning. */
    method GetNext() returns (r: Option<Id>)
      requires locked ==> it < |messages|
      modifies this`it
      ensures locked ==> it == old(it) + 1 && r == if it == |messages| then None else Some(messages[it])
      ensures !locked ==> it == old(it) && r == None
    {
      if !locked {
        return None;
      }
      it := it + 1;
      return if it == |messages| then None else Some(messages[it]);
    }

    /** Erases, which moves the cursor to the next message, and then moves it once more. */
    method DeleteCurrent()
      requires it + 1 < |messages|
      modifies this`it, this`messages
      ensures it == old(it) + 1 && messages == Without(old(messages), old(it))
    {
      messages := messages[..it] + messages[it + 1..];
      it := it + 1;
    }

    method FlushFreeStack()
      modifies this`freeStack
      ensures freeStack == []
    {
      while freeStack != []
        decreases |freeStack|
      {
        freeStack := freeStack[..|freeStack| - 1];
      }
    }
  }

  datatype Route = ToInternal | ToOutbound | ToInbound | Nowhere

  class MsgQueue {
    const pool: MsgPool
    var queue: seq<Id>
    /** Messages a creator or a handler has. */
    ghost var held: set<Id>

    ghost function View(): (s: State)
      reads this, pool
    {
      State(pool.msgs, pool.messages, pool.freeStack, queue, held)
    }

    constructor ()
      ensures fresh(pool) && View() == START
    {
      pool := new MsgPool();
      queue, held := [], {};
    }

    method CreateMessage(unused: Id, now: int) returns (id: Id)
      requires unused !in pool.msgs
      modifies this`held, pool
      ensures id == old(Reusable(View(), unused)) && View() == Created(old(View()), unused, now)
    {
      id := pool.GetReusableMessage(unused, now);
      held := held + {id};
    }

    method DispatchMsg(id: Id)
      requires id in pool.msgs
      modifies this`held, pool
      ensures View() == Released(old(View()), id, Dispatched(old(pool.msgs)[id]))
    {
      var m := pool.msgs[id];
      if m.connection == NotSet {
        m := m.(connection := Internal);
      }
      pool.msgs := pool.msgs[id := m.(state := Pending)];
      held := held - {id};
    }

    /** MarkProcessed, or the outcome a handler sets. */
    method Finish(id: Id, state: MsgState)
      requires id in pool.msgs
      modifies this`held, pool
      ensures View() == Released(old(View()), id, old(pool.msgs)[id].(state := state))
    {
      pool.SetMsgState(id, state);
      held := held - {id};
    }

    /** Every message in the pool list exists. */
    ghost predicate Listed()
      reads this, pool
    {
      forall k :: 0 <= k < |pool.messages| ==> pool.messages[k] in pool.msgs
    }

    method ProcessPendingMessages(clock: nat -> Reading)
      requires Listed()
      modifies this`queue, pool
      ensures View() == Collected(old(View()), clock, 0)
    {
      pool.locked := true;
      var head := pool.GetHead();
      if head == None {
        pool.locked := false;
        return;
      }
      var id, more := head.value, true;
      while more
        invariant Listed() && held == old(held) && pool.locked
        invariant more ==> pool.it < |pool.messages| && id == pool.messages[pool.it]
        invariant !more ==> pool.it == |pool.messages|
        invariant Collected(View(), clock, pool.it) == Collected(old(View()), clock, 0)
        decreases |pool.messages| - pool.it, more
      {
        LookAt(id, clock(pool.it));
        var next := pool.GetNext();
        if next == None {
          more := false;
        } else {
          id := next.value;
        }
      }
      pool.locked := false;
    }

    /** The body of the scan. */
    method LookAt(id: Id, r: Reading)
      requires id in pool.msgs
      modifies this`queue, pool`msgs
      ensures View() == Look(old(View()), id, r)
    {
      var m := pool.msgs[id];
      if m.state == Pending {
        pool.msgs := pool.msgs[id := m.(state := InUse)];
        if m.connection != NotSet {
          queue := queue + [id];
        }
      } else if m.state == Undelivered && m.socket != NO_SOCKET {
        pool.msgs := pool.msgs[id := m.(state := MarkForReuse)];
      } else if m.state == Undelivered {
        Resend(id, r);
      } else {
        assert pool.msgs == pool.msgs[id := m];
      }
    }

    method Resend(id: Id, r: Reading)
      requires id in pool.msgs
      modifies pool`msgs
      ensures pool.msgs == old(pool.msgs)[id := Resent(old(pool.msgs)[id], r)]
    {
      var m := pool.msgs[id];
      if m.retries != 0 && m.lastRetry + m.delay > r.check {
        assert pool.msgs == pool.msgs[id := m];
        return;
      }
      if m.lastRetry == 0 {
        m := m.(lastRetry := r.stamp, stamps := m.stamps + [r.stamp]);
        m := m.(retries := 1, state := Pending);
      } else if m.retries > MAX_MSG_RETRY - 1 {
        m := m.(state := MarkForReuse);
      } else {
        m := m.(lastRetry := r.stamp, stamps := m.stamps + [r.stamp]);
        m := m.(retries := m.retries + 1);
        m := m.(delay := m.delay + m.delay, state := Pending);
      }
      pool.msgs := pool.msgs[id := m];
    }

    /** Position of the highest priority; which one among equals is the container's choice. */
    method Top() returns (i: nat)
      requires queue != [] && forall k :: 0 <= k < |queue| ==> queue[k] in pool.msgs
      ensures IsTop(View(), i)
    {
      i := 0;
      var k := 1;
      while k < |queue|
        invariant i < k <= |queue|
        invariant forall h :: 0 <= h < k ==> pool.msgs[queue[h]].priority <= pool.msgs[queue[i]].priority
      {
        if pool.msgs[queue[k]].priority > pool.msgs[queue[i]].priority {
          i := k;
        }
        k := k + 1;
      }
    }

    method ProcessPriorityQueue() returns (id: Id, route: Route, ghost i: nat)
      requires queue != [] && Inv(View())
      modifies this
      ensures old(IsTop(View(), i)) && id == old(queue)[i] && View() == Popped(old(View()), i)
      ensures forall k :: 0 <= k < |old(queue)| ==>
                old(pool.msgs)[old(queue)[k]].priority <= old(pool.msgs)[id].priority
      ensures route != Nowhere
      ensures route == ToInternal <==> pool.msgs[id].connection == Internal
      ensures route == ToOutbound <==> pool.msgs[id].connection in {OutboundUdp, OutboundTcp}
      ensures route == ToInbound <==> pool.msgs[id].connection in {InboundUdp, InboundTcp}
    {
      var at := Top();
      i := at;
      id := queue[at];
      queue := queue[..at] + queue[at + 1..];
      held := held + {id};
      var c := pool.msgs[id].connection;
      route := if c == Internal then ToInternal
               else if c == OutboundUdp || c == OutboundTcp then ToOutbound
               else if c == InboundUdp || c == InboundTcp then ToInbound
               else Nowhere;
    }

    method FlushMessages(now: int)
      requires Listed() && NoDup(pool.messages) && Flush(View(), now).Some?
      modifies pool
      ensures View() == Flush(old(View()), now).value
    {
      pool.locked := true;
      pool.FlushFreeStack();
      var head := pool.GetHead();
      if head == None {
        pool.locked := false;
        return;
      }
      var id, more := head.value, true;
      while more
        invariant Listed() && NoDup(pool.messages) && pool.locked
        invariant more ==> pool.it < |pool.messages| && id == pool.messages[pool.it]
        invariant !more ==> pool.it == |pool.messages|
        invariant Flushed(View(), now, pool.it) == Flush(old(View()), now)
        decreases |pool.messages| - pool.it, more
      {
        FlushOne(id, now);
        var next := pool.GetNext();
        if next == None {
          more := false;
        } else {
          id := next.value;
        }
      }
      pool.locked := false;
    }

    /** The body of the flush; leaves the cursor where GetNext takes over. */
    method FlushOne(id: Id, now: int)
      requires Listed() && NoDup(pool.messages) && pool.it < |pool.messages| && id == pool.messages[pool.it]
      requires Flushed(View(), now, pool.it).Some?
      modifies pool`msgs, pool`messages, pool`freeStack, pool`it
      ensures Listed() && NoDup(pool.messages) && pool.it < |pool.messages|
      ensures |pool.messages| - pool.it <= old(|pool.messages| - pool.it)
      ensures Flushed(View(), now, pool.it + 1) == old(Flushed(View(), now, pool.it))
    {
      ghost var s := View();
      var was := pool.msgs[id];
      if was.state == Inactive || was.state == Delivered || was.state == Processed {
        pool.SetMsgState(id, MarkForReuse);
      }
      if was.state == Inactive && now - was.inUseSince > FLUSH_AGE {
        NoDupWithout(pool.messages, pool.it);
        pool.DeleteCurrent();
        pool.msgs := pool.msgs - {id};
        assert View() == Deleted(s, pool.it - 1);
      } else if pool.msgs[id].state == MarkForReuse {
        pool.ReturnToPool(id);
        assert View() == Returned(s, id);
      }
    }
  }
}
