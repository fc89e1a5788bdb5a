/** The message life cycle as a step system: who has which message, over every run. */
module Courier {
  import opened Msgs
  import opened Collections

  /** A `cMsg *`. */
  type Id = nat

  /** Every pooled message, the pool list, the free stack, the priority queue, and the messages that a creator or a
      handler has in hand. */
  datatype State = State(msgs: map<Id, Msg>, pool: seq<Id>, free: seq<Id>, queue: seq<Id>, held: set<Id>)

  const FLUSH_AGE: int := 60

  // ---------------------------------------------------------------- the steps

  /** GetReusableMessage: the top of the free stack, or a new message at an unused address. */
  function Reusable(s: State, unused: Id): (id: Id) {
    if s.free != [] then s.free[|s.free| - 1] else unused
  }

  function Created(s: State, unused: Id, now: int): (r: State) {
    var id := Reusable(s, unused);
    State(s.msgs[id := Reset(now).(state := InUse)],
          if s.free != [] then s.pool else s.pool + [id],
          if s.free != [] then s.free[..|s.free| - 1] else s.free,
          s.queue, s.held + {id})
  }

  function With(s: State, id: Id, m: Msg): (r: State) {
    s.(msgs := s.msgs[id := m])
  }

  function Look(s: State, id: Id, r: Reading): (t: State)
    requires id in s.msgs
  {
    var m := s.msgs[id];
    var t := With(s, id, Looked(m, r));
    if m.state == Pending && m.connection != NotSet then t.(queue := t.queue + [id]) else t
  }

  /** ProcessPendingMessages from pool position `i` on. */
  function Collected(s: State, clock: nat -> Reading, i: nat): (r: State)
    requires forall k :: i <= k < |s.pool| ==> s.pool[k] in s.msgs
    decreases |s.pool| - i
  {
    if i >= |s.pool| then s else Collected(Look(s, s.pool[i], clock(i)), clock, i + 1)
  }

  function Popped(s: State, i: nat): (r: State)
    requires i < |s.queue|
  {
    s.(queue := Without(s.queue, i), held := s.held + {s.queue[i]})
  }

  /** A message goes back from whoever has it. */
  function Released(s: State, id: Id, m: Msg): (r: State) {
    With(s, id, m).(held := s.held - {id})
  }

  predicate Reclaims(m: Msg) {
    m.state == Inactive || m.state == Delivered || m.state == Processed || m.state == MarkForReuse
  }

  predicate Expired(m: Msg, now: int) {
    m.state == Inactive && now - m.inUseSince > FLUSH_AGE
  }

  /** ReturnToPool. */
  function Returned(s: State, id: Id): (r: State)
    requires id in s.msgs
  {
    With(s, id, s.msgs[id].(state := Inactive)).(free := s.free + [id])
  }

  function Deleted(s: State, i: nat): (r: State)
    requires i < |s.pool|
  {
    s.(msgs := s.msgs - {s.pool[i]}, pool := Without(s.pool, i))
  }

  /** FlushMessages from pool position `i` on. Deleting moves the cursor three times, so two messages are passed over;
      within the last two positions the cursor would leave the list, which has no meaning. */
  function Flushed(s: State, now: int, i: nat): (r: Option<State>)
    requires NoDup(s.pool) && forall k :: 0 <= k < |s.pool| ==> s.pool[k] in s.msgs
    decreases |s.pool| - i
  {
    if i >= |s.pool| then Some(s)
    else if Expired(s.msgs[s.pool[i]], now) then
      if i + 3 > |s.pool| then None else Flushed(Deleted(s, i), now, i + 2)
    else if Reclaims(s.msgs[s.pool[i]]) then Flushed(Returned(s, s.pool[i]), now, i + 1)
    else Flushed(s, now, i + 1)
  }

  function Flush(s: State, now: int): (r: Option<State>)
    requires NoDup(s.pool) && forall k :: 0 <= k < |s.pool| ==> s.pool[k] in s.msgs
  {
    Flushed(s.(free := []), now, 0)
  }

  // ---------------------------------------------------------------- the invariant

  ghost predicate Pooled(s: State) {
    && NoDup(s.pool)
    && (forall k :: 0 <= k < |s.pool| ==> s.pool[k] in s.msgs)
    && (forall id :: id in s.msgs ==> id in s.pool)
  }

  ghost predicate FreeStack(s: State) {
    && NoDup(s.free)
    && (forall k :: 0 <= k < |s.free| ==> s.free[k] in s.msgs && s.msgs[s.free[k]].state == Inactive)
  }

  ghost predicate Queue(s: State) {
    && NoDup(s.queue)
    && (forall k :: 0 <= k < |s.queue| ==> s.queue[k] in s.msgs && s.queue[k] !in s.held
                                           && s.msgs[s.queue[k]].state == InUse
                                           && s.msgs[s.queue[k]].connection != NotSet)
  }

  ghost predicate Hands(s: State) {
    && (forall id :: id in s.held ==> id in s.msgs && s.msgs[id].state == InUse)
    && (forall id :: id in s.msgs && s.msgs[id].state == InUse ==> id in s.queue || id in s.held)
  }

  ghost predicate Sound(m: Msg) {
    Backoff(m) && (m.state == Pending || m.state == Undelivered ==> m.connection != NotSet)
  }

  ghost predicate AllSound(s: State) {
    forall id :: id in s.msgs ==> Sound(s.msgs[id])
  }

  /** In every reachable state each message is in one place, and its state says which. */
  ghost predicate Inv(s: State) {
    Pooled(s) && FreeStack(s) && Queue(s) && Hands(s) && AllSound(s)
  }

  // ---------------------------------------------------------------- every step keeps it

  /** GetMessage never gives out a message that anybody has. */
  lemma {:induction false} ReusableIsIdle(s: State, unused: Id)
    requires Inv(s) && unused !in s.msgs
    ensures var id := Reusable(s, unused);
            id !in s.queue && id !in s.held && (id in s.msgs ==> s.msgs[id].state == Inactive)
  {
  }

  /** The message that came back last is given out first. */
  lemma {:induction false} LastReturnedFirst(s: State, id: Id, unused: Id)
    requires id in s.msgs
    ensures Reusable(Returned(s, id), unused) == id
    ensures Created(Returned(s, id), unused, 0).free == s.free
  {
  }

  lemma {:induction false} TakeKeeps(s: State, id: Id, m: Msg, free: seq<Id>)
    requires Inv(s) && id in s.msgs && s.msgs[id].state == Inactive && s.free == free + [id] && Sound(m)
          && m.state == InUse
    ensures Inv(State(s.msgs[id := m], s.pool, free, s.queue, s.held + {id}))
  {
    assert forall k :: 0 <= k < |free| ==> free[k] == s.free[k];
    assert s.free[|free|] == id;
  }

  lemma {:induction false} NewKeeps(s: State, id: Id, m: Msg)
    requires Inv(s) && id !in s.msgs && Sound(m) && m.state == InUse
    ensures Inv(State(s.msgs[id := m], s.pool + [id], s.free, s.queue, s.held + {id}))
  {
    NoDupPush(s.pool, id);
  }

  lemma {:induction false} CreateKeeps(s: State, unused: Id, now: int)
    requires Inv(s) && unused !in s.msgs
    ensures Inv(Created(s, unused, now))
  {
    var id, m := Reusable(s, unused), Reset(now).(state := InUse);
    if s.free == [] {
      NewKeeps(s, id, m);
    } else {
      TakeKeeps(s, id, m, s.free[..|s.free| - 1]);
    }
  }

  /** A message nobody has may change as long as it stays that way. */
  lemma {:induction false} ChangeKeeps(s: State, id: Id, m: Msg)
    requires Inv(s) && id in s.msgs && s.msgs[id].state != InUse && Sound(m) && m.state != InUse
    requires m.state == Inactive || id !in s.free
    ensures Inv(With(s, id, m))
  {
  }

  lemma {:induction false} EnqueueKeeps(s: State, id: Id, m: Msg)
    requires Inv(s) && id in s.msgs && s.msgs[id].state == Pending && Sound(m) && m.state == InUse
    requires m.connection != NotSet
    ensures Inv(With(s, id, m).(queue := s.queue + [id]))
  {
    NoDupPush(s.queue, id);
  }

  lemma {:induction false} LookKeeps(s: State, id: Id, r: Reading)
    requires Inv(s) && id in s.msgs && Running(r)
    ensures Inv(Look(s, id, r)) && Look(s, id, r).pool == s.pool
  {
    var m := s.msgs[id];
    LookedKeepsBackoff(m, r);
    if m.state == Pending {
      EnqueueKeeps(s, id, Looked(m, r));
    } else if m.state == Undelivered {
      ChangeKeeps(s, id, Looked(m, r));
    } else {
      assert s.msgs[id := m] == s.msgs;
    }
  }

  lemma {:induction false} LookNext(s: State, clock: nat -> Reading, i: nat) returns (t: State)
    requires Inv(s) && i < |s.pool| && Running(clock(i))
    ensures Inv(t) && t.pool == s.pool && Collected(t, clock, i + 1) == Collected(s, clock, i)
  {
    LookKeeps(s, s.pool[i], clock(i));
    t := Look(s, s.pool[i], clock(i));
  }

  lemma {:induction false} CollectKeeps(s: State, clock: nat -> Reading)
    requires Inv(s) && forall k :: Running(clock(k))
    ensures Inv(Collected(s, clock, 0))
  {
    var t, i := s, 0;
    while i < |t.pool|
      invariant Inv(t) && Collected(t, clock, i) == Collected(s, clock, 0)
      decreases |t.pool| - i
    {
      t := LookNext(t, clock, i);
      i := i + 1;
    }
  }

  lemma {:induction false} PopKeeps(s: State, i: nat)
    requires Inv(s) && i < |s.queue|
    ensures Inv(Popped(s, i))
  {
    NoDupWithout(s.queue, i);
  }

  lemma {:induction false} ReleaseKeeps(s: State, id: Id, m: Msg)
    requires Inv(s) && id in s.held && Sound(m) && m.state != InUse
    ensures Inv(Released(s, id, m))
  {
  }

  // ---------------------------------------------------------------- flushing

  /** Nothing on the stack waits at or behind the cursor. */
  ghost predicate Behind(s: State, i: nat) {
    forall k :: i <= k < |s.pool| ==> s.pool[k] !in s.free
  }

  lemma {:induction false} ReturnKeeps(s: State, i: nat)
    requires Inv(s) && i < |s.pool| && Behind(s, i) && Reclaims(s.msgs[s.pool[i]])
    ensures Inv(Returned(s, s.pool[i])) && Behind(Returned(s, s.pool[i]), i + 1)
  {
    var id := s.pool[i];
    var m := s.msgs[id].(state := Inactive);
    ChangeKeeps(s, id, m);
    PushFreeKeeps(With(s, id, m), id);
  }

  lemma {:induction false} PushFreeKeeps(s: State, id: Id)
    requires Inv(s) && id in s.msgs && s.msgs[id].state == Inactive && id !in s.free
    ensures Inv(s.(free := s.free + [id]))
  {
    NoDupPush(s.free, id);
  }

  lemma {:induction false} DeletePooled(s: State, i: nat)
    requires Pooled(s) && i < |s.pool|
    ensures Pooled(Deleted(s, i))
  {
    NoDupWithout(s.pool, i);
  }

  /** A deleted message was in nobody's hands, not queued and not on the stack. */
  lemma {:induction false} DeleteKeeps(s: State, i: nat)
    requires Inv(s) && i < |s.pool| && Behind(s, i) && s.msgs[s.pool[i]].state == Inactive
    ensures s.pool[i] !in s.free && s.pool[i] !in s.queue && s.pool[i] !in s.held
    ensures Inv(Deleted(s, i)) && Behind(Deleted(s, i), i)
  {
    DeletePooled(s, i);
  }

  /** The state behind one message of a scan. */
  function NextState(t: State, now: int, i: nat): (u: State)
    requires i < |t.pool| && t.pool[i] in t.msgs
  {
    var id := t.pool[i];
    if Expired(t.msgs[id], now) then Deleted(t, i) else if Reclaims(t.msgs[id]) then Returned(t, id) else t
  }

  /** Where the cursor stands then. */
  function NextCursor(t: State, now: int, i: nat): (j: nat)
    requires i < |t.pool| && t.pool[i] in t.msgs
  {
    if Expired(t.msgs[t.pool[i]], now) then i + 2 else i + 1
  }

  lemma {:induction false} FlushNext(s: State, now: int, i: nat, t: State, j: nat)
    requires Inv(s) && Behind(s, i) && i < |s.pool| && Flushed(s, now, i).Some?
    requires t == NextState(s, now, i) && j == NextCursor(s, now, i)
    ensures Inv(t) && Behind(t, j) && Flushed(t, now, j) == Flushed(s, now, i)
    ensures |t.pool| - j < |s.pool| - i
  {
    var id := s.pool[i];
    if Expired(s.msgs[id], now) {
      DeleteKeeps(s, i);
    } else if Reclaims(s.msgs[id]) {
      ReturnKeeps(s, i);
    }
  }

  lemma {:induction false} EmptyStackKeeps(s: State)
    requires Inv(s)
    ensures Inv(s.(free := [])) && Behind(s.(free := []), 0)
  {
  }

  lemma {:induction false} FlushKeeps(s: State, now: int)
    requires Inv(s) && Flush(s, now).Some?
    ensures Inv(Flush(s, now).value)
  {
    EmptyStackKeeps(s);
    var t, i: nat := s.(free := []), 0;
    while i < |t.pool|
      invariant Inv(t) && Behind(t, i) && Flushed(t, now, i) == Flush(s, now)
      decreases |t.pool| - i
    {
      var u, j := NextState(t, now, i), NextCursor(t, now, i);
      FlushNext(t, now, i, u, j);
      t, i := u, j;
    }
  }

  // ---------------------------------------------------------------- what a flush visits

  predicate ExpiredAt(s: State, now: int, p: nat) {
    && p < |s.pool| && s.pool[p] in s.msgs
    && s.msgs[s.pool[p]].state == Inactive && now - s.msgs[s.pool[p]].inUseSince > 60
  }

  predicate InactiveAt(s: State, p: nat) {
    p < |s.pool| && s.pool[p] in s.msgs && s.msgs[s.pool[p]].state == Inactive
  }

  /** In the pool as it was before the flush, the scan goes from position `p` to the next, or three further when it
      deletes there. */
  function After(s: State, now: int, p: nat): (q: nat)
    ensures q > p
  {
    if ExpiredAt(s, now, p) then p + 3 else p + 1
  }

  /** A scan that stands at `from` comes to `p`. */
  predicate Visits(s: State, now: int, from: nat, p: nat)
    decreases if from <= p then p - from + 1 else 0
  {
    from <= p < |s.pool| && (from == p || Visits(s, now, After(s, now, from), p))
  }

  /** Behind every deletion there are two more messages for the cursor to pass over. */
  ghost predicate DefinedFrom(s: State, now: int, from: nat) {
    forall p: nat :: Visits(s, now, from, p) && ExpiredAt(s, now, p) ==> p + 3 <= |s.pool|
  }

  /** No deletion passes over an inactive message. */
  ghost predicate NoStrayFrom(s: State, now: int, from: nat) {
    forall p: nat :: Visits(s, now, from, p) && ExpiredAt(s, now, p) ==> !InactiveAt(s, p + 1) && !InactiveAt(s, p + 2)
  }

  lemma {:induction false} DefinedStep(s: State, now: int, p: nat)
    requires p < |s.pool|
    ensures DefinedFrom(s, now, p)
            <==> (ExpiredAt(s, now, p) ==> p + 3 <= |s.pool|) && DefinedFrom(s, now, After(s, now, p))
  {
    assert Visits(s, now, p, p);
    assert forall q: nat :: Visits(s, now, p, q) <==> q == p || Visits(s, now, After(s, now, p), q);
  }

  lemma {:induction false} NoStrayStep(s: State, now: int, p: nat)
    requires p < |s.pool|
    ensures NoStrayFrom(s, now, p)
            <==> (ExpiredAt(s, now, p) ==> !InactiveAt(s, p + 1) && !InactiveAt(s, p + 2))
                 && NoStrayFrom(s, now, After(s, now, p))
  {
    assert Visits(s, now, p, p);
    assert forall q: nat :: Visits(s, now, p, q) <==> q == p || Visits(s, now, After(s, now, p), q);
  }

  /** From `i` on the scan still has the messages that `s` had from `p` on, untouched. */
  ghost predicate Aligned(s: State, t: State, i: nat, p: nat) {
    && p <= |s.pool| && i <= |t.pool| && |t.pool| - i == |s.pool| - p
    && forall h :: p <= h < |s.pool| ==> SameAt(s, t, s.pool[h], h - p + i)
  }

  ghost predicate SameAt(s: State, t: State, id: Id, k: int) {
    0 <= k < |t.pool| && t.pool[k] == id && id in s.msgs && id in t.msgs && t.msgs[id] == s.msgs[id]
  }

  lemma {:induction false} AlignedReturn(s: State, t: State, i: nat, p: nat)
    requires Aligned(s, t, i, p) && Pooled(s) && Pooled(t) && p < |s.pool|
    ensures Aligned(s, Returned(t, t.pool[i]), i + 1, p + 1)
  {
    var u, id := Returned(t, t.pool[i]), t.pool[i];
    forall h | p + 1 <= h < |s.pool| ensures SameAt(s, u, s.pool[h], h - (p + 1) + (i + 1)) {
      assert SameAt(s, t, s.pool[h], h - p + i);
    }
  }

  lemma {:induction false} AlignedDelete(s: State, t: State, i: nat, p: nat)
    requires Aligned(s, t, i, p) && Pooled(s) && Pooled(t) && p + 3 <= |s.pool|
    ensures Aligned(s, Deleted(t, i), i + 2, p + 3)
  {
    var u := Deleted(t, i);
    forall h | p + 3 <= h < |s.pool| ensures SameAt(s, u, s.pool[h], h - (p + 3) + (i + 2)) {
      assert SameAt(s, t, s.pool[h], h - p + i) && h - p + i != i;
      assert u.pool[h - p + i - 1] == t.pool[h - p + i];
    }
  }

  lemma {:induction false} AlignedKeep(s: State, t: State, i: nat, p: nat)
    requires Aligned(s, t, i, p) && p < |s.pool|
    ensures SameAt(s, t, s.pool[p], i) && Aligned(s, t, i + 1, p + 1)
  {
    assert SameAt(s, t, s.pool[p], p - p + i);
    forall h | p + 1 <= h < |s.pool| ensures SameAt(s, t, s.pool[h], h - (p + 1) + (i + 1)) {
      assert SameAt(s, t, s.pool[h], h - p + i);
    }
  }

  /** Nothing before position `i` is inactive but off the stack. */
  ghost predicate TidyUpTo(t: State, i: nat) {
    forall k :: 0 <= k < i && k < |t.pool| && t.pool[k] in t.msgs && t.msgs[t.pool[k]].state == Inactive ==>
      t.pool[k] in t.free
  }

  lemma {:induction false} TidyReturn(t: State, i: nat)
    requires Pooled(t) && i < |t.pool|
    ensures TidyUpTo(Returned(t, t.pool[i]), i + 1) <==> TidyUpTo(t, i)
  {
    var u, id := Returned(t, t.pool[i]), t.pool[i];
    if TidyUpTo(u, i + 1) {
      forall k | 0 <= k < i && t.msgs[t.pool[k]].state == Inactive ensures t.pool[k] in t.free {
        assert u.pool[k] in u.free && t.pool[k] != id;
      }
    }
  }

  lemma {:induction false} TidyDelete(t: State, i: nat)
    requires Pooled(t) && i + 3 <= |t.pool| && Behind(t, i)
    ensures TidyUpTo(Deleted(t, i), i + 2)
            <==> TidyUpTo(t, i) && !InactiveAt(t, i + 1) && !InactiveAt(t, i + 2)
  {
    var u := Deleted(t, i);
    assert u.pool[i] == t.pool[i + 1] && u.pool[i + 1] == t.pool[i + 2];
    assert t.pool[i + 1] !in t.free && t.pool[i + 2] !in t.free;
    forall k | 0 <= k < i
      ensures u.pool[k] == t.pool[k] && t.pool[k] in u.msgs && u.msgs[t.pool[k]] == t.msgs[t.pool[k]]
    {
      assert t.pool[k] != t.pool[i];
    }
  }

  /** `u` at `j` is where the scan of `t` at `i` comes to when `s` has position `p` there. */
  ghost predicate Advanced(s: State, t: State, now: int, i: nat, p: nat, u: State, j: nat)
    requires Pooled(t) && Pooled(u)
  {
    && Behind(u, j) && Aligned(s, u, j, After(s, now, p)) && Flushed(u, now, j) == Flushed(t, now, i)
    && (TidyUpTo(u, j)
        <==> TidyUpTo(t, i) && (ExpiredAt(s, now, p) ==> !InactiveAt(s, p + 1) && !InactiveAt(s, p + 2)))
  }

  lemma {:induction false} AdvanceDelete(s: State, t: State, now: int, i: nat, p: nat, u: State)
    requires Pooled(s) && Inv(t) && Behind(t, i) && Aligned(s, t, i, p) && p + 3 <= |s.pool|
    requires ExpiredAt(s, now, p) && u == Deleted(t, i)
    ensures Inv(u) && Advanced(s, t, now, i, p, u, i + 2)
  {
    AlignedKeep(s, t, i, p);
    DeleteKeeps(t, i);
    AlignedDelete(s, t, i, p);
    TidyDelete(t, i);
    InactiveSame(s, t, i, p, 1);
    InactiveSame(s, t, i, p, 2);
    DeleteStep(t, now, i);
  }

  lemma {:induction false} DeleteStep(t: State, now: int, i: nat)
    requires Pooled(t) && ExpiredAt(t, now, i) && i + 3 <= |t.pool| && Pooled(Deleted(t, i))
    ensures Flushed(Deleted(t, i), now, i + 2) == Flushed(t, now, i)
  {
  }

  lemma {:induction false} InactiveSame(s: State, t: State, i: nat, p: nat, d: nat)
    requires Aligned(s, t, i, p) && p + d < |s.pool|
    ensures InactiveAt(s, p + d) <==> InactiveAt(t, i + d)
  {
    assert SameAt(s, t, s.pool[p + d], p + d - p + i);
  }

  lemma {:induction false} ReturnStep(t: State, now: int, i: nat, u: State)
    requires Pooled(t) && i < |t.pool| && !ExpiredAt(t, now, i) && Reclaims(t.msgs[t.pool[i]])
    requires u == Returned(t, t.pool[i])
    ensures Pooled(u) && Flushed(u, now, i + 1) == Flushed(t, now, i)
  {
  }

  lemma {:induction false} ExpiredSame(s: State, t: State, now: int, i: nat, p: nat)
    requires Aligned(s, t, i, p) && p < |s.pool|
    ensures ExpiredAt(s, now, p) <==> ExpiredAt(t, now, i)
  {
    AlignedKeep(s, t, i, p);
  }

  lemma {:induction false} AdvanceReturn(s: State, t: State, now: int, i: nat, p: nat, u: State)
    requires Pooled(s) && Inv(t) && Behind(t, i) && Aligned(s, t, i, p) && p < |s.pool| && u == Returned(t, t.pool[i])
    requires !ExpiredAt(s, now, p) && Reclaims(t.msgs[t.pool[i]])
    ensures Inv(u) && Advanced(s, t, now, i, p, u, i + 1)
  {
    ExpiredSame(s, t, now, i, p);
    ReturnStep(t, now, i, u);
    TidyReturn(t, i);
    AlignedReturn(s, t, i, p);
    ReturnKeeps(t, i);
  }

  lemma {:induction false} KeepStep(t: State, now: int, i: nat)
    requires Pooled(t) && i < |t.pool| && !Reclaims(t.msgs[t.pool[i]])
    ensures Flushed(t, now, i + 1) == Flushed(t, now, i) && (TidyUpTo(t, i + 1) <==> TidyUpTo(t, i))
    ensures Behind(t, i) ==> Behind(t, i + 1)
  {
    if TidyUpTo(t, i) {
      forall k | 0 <= k < i + 1 && t.msgs[t.pool[k]].state == Inactive ensures t.pool[k] in t.free {
        assert k != i;
      }
    }
  }

  lemma {:induction false} AdvanceKeep(s: State, t: State, now: int, i: nat, p: nat)
    requires Pooled(s) && Pooled(t) && Behind(t, i) && Aligned(s, t, i, p) && p < |s.pool|
    requires !ExpiredAt(s, now, p) && !Reclaims(t.msgs[t.pool[i]])
    ensures Advanced(s, t, now, i, p, t, i + 1)
  {
    KeepStep(t, now, i);
    AlignedKeep(s, t, i, p);
  }

  /** One message of the scan. */
  lemma {:induction false} FlushAdvance(s: State, t: State, now: int, i: nat, p: nat, u: State, j: nat)
    requires Pooled(s) && Inv(t) && Behind(t, i) && Aligned(s, t, i, p) && p < |s.pool|
    requires ExpiredAt(s, now, p) ==> p + 3 <= |s.pool|
    requires i < |t.pool| && t.pool[i] in t.msgs && u == NextState(t, now, i) && j == NextCursor(t, now, i)
    ensures Inv(u) && Advanced(s, t, now, i, p, u, j)
  {
    ExpiredSame(s, t, now, i, p);
    if ExpiredAt(s, now, p) {
      AdvanceDelete(s, t, now, i, p, u);
    } else if Reclaims(t.msgs[t.pool[i]]) {
      AdvanceReturn(s, t, now, i, p, u);
    } else {
      AdvanceKeep(s, t, now, i, p);
    }
  }

  lemma {:induction false} FlushStuck(s: State, t: State, now: int, i: nat, p: nat)
    requires Pooled(t) && Aligned(s, t, i, p) && ExpiredAt(s, now, p) && p + 3 > |s.pool|
    ensures Flushed(t, now, i) == None
  {
    AlignedKeep(s, t, i, p);
  }

  /** The scan of `t` from `i` on and of `s` from `p` on delete at the same messages. */
  lemma {:induction false} FlushedDefined(s: State, t: State, now: int, i: nat, p: nat)
    requires Pooled(s) && Inv(t) && Behind(t, i) && Aligned(s, t, i, p)
    ensures Flushed(t, now, i).Some? <==> DefinedFrom(s, now, p)
    decreases |s.pool| - p
  {
    if p < |s.pool| {
      DefinedStep(s, now, p);
      if ExpiredAt(s, now, p) && p + 3 > |s.pool| {
        FlushStuck(s, t, now, i, p);
      } else {
        AlignedKeep(s, t, i, p);
        var u, j := NextState(t, now, i), NextCursor(t, now, i);
        FlushAdvance(s, t, now, i, p, u, j);
        FlushedDefined(s, u, now, j, After(s, now, p));
      }
    }
  }

  lemma {:induction false} FlushedTidy(s: State, t: State, now: int, i: nat, p: nat)
    requires Pooled(s) && Inv(t) && Behind(t, i) && Aligned(s, t, i, p) && Flushed(t, now, i).Some?
    ensures Tidy(Flushed(t, now, i).value) <==> TidyUpTo(t, i) && NoStrayFrom(s, now, p)
    decreases |s.pool| - p
  {
    if p < |s.pool| {
      NoStrayStep(s, now, p);
      FlushedDefined(s, t, now, i, p);
      DefinedStep(s, now, p);
      AlignedKeep(s, t, i, p);
      var u, j := NextState(t, now, i), NextCursor(t, now, i);
      FlushAdvance(s, t, now, i, p, u, j);
      FlushedTidy(s, u, now, j, After(s, now, p));
    } else {
      TidyAll(t);
    }
  }

  lemma {:induction false} TidyAll(t: State)
    requires Pooled(t)
    ensures Tidy(t) <==> TidyUpTo(t, |t.pool|)
  {
    if TidyUpTo(t, |t.pool|) {
      forall id | id in t.msgs && t.msgs[id].state == Inactive ensures id in t.free {
        var k :| 0 <= k < |t.pool| && t.pool[k] == id;
      }
    }
  }

  lemma {:induction false} AlignedStart(s: State)
    requires Inv(s)
    ensures Aligned(s, s.(free := []), 0, 0)
  {
    forall h | 0 <= h < |s.pool| ensures SameAt(s, s.(free := []), s.pool[h], h - 0 + 0) {
    }
  }

  /** A flush is defined exactly when every message it deletes has two more behind it. */
  lemma {:induction false} FlushDefinedIff(s: State, now: int)
    requires Inv(s)
    ensures Flush(s, now).Some? <==> DefinedFrom(s, now, 0)
  {
    EmptyStackKeeps(s);
    AlignedStart(s);
    FlushedDefined(s, s.(free := []), now, 0, 0);
  }

  /** After a defined flush every inactive message is on the stack exactly when no deletion passed one over. */
  lemma {:induction false} FlushTidyIff(s: State, now: int)
    requires Inv(s) && Flush(s, now).Some?
    ensures Tidy(Flush(s, now).value) <==> NoStrayFrom(s, now, 0)
  {
    EmptyStackKeeps(s);
    AlignedStart(s);
    FlushedTidy(s, s.(free := []), now, 0, 0);
  }

  /** `id` is not among the messages that a scan has still to come to. */
  ghost predicate Past(t: State, i: nat, id: Id) {
    forall k :: i <= k < |t.pool| ==> t.pool[k] != id
  }

  /** Two states have `id` alike. */
  ghost predicate Alike(t: State, u: State, id: Id) {
    && (id in u.msgs <==> id in t.msgs) && (id in u.free <==> id in t.free)
    && (id in t.msgs ==> id in u.msgs && u.msgs[id] == t.msgs[id])
  }

  lemma {:induction false} NextOthers(t: State, now: int, i: nat, id: Id)
    requires Pooled(t) && i < |t.pool| && t.pool[i] != id
    ensures Alike(t, NextState(t, now, i), id)
  {
  }

  lemma {:induction false} NextPast(t: State, now: int, i: nat, id: Id)
    requires Pooled(t) && i < |t.pool| && Past(t, i, id)
    ensures Past(NextState(t, now, i), NextCursor(t, now, i), id)
  {
    var u, j := NextState(t, now, i), NextCursor(t, now, i);
    forall k | j <= k < |u.pool| ensures u.pool[k] != id {
      assert u.pool[k] == t.pool[k] || u.pool[k] == t.pool[k + 1];
    }
  }

  /** The rest of a scan does not concern a message that is not in it. */
  lemma {:induction false} FlushedOthers(t: State, now: int, i: nat, id: Id)
    requires Inv(t) && Behind(t, i) && Flushed(t, now, i).Some? && Past(t, i, id)
    ensures Alike(t, Flushed(t, now, i).value, id)
    decreases |t.pool| - i
  {
    if i < |t.pool| {
      var u, j := NextState(t, now, i), NextCursor(t, now, i);
      FlushNext(t, now, i, u, j);
      NextOthers(t, now, i, id);
      NextPast(t, now, i, id);
      FlushedOthers(u, now, j, id);
    }
  }

  /** What a flush leaves of the message that was at position `p`, when it visited that position or did not. */
  ghost predicate FlushLeft(s: State, r: State, now: int, p: nat, visited: bool)
    requires p < |s.pool| && s.pool[p] in s.msgs
  {
    var id, m := s.pool[p], s.msgs[s.pool[p]];
    if visited && m.state == Inactive && now - m.inUseSince > 60 then id !in r.msgs
    else if visited && m.state in {Inactive, Delivered, Processed, MarkForReuse} then
      id in r.msgs && r.msgs[id] == m.(state := Inactive) && id in r.free
    else
      id in r.msgs && r.msgs[id] == m && id !in r.free
  }

  /** The message in hand: deleted, returned or left, for good. */
  lemma {:induction false} FlushedHere(s: State, t: State, now: int, i: nat, p: nat)
    requires Pooled(s) && Inv(t) && Behind(t, i) && Aligned(s, t, i, p) && Flushed(t, now, i).Some? && p < |s.pool|
    ensures s.pool[p] in s.msgs && FlushLeft(s, Flushed(t, now, i).value, now, p, true)
  {
    AlignedKeep(s, t, i, p);
    var id := s.pool[p];
    var u, j := NextState(t, now, i), NextCursor(t, now, i);
    FlushNext(t, now, i, u, j);
    NextLeaves(t, now, i);
    FlushedOthers(u, now, j, id);
  }

  lemma {:induction false} NextLeaves(t: State, now: int, i: nat)
    requires Inv(t) && Behind(t, i) && i < |t.pool|
    ensures var u, j := NextState(t, now, i), NextCursor(t, now, i);
            Past(u, j, t.pool[i]) && FlushLeft(t, u, now, i, true)
  {
    var u, j := NextState(t, now, i), NextCursor(t, now, i);
    forall k | j <= k < |u.pool| ensures u.pool[k] != t.pool[i] {
      assert u.pool[k] == t.pool[k] || u.pool[k] == t.pool[k + 1];
    }
  }

  /** A message that a deletion passes over: left, for good, and off the stack. */
  lemma {:induction false} FlushedOver(s: State, t: State, now: int, i: nat, p: nat, d: nat)
    requires Pooled(s) && Inv(t) && Behind(t, i) && Aligned(s, t, i, p) && Flushed(t, now, i).Some?
    requires ExpiredAt(s, now, p) && 1 <= d <= 2 && p + d < |s.pool|
    ensures s.pool[p + d] in s.msgs && FlushLeft(s, Flushed(t, now, i).value, now, p + d, false)
  {
    AlignedKeep(s, t, i, p);
    ExpiredSame(s, t, now, i, p);
    assert SameAt(s, t, s.pool[p + d], p + d - p + i);
    var id := s.pool[p + d];
    var u, j := NextState(t, now, i), NextCursor(t, now, i);
    FlushNext(t, now, i, u, j);
    NextOthers(t, now, i, id);
    OverPast(t, now, i, d);
    FlushedOthers(u, now, j, id);
  }

  lemma {:induction false} OverPast(t: State, now: int, i: nat, d: nat)
    requires Pooled(t) && 1 <= d <= 2 && i + d < |t.pool| && ExpiredAt(t, now, i)
    ensures Past(NextState(t, now, i), NextCursor(t, now, i), t.pool[i + d])
  {
    var u := NextState(t, now, i);
    forall k | i + 2 <= k < |u.pool| ensures u.pool[k] != t.pool[i + d] {
      assert u.pool[k] == t.pool[k + 1];
    }
  }

  lemma {:induction false} FlushedOutcome(s: State, t: State, now: int, i: nat, p: nat, h: nat)
    requires Pooled(s) && Inv(t) && Behind(t, i) && Aligned(s, t, i, p) && Flushed(t, now, i).Some? && p <= h < |s.pool|
    ensures s.pool[h] in s.msgs && FlushLeft(s, Flushed(t, now, i).value, now, h, Visits(s, now, p, h))
    decreases |s.pool| - p
  {
    if h == p {
      FlushedHere(s, t, now, i, p);
    } else if h < After(s, now, p) {
      assert !Visits(s, now, p, h);
      FlushedOver(s, t, now, i, p, h - p);
    } else {
      FlushedDefined(s, t, now, i, p);
      DefinedStep(s, now, p);
      AlignedKeep(s, t, i, p);
      var u, j := NextState(t, now, i), NextCursor(t, now, i);
      FlushAdvance(s, t, now, i, p, u, j);
      FlushedOutcome(s, u, now, j, After(s, now, p), h);
    }
  }

  /** What a defined flush does to every message, deletions included, said of the pool as it was. */
  lemma {:induction false} FlushOutcomes(s: State, now: int, p: nat)
    requires Inv(s) && Flush(s, now).Some? && p < |s.pool|
    ensures s.pool[p] in s.msgs && FlushLeft(s, Flush(s, now).value, now, p, Visits(s, now, 0, p))
  {
    EmptyStackKeeps(s);
    AlignedStart(s);
    FlushedOutcome(s, s.(free := []), now, 0, 0, p);
  }

  /** One reusable message, older than a minute: deleting it takes the cursor off the list. */
  lemma {:induction false} FlushUndefinedWitness(s: State)
    requires s == State(map[0 := Reset(0)], [0], [0], [], {})
    ensures Inv(s) && Flush(s, 100) == None
  {
    assert s.msgs[0] == Reset(0);
  }

  /** Three of them: deleting the first passes the other two over, which is defined but leaves them off the stack. */
  lemma {:induction false} FlushStrayWitness(s: State, m: Msg)
    requires m == Reset(0) && s == State(map[0 := m, 1 := m, 2 := m], [0, 1, 2], [0, 1, 2], [], {})
    ensures Inv(s) && Flush(s, 100).Some? && !Tidy(Flush(s, 100).value)
  {
    ThreeFree(s, m);
    EmptyStackKeeps(s);
    PassedOver(s.(free := []), m);
  }

  lemma {:induction false} ThreeFree(s: State, m: Msg)
    requires Sound(m) && m.state == Inactive
    requires s == State(map[0 := m, 1 := m, 2 := m], [0, 1, 2], [0, 1, 2], [], {})
    ensures Inv(s)
  {
    assert s.pool[0] == s.free[0] == 0 && s.pool[1] == s.free[1] == 1 && s.pool[2] == s.free[2] == 2;
  }

  lemma {:induction false} PassedOver(t: State, m: Msg)
    requires Pooled(t) && t.pool == [0, 1, 2] && t.free == [] && 0 in t.msgs && 1 in t.msgs
    requires t.msgs[0] == t.msgs[1] == m && Expired(m, 100)
    ensures Flushed(t, 100, 0).Some? && !Tidy(Flushed(t, 100, 0).value)
  {
    var u := Deleted(t, 0);
    DeletePooled(t, 0);
    assert t.pool[0] == 0 && t.pool[1] == 1 && |u.pool| == 2;
    assert Flushed(t, 100, 0) == Flushed(u, 100, 2) == Some(u);
    assert u.msgs[1].state == Inactive;
  }

  /** What a flush has done up to position `i`, when nothing is old enough to be deleted. */
  ghost predicate Swept(s: State, t: State, i: nat) {
    && t.pool == s.pool && Pooled(s) && Pooled(t)
    && forall k :: 0 <= k < |s.pool| ==> SweptOne(s, t, k < i, s.pool[k])
  }

  ghost predicate SweptOne(s: State, t: State, done: bool, id: Id) {
    && id in s.msgs && id in t.msgs
    && if done && s.msgs[id].state in {Inactive, Delivered, Processed, MarkForReuse} then
         id in t.free && t.msgs[id] == s.msgs[id].(state := Inactive)
       else t.msgs[id] == s.msgs[id]
  }

  lemma {:induction false} SweepNext(s: State, t: State, now: int, i: nat) returns (u: State)
    requires Swept(s, t, i) && i < |s.pool| && !Expired(s.msgs[s.pool[i]], now)
    ensures Swept(s, u, i + 1) && Flushed(u, now, i + 1) == Flushed(t, now, i)
  {
    var id := s.pool[i];
    assert t.pool[i] == id;
    u := if Reclaims(t.msgs[id]) then Returned(t, id) else t;
    forall k | 0 <= k < |s.pool| ensures SweptOne(s, u, k < i + 1, s.pool[k]) {
      assert SweptOne(s, t, k < i, s.pool[k]) && (k != i ==> s.pool[k] != id);
    }
  }

  /** With nothing old enough to be deleted a flush is defined, every message that can be reused is on the stack
      afterwards, and every other one is as it was. */
  lemma {:induction false} FlushReclaims(s: State, now: int)
    requires Inv(s)
    requires forall id :: id in s.msgs ==> !(s.msgs[id].state == Inactive && now - s.msgs[id].inUseSince > 60)
    ensures Flush(s, now).Some? && Swept(s, Flush(s, now).value, |s.pool|)
  {
    var t, i: nat := s.(free := []), 0;
    while i < |s.pool|
      invariant i <= |s.pool| && Swept(s, t, i) && Flushed(t, now, i) == Flush(s, now)
    {
      t := SweepNext(s, t, now, i);
      i := i + 1;
    }
  }

  // ---------------------------------------------------------------- runs

  datatype Step =
    | Create(unused: Id, now: int)
    | Edit(id: Id, socket: int, connection: ConnectionType, priority: int)
    | Dispatch(id: Id)
    | Collect(clock: nat -> Reading)
    | Pop(at: nat)
    | Release(id: Id, state: MsgState)
    | FlushAll(now: int)

  /** The top of a priority queue: no message in it ranks higher. */
  predicate IsTop(s: State, i: nat)
    requires forall k :: 0 <= k < |s.queue| ==> s.queue[k] in s.msgs
  {
    i < |s.queue| && forall k :: 0 <= k < |s.queue| ==> s.msgs[s.queue[k]].priority <= s.msgs[s.queue[i]].priority
  }

  /** What the surroundings promise: only the holder touches a message, handlers finish it once, the clock runs. */
  ghost predicate Enabled(s: State, step: Step)
    requires Inv(s)
  {
    match step
    case Create(unused, _) => unused !in s.msgs
    case Edit(id, _, _, _) => id in s.held
    case Dispatch(id) => id in s.held
    case Collect(clock) => forall k :: Running(clock(k))
    case Pop(i) => IsTop(s, i)
    case Release(id, state) =>
      && id in s.held
      && (state == Delivered || state == Processed || state == MarkForReuse
          || (state == Undelivered && s.msgs[id].connection != NotSet))
    case FlushAll(now) => Flush(s, now).Some?
  }

  function Edited(m: Msg, socket: int, connection: ConnectionType, priority: int): (r: Msg) {
    m.(socket := socket, connection := connection, priority := priority)
  }

  ghost function Next(s: State, step: Step): (t: State)
    requires Inv(s) && Enabled(s, step)
  {
    match step
    case Create(unused, now) => Created(s, unused, now)
    case Edit(id, socket, connection, priority) => With(s, id, Edited(s.msgs[id], socket, connection, priority))
    case Dispatch(id) => Released(s, id, Dispatched(s.msgs[id]))
    case Collect(clock) => Collected(s, clock, 0)
    case Pop(i) => Popped(s, i)
    case Release(id, state) => Released(s, id, s.msgs[id].(state := state))
    case FlushAll(now) => Flush(s, now).value
  }

  lemma {:induction false} EditKeeps(s: State, id: Id, m: Msg)
    requires Inv(s) && id in s.held && Sound(m) && m.state == InUse
    ensures Inv(With(s, id, m))
  {
  }

  lemma {:induction false} NextKeeps(s: State, step: Step)
    requires Inv(s) && Enabled(s, step)
    ensures Inv(Next(s, step))
  {
    match step
    case Create(unused, now) => CreateKeeps(s, unused, now);
    case Edit(id, socket, connection, priority) => EditKeeps(s, id, Edited(s.msgs[id], socket, connection, priority));
    case Dispatch(id) => ReleaseKeeps(s, id, Dispatched(s.msgs[id]));
    case Collect(clock) => CollectKeeps(s, clock);
    case Pop(i) => PopKeeps(s, i);
    case Release(id, state) => ReleaseKeeps(s, id, s.msgs[id].(state := state));
    case FlushAll(now) => FlushKeeps(s, now);
  }

  const START: State := State(map[], [], [], [], {})

  /** A run from the empty pool: every step is one that the surroundings may take. */
  ghost predicate IsRun(ss: seq<State>, steps: seq<Step>) {
    && |ss| == |steps| + 1 && ss[0] == START
    && forall k :: 0 <= k < |steps| ==> Follows(ss[k], steps[k], ss[k + 1])
  }

  ghost predicate Follows(s: State, step: Step, t: State) {
    Inv(s) ==> Enabled(s, step) && t == Next(s, step)
  }

  lemma {:induction false} EveryRunKeepsInv(ss: seq<State>, steps: seq<Step>, n: nat)
    requires IsRun(ss, steps) && n < |ss|
    ensures Inv(ss[n])
  {
    if n > 0 {
      EveryRunKeepsInv(ss, steps, n - 1);
      assert Follows(ss[n - 1], steps[n - 1], ss[n]);
      NextKeeps(ss[n - 1], steps[n - 1]);
    }
  }

  lemma {:induction false} RunStep(ss: seq<State>, steps: seq<Step>, k: nat)
    requires IsRun(ss, steps) && k < |steps|
    ensures Inv(ss[k]) && Enabled(ss[k], steps[k]) && ss[k + 1] == Next(ss[k], steps[k])
  {
    EveryRunKeepsInv(ss, steps, k);
    assert Follows(ss[k], steps[k], ss[k + 1]);
  }

  /** States of a message that only the pool list knows. */
  predicate Rests(m: Msg) {
    m.state == Pending || m.state == Undelivered || m.state == Delivered || m.state == Processed
    || m.state == MarkForReuse
  }

  /** How often a message turns up: on the stack, in the queue, in somebody's hands, or only in the pool. */
  function Places(s: State, id: Id): (n: nat)
    requires id in s.msgs
  {
    multiset(s.free)[id] + multiset(s.queue)[id] + (if id in s.held then 1 else 0)
    + (if Rests(s.msgs[id]) then 1 else 0)
  }

  lemma {:induction false} CountOfNoDup(s: seq<Id>, id: Id)
    requires NoDup(s)
    ensures multiset(s)[id] == if id in s then 1 else 0
  {
    if s != [] {
      var t, x := s[..|s| - 1], s[|s| - 1];
      assert s == t + [x];
      CountOfNoDup(t, id);
    }
  }

  /** Inactive messages are on the stack. Only a flush that deletes can break this, by passing messages over. */
  ghost predicate Tidy(s: State) {
    forall id :: id in s.msgs && s.msgs[id].state == Inactive ==> id in s.free
  }

  lemma {:induction false} OnePlace(s: State, id: Id)
    requires Inv(s) && id in s.msgs
    ensures Places(s, id) == if s.msgs[id].state == Inactive && id !in s.free then 0 else 1
    ensures Tidy(s) ==> Places(s, id) == 1
    ensures id in s.free ==> s.msgs[id].state == Inactive
    ensures id in s.queue || id in s.held <==> s.msgs[id].state == InUse
  {
    CountOfNoDup(s.free, id);
    CountOfNoDup(s.queue, id);
  }

  lemma {:induction false} AllInPlace(s: State)
    requires Inv(s) && Tidy(s)
    ensures forall id :: id in s.msgs ==> Places(s, id) == 1
  {
    forall id | id in s.msgs ensures Places(s, id) == 1 {
      OnePlace(s, id);
    }
  }

  // ---------------------------------------------------------------- runs that pass nothing over

  ghost predicate PassesNothingOver(s: State, step: Step) {
    step.FlushAll? ==> NoStrayFrom(s, step.now, 0)
  }

  lemma {:induction false} LookTidy(s: State, id: Id, r: Reading)
    requires Tidy(s) && id in s.msgs
    ensures Tidy(Look(s, id, r))
  {
  }

  lemma {:induction false} CollectTidy(s: State, clock: nat -> Reading)
    requires Inv(s) && Tidy(s) && forall k :: Running(clock(k))
    ensures Tidy(Collected(s, clock, 0))
  {
    var t, i := s, 0;
    while i < |t.pool|
      invariant Inv(t) && Tidy(t) && Collected(t, clock, i) == Collected(s, clock, 0)
      decreases |t.pool| - i
    {
      LookTidy(t, t.pool[i], clock(i));
      LookKeeps(t, t.pool[i], clock(i));
      t := Look(t, t.pool[i], clock(i));
      i := i + 1;
    }
  }

  lemma {:induction false} CreateTidy(s: State, unused: Id, now: int)
    requires Inv(s) && Tidy(s)
    ensures Tidy(Created(s, unused, now))
  {
    var t := Created(s, unused, now);
    if s.free != [] {
      var n := |s.free| - 1;
      forall id | id in t.msgs && t.msgs[id].state == Inactive ensures id in t.free {
        assert id in s.free && id != s.free[n];
      }
    }
  }

  lemma {:induction false} NextTidy(s: State, step: Step)
    requires Inv(s) && Tidy(s) && Enabled(s, step) && PassesNothingOver(s, step)
    ensures Tidy(Next(s, step))
  {
    match step
    case Create(unused, now) => CreateTidy(s, unused, now);
    case Edit(_, _, _, _) =>
    case Dispatch(_) =>
    case Collect(clock) => CollectTidy(s, clock);
    case Pop(_) =>
    case Release(_, _) =>
    case FlushAll(now) => FlushTidyIff(s, now);
  }

  lemma {:induction false} EveryRunInPlace(ss: seq<State>, steps: seq<Step>, n: nat)
    requires IsRun(ss, steps) && n < |ss|
    requires forall k :: 0 <= k < |steps| ==> PassesNothingOver(ss[k], steps[k])
    ensures Inv(ss[n]) && Tidy(ss[n])
    ensures forall id :: id in ss[n].msgs ==> Places(ss[n], id) == 1
  {
    var k := 0;
    while k < n
      invariant k <= n && Tidy(ss[k])
    {
      RunStep(ss, steps, k);
      NextTidy(ss[k], steps[k]);
      k := k + 1;
    }
    EveryRunKeepsInv(ss, steps, n);
    AllInPlace(ss[n]);
  }

  // ---------------------------------------------------------------- what a collection does

  /** The messages waiting from pool position `i` on, in pool order. */
  function Waiting(s: State, i: nat): (ids: seq<Id>)
    requires forall k :: i <= k < |s.pool| ==> s.pool[k] in s.msgs
    decreases |s.pool| - i
  {
    if i >= |s.pool| then []
    else if s.msgs[s.pool[i]].state == Pending then [s.pool[i]] + Waiting(s, i + 1)
    else Waiting(s, i + 1)
  }

  /** A collection has looked at the first `i` messages, once each. */
  ghost predicate LookedUpTo(s: State, t: State, clock: nat -> Reading, i: nat) {
    && Pooled(s) && Pooled(t) && t.pool == s.pool && t.free == s.free && t.held == s.held && i <= |s.pool|
    && MsgsLooked(s, t, clock, i) && t.queue + Waiting(s, i) == s.queue + Waiting(s, 0)
  }

  ghost predicate MsgsLooked(s: State, t: State, clock: nat -> Reading, i: nat)
    requires Pooled(s) && Pooled(t) && t.pool == s.pool
  {
    forall k :: 0 <= k < |s.pool| ==>
      t.msgs[s.pool[k]] == if k < i then Looked(s.msgs[s.pool[k]], clock(k)) else s.msgs[s.pool[k]]
  }

  lemma {:induction false} MsgsLookedNext(s: State, t: State, u: State, clock: nat -> Reading, i: nat)
    requires Pooled(s) && Pooled(t) && t.pool == s.pool && MsgsLooked(s, t, clock, i) && i < |s.pool|
    requires Pooled(u) && u.pool == t.pool && u.msgs == t.msgs[s.pool[i] := Looked(t.msgs[s.pool[i]], clock(i))]
    ensures MsgsLooked(s, u, clock, i + 1) && t.msgs[s.pool[i]] == s.msgs[s.pool[i]]
  {
    forall k | 0 <= k < |s.pool|
      ensures u.msgs[s.pool[k]] == if k < i + 1 then Looked(s.msgs[s.pool[k]], clock(k)) else s.msgs[s.pool[k]]
    {
      assert k != i ==> s.pool[k] != s.pool[i];
    }
  }

  lemma {:induction false} LookMoves(t: State, id: Id, r: Reading)
    requires Pooled(t) && id in t.msgs && Sound(t.msgs[id])
    ensures var u := Look(t, id, r);
            && Pooled(u) && u.pool == t.pool && u.free == t.free && u.held == t.held
            && u.msgs == t.msgs[id := Looked(t.msgs[id], r)]
            && u.queue == t.queue + if t.msgs[id].state == Pending then [id] else []
  {
  }

  lemma {:induction false} QueueNext(s: State, q: seq<Id>, r: seq<Id>, i: nat, pending: bool)
    requires Pooled(s) && i < |s.pool| && pending == (s.msgs[s.pool[i]].state == Pending)
    requires r == q + if pending then [s.pool[i]] else []
    ensures r + Waiting(s, i + 1) == q + Waiting(s, i)
  {
    var rest := Waiting(s, i + 1);
    assert Waiting(s, i) == (if pending then [s.pool[i]] else []) + rest;
    Moved(q, if pending then [s.pool[i]] else [], rest);
  }

  lemma {:induction false} Moved(q: seq<Id>, ids: seq<Id>, rest: seq<Id>)
    ensures (q + ids) + rest == q + (ids + rest)
  {
  }

  lemma {:induction false} LookedUpToNext(s: State, t: State, u: State, clock: nat -> Reading, i: nat, r: Reading)
    requires LookedUpTo(s, t, clock, i) && i < |s.pool| && r == clock(i)
    requires Pooled(u) && u.pool == t.pool && u.free == t.free && u.held == t.held
    requires u.msgs == t.msgs[s.pool[i] := Looked(t.msgs[s.pool[i]], r)]
    requires u.queue == t.queue + if t.msgs[s.pool[i]].state == Pending then [s.pool[i]] else []
    ensures LookedUpTo(s, u, clock, i + 1)
  {
    MsgsLookedNext(s, t, u, clock, i);
    QueueNext(s, t.queue, u.queue, i, t.msgs[s.pool[i]].state == Pending);
  }

  /** Each message is looked at once with its own reading, the pending ones join the queue in pool order, and nothing
      else moves. */
  lemma {:induction false} CollectLooksAtAll(s: State, clock: nat -> Reading)
    requires Inv(s) && forall k :: Running(clock(k))
    ensures LookedUpTo(s, Collected(s, clock, 0), clock, |s.pool|)
  {
    var t, i := s, 0;
    while i < |s.pool|
      invariant Inv(t) && LookedUpTo(s, t, clock, i) && Collected(t, clock, i) == Collected(s, clock, 0)
    {
      var id, r := t.pool[i], clock(i);
      var u := Look(t, id, r);
      LookMoves(t, id, r);
      LookKeeps(t, id, r);
      LookedUpToNext(s, t, u, clock, i, r);
      t, i := u, i + 1;
    }
  }

  /** What every collection does to every message, case by case, and which messages it queues. */
  lemma {:induction false} CollectOutcomes(s: State, clock: nat -> Reading, k: nat)
    requires Inv(s) && (forall i :: Running(clock(i))) && k < |s.pool|
    ensures s.pool[k] in s.msgs && s.pool[k] in Collected(s, clock, 0).msgs
    ensures var id, t := s.pool[k], Collected(s, clock, 0);
            && Outcome(s.msgs[id], clock(k), t.msgs[id])
            && (s.msgs[id].state == Undelivered && s.msgs[id].socket != -1 ==> t.msgs[id].state == MarkForReuse)
            && (s.msgs[id].state == Undelivered && s.msgs[id].socket == -1 ==>
                  (t.msgs[id].state == MarkForReuse
                   <==> |s.msgs[id].stamps| == 10 && clock(k).check >= s.msgs[id].stamps[9] + 512))
            && (id in t.queue <==> id in s.queue || s.msgs[id].state == Pending)
  {
    var id, t := s.pool[k], Collected(s, clock, 0);
    CollectLooksAtAll(s, clock);
    assert t.msgs[id] == Looked(s.msgs[id], clock(k));
    LookedOutcome(s.msgs[id], clock(k));
    WaitingHas(s, 0, k);
    assert id in t.queue <==> id in s.queue || id in Waiting(s, 0) by {
      assert Waiting(s, |s.pool|) == [];
      assert t.queue == s.queue + Waiting(s, 0);
    }
  }

  lemma {:induction false} WaitingHas(s: State, i: nat, k: nat)
    requires Pooled(s) && i <= k < |s.pool|
    ensures s.pool[k] in Waiting(s, i) <==> s.msgs[s.pool[k]].state == Pending
    decreases |s.pool| - i
  {
    if i < k {
      assert s.pool[i] != s.pool[k];
      WaitingHas(s, i + 1, k);
    } else {
      WaitingNot(s, k + 1, s.pool[k]);
    }
  }

  lemma {:induction false} WaitingNot(s: State, i: nat, id: Id)
    requires Pooled(s) && forall h :: i <= h < |s.pool| ==> s.pool[h] != id
    ensures id !in Waiting(s, i)
    decreases |s.pool| - i
  {
    if i < |s.pool| {
      WaitingNot(s, i + 1, id);
    }
  }

  /** In every run, what a collection does. */
  lemma {:induction false} EveryRunCollects(ss: seq<State>, steps: seq<Step>, n: nat, k: nat)
    requires IsRun(ss, steps) && n < |steps| && steps[n].Collect? && k < |ss[n].pool|
    ensures ss[n].pool[k] in ss[n].msgs && ss[n].pool[k] in ss[n + 1].msgs
    ensures Outcome(ss[n].msgs[ss[n].pool[k]], steps[n].clock(k), ss[n + 1].msgs[ss[n].pool[k]])
  {
    RunStep(ss, steps, n);
    CollectOutcomes(ss[n], steps[n].clock, k);
  }

  /** A message created, edited or not, dispatched and collected is queued, for the internal route when it was given no
      connection type. */
  lemma {:induction false} FreshMessageIsQueued(s: State, unused: Id, now: int, socket: int, c: ConnectionType,
                                                priority: int, clock: nat -> Reading)
      returns (id: Id, t: State)
    requires Inv(s) && unused !in s.msgs && forall i :: Running(clock(i))
    ensures id !in s.queue && id !in s.held && (id in s.msgs ==> s.msgs[id].state == Inactive)
    ensures var a := Created(s, unused, now);
            && id in a.msgs && id in a.held && a.msgs[id] == Edited(a.msgs[id], -1, NotSet, 128)
            && a.msgs[id].inUseSince == now && a.msgs[id].stamps == []
            && t == Collected(Released(a, id, Dispatched(Edited(a.msgs[id], socket, c, priority))), clock, 0)
    ensures Inv(t) && id in t.queue && id in t.msgs && t.msgs[id].state == InUse
    ensures t.msgs[id].connection == if c == NotSet then Internal else c
    ensures t.msgs[id].socket == socket && t.msgs[id].priority == priority
  {
    ReusableIsIdle(s, unused);
    CreateKeeps(s, unused, now);
    id := Reusable(s, unused);
    var a := Created(s, unused, now);
    var m := Dispatched(Edited(a.msgs[id], socket, c, priority));
    t := DispatchedIsQueued(a, id, m, clock);
  }

  lemma {:induction false} DispatchedIsQueued(a: State, id: Id, m: Msg, clock: nat -> Reading) returns (t: State)
    requires Inv(a) && id in a.held && Sound(m) && m.state == Pending && forall i :: Running(clock(i))
    ensures t == Collected(Released(a, id, m), clock, 0) && Inv(t)
    ensures id in t.queue && id in t.msgs && t.msgs[id] == m.(state := InUse)
  {
    var b := Released(a, id, m);
    ReleaseKeeps(a, id, m);
    t := PendingIsQueued(b, id, clock);
  }

  lemma {:induction false} PendingIsQueued(b: State, id: Id, clock: nat -> Reading) returns (t: State)
    requires Inv(b) && id in b.msgs && b.msgs[id].state == Pending && forall i :: Running(clock(i))
    ensures t == Collected(b, clock, 0) && Inv(t)
    ensures id in t.queue && id in t.msgs && t.msgs[id] == b.msgs[id].(state := InUse)
  {
    CollectKeeps(b, clock);
    t := Collected(b, clock, 0);
    var k :| 0 <= k < |b.pool| && b.pool[k] == id;
    CollectOutcomes(b, clock, k);
  }

  /** In every run: a message without a socket that a collection gives up has been retried ten times, and the first of
      them was at least 1023 seconds ago. */
  lemma {:induction false} EveryRunDropsLate(ss: seq<State>, steps: seq<Step>, n: nat, k: nat)
    requires IsRun(ss, steps) && n < |steps| && steps[n].Collect? && k < |ss[n].pool| && ss[n].pool[k] in ss[n].msgs
    requires var m := ss[n].msgs[ss[n].pool[k]]; m.state == Undelivered && m.socket == NO_SOCKET
    ensures ss[n].pool[k] in ss[n + 1].msgs
    ensures ss[n + 1].msgs[ss[n].pool[k]].state == MarkForReuse ==>
              var stamps := ss[n].msgs[ss[n].pool[k]].stamps;
              |stamps| == 10 && steps[n].clock(k).check >= stamps[0] + 1023
  {
    RunStep(ss, steps, n);
    var s, clock := ss[n], steps[n].clock;
    CollectLooksAtAll(s, clock);
    DroppedLate(s.msgs[s.pool[k]], clock(k));
  }
}
