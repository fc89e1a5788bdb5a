/** Active connections: a list of records and a map that holds them, each pointing into the other. */
module ConnectionCaches {
  import opened Collections

  type Key = int

  /** A list node; nodes are never reused. */
  type Node = nat

  /** A list iterator. */
  datatype Iter = End | At(node: Node)

  datatype RecordState = Free | Waiting

  /** `buffered` is the byte count of the record's buffer, `handled` says that a handler is at work on it. */
  datatype Record = Record(
    socket: int, port: int, timestamp: int, buffered: nat, handled: bool, pendingWrite: bool, state: RecordState,
        pos: Iter)

  function IndexOf(s: seq<nat>, x: nat): (i: nat)
    requires x in s
    ensures i < |s| && s[i] == x
  {
    if s[0] == x then 0 else 1 + IndexOf(s[1..], x)
  }

  /** The elements that satisfy `p`, in order. */
  function Keep(s: seq<Key>, p: Key -> bool): (r: seq<Key>) {
    if s == [] then [] else (if p(s[0]) then [s[0]] else []) + Keep(s[1..], p)
  }

  function IterAt(list: seq<Node>, i: nat): (it: Iter) {
    if i < |list| then At(list[i]) else End
  }

  lemma {:induction false} IndexOfAt(list: seq<Node>, i: nat)
    requires NoDup(list) && i < |list|
    ensures IndexOf(list, list[i]) == i
  {
  }

  predicate Expires(r: Record, timeout: int, now: int) {
    !r.pendingWrite && r.state == Waiting && r.timestamp + timeout < now
  }

  /** Socket `k` is waiting and its record points at node `n`. */
  predicate Linked(k: Key, n: Node, records: map<Key, Record>) {
    && k in records && records[k].state == Waiting
    && records[k].pos == At(n) && records[k].socket == k
  }

  /** The list is duplicate-free and holds exactly the waiting records; each record knows its own node. */
  ghost predicate Consistent(list: seq<Node>, payload: map<Node, Key>, records: map<Key, Record>, active: seq<Key>) {
    && |active| == |list| && NoDup(list)
    && (forall i :: 0 <= i < |list| ==> list[i] in payload && payload[list[i]] == active[i])
    && (forall i :: 0 <= i < |list| ==> Linked(active[i], list[i], records))
    && (forall k :: k in records && records[k].state == Waiting ==> k in active)
    && (forall k :: k in records && records[k].state == Free ==> records[k].pos == End)
    && (forall k :: k in records ==> 0 < k < 65536)
  }

  function Freed(records: map<Key, Record>, fd: int): (r: map<Key, Record>) {
    if fd in records then
      records[fd := records[fd].(state := Free, handled := false, socket := -1, pendingWrite := false, pos := End)]
    else records
  }

  /** The list loses its element `i` and nothing else. */
  ghost predicate RemovedAt(list: seq<Node>, active: seq<Key>, i: nat, list': seq<Node>, active': seq<Key>) {
    i < |list| == |active| && list' == Without(list, i) && active' == Without(active, i)
  }

  /** Different nodes hold different sockets. */
  lemma {:induction false} ActiveOnce(list: seq<Node>, payload: map<Node, Key>, records: map<Key, Record>,
      active: seq<Key>,
                                      i: nat, j: nat)
    requires Consistent(list, payload, records, active) && i < j < |active|
    ensures active[i] != active[j]
  {
    assert Linked(active[i], list[i], records) && Linked(active[j], list[j], records);
  }

  lemma {:induction false} OthersLinked(list: seq<Node>, payload: map<Node, Key>, records: map<Key, Record>,
                                        active: seq<Key>, i: nat, h: nat)
    requires Consistent(list, payload, records, active) && i < |list| && h < |list| && h != i
    ensures Linked(active[h], list[h], Freed(records, active[i]))
  {
    ActiveOnce(list, payload, records, active, if h < i then h else i, if h < i then i else h);
    assert Linked(active[h], list[h], records);
  }

  lemma {:induction false} EraseKeeps(list: seq<Node>, payload: map<Node, Key>, records: map<Key, Record>,
                                      active: seq<Key>, i: nat, list': seq<Node>, active': seq<Key>)
    requires Consistent(list, payload, records, active) && RemovedAt(list, active, i, list', active')
    ensures Consistent(list', payload, Freed(records, active[i]), active')
  {
    var after := Freed(records, active[i]);
    forall k | 0 <= k < |list'| ensures Linked(active'[k], list'[k], after) {
      OthersLinked(list, payload, records, active, i, if k < i then k else k + 1);
    }
    assert Linked(active[i], list[i], records);
    forall k | k in after && after[k].state == Waiting ensures k in active' {
      StillIn(active, i, k);
    }
  }

  /** An iterator survives an erase exactly when it does not stand on the erased node. */
  lemma {:induction false} IterSurvives(list: seq<Node>, i: nat, it: Iter)
    requires NoDup(list) && i < |list| && (it == End || it.node in list)
    ensures it == End || it.node in Without(list, i) <==> it != At(list[i])
  {
    if it != End {
      var h := IndexOf(list, it.node);
      if h != i {
        assert Without(list, i)[if h < i then h else h - 1] == it.node;
      }
    }
  }

  class ConnectionCache {
    var list: seq<Node>
    var payload: map<Node, Key>
    var records: map<Key, Record>
    var it: Iter
    var marker: Iter
    var nextNode: Node
    /** Sockets closed so far. */
    var closed: seq<int>
    /** The active connections in list order. */
    ghost var active: seq<Key>

    ghost predicate Valid()
      reads this
    {
      Consistent(list, payload, records, active) && forall i :: 0 <= i < |list| ==> list[i] < nextNode
    }

    ghost predicate MarkerOk()
      reads this
    {
      marker == End || marker.node in list
    }

    constructor ()
      ensures Valid() && active == [] && records == map[] && MarkerOk() && closed == []
    {
      list, payload, records, it, marker, nextNode, closed, active := [], map[], map[], End, End, 0, [], [];
    }

    method AddConnection(fd: int, port: int, now: int)
      requires Valid() && 0 < fd < 65536 && (fd in records ==> records[fd].state == Free)
      modifies this
      ensures Valid() && active == old(active) + [fd] && closed == old(closed)
      ensures records == old(records)[fd := Record(fd, port, now, 0, false, false, Waiting, At(old(nextNode)))]
      ensures old(nextNode) == list[|list| - 1] && marker == old(marker) && (old(MarkerOk()) ==> MarkerOk())
    {
      var n := nextNode;
      nextNode := nextNode + 1;
      list := list + [n];
      payload := payload[n := fd];
      records := records[fd := Record(fd, port, now, 0, false, false, Waiting, At(n))];
      active := active + [fd];
    }

    /** The node of an active socket. */
    ghost function Position(fd: Key): (i: nat)
      requires Valid() && fd in active
      reads this
      ensures i < |list| && active[i] == fd && records[fd].pos == At(list[i])
    {
      var i :| 0 <= i < |active| && active[i] == fd;
      assert Linked(active[i], list[i], records);
      i
    }

    method FreeConnection(fd: int)
      requires Valid()
      modifies this
      ensures Valid() && it == old(it) && marker == old(marker)
      ensures closed == if fd == -1 then old(closed) else old(closed) + [fd]
      ensures records == Freed(old(records), fd)
      ensures fd in old(records) ==>
                var r := old(records)[fd];
                records[fd] == Record(-1, r.port, r.timestamp, r.buffered, false, false, Free, End)
      ensures fd in old(active) ==> RemovedAt(old(list), old(active), old(Position(fd)), list, active)
      ensures fd !in old(active) ==> list == old(list) && active == old(active)
    {
      if fd == -1 {
        return;
      }
      if fd !in records {
        closed := closed + [fd];
        return;
      }
      var r := records[fd];
      if r.pos != End {
        ghost var p := Position(fd);
        IndexOfAt(list, p);
        var i := IndexOf(list, r.pos.node);
        EraseKeeps(list, payload, records, active, i, Without(list, i), Without(active, i));
        list, active := Without(list, i), Without(active, i);
      }
      closed := closed + [fd];
      records := records[fd := records[fd].(state := Free, handled := false, socket := -1, pendingWrite := false,
              pos := End)];
    }

    /** Sockets without a record are not part of this model, except the two that are turned away. */
    method MarkPendingWrite(fd: int)
      requires Valid() && (fd in records || fd == -1 || fd == 0)
      modifies this`records
      ensures Valid()
      ensures fd in old(records) ==> records == old(records)[fd := old(records)[fd].(pendingWrite := true)]
      ensures fd !in old(records) ==> records == old(records)
    {
      if fd == -1 || fd == 0 {
        return;
      }
      records := records[fd := records[fd].(pendingWrite := true)];
    }

    /** The cursor stands at position `i`. */
    ghost predicate Cursor(i: nat)
      reads this
    {
      i <= |list| && it == IterAt(list, i)
    }

    method Advance(ghost i: nat)
      requires Valid() && Cursor(i) && i < |list|
      modifies this`it
      ensures Cursor(i + 1)
    {
      IndexOfAt(list, i);
      var at := IndexOf(list, it.node);
      it := IterAt(list, at + 1);
    }

    /** Starts over at the head after every free, and still ends: exactly the expired connections are closed, in list
        order, and the others stay in theirs. */
    method TimeoutConnections(timeout: int, now: int)
      requires Valid()
      modifies this
      ensures Valid() && marker == old(marker)
      ensures active == Keep(old(active), Stays(old(records), timeout, now))
      ensures closed == old(closed) + Keep(old(active), Goes(old(records), timeout, now))
      ensures records == SweptRecords(old(records), timeout, now)
      ensures forall k :: k in active ==> k in old(active)
      ensures forall k :: k in old(active) ==>
                k in old(records)
                && (k in active <==> old(records)[k].pendingWrite || old(records)[k].timestamp + timeout >= now)
      ensures |closed| >= old(|closed|) && closed[..old(|closed|)] == old(closed)
      ensures forall k :: k in closed[old(|closed|)..] <==> k in old(active) && k !in active
    {
      TimeoutMeans(list, payload, records, active, closed, timeout, now);
      Sweep(timeout, now, records, Goes(records, timeout, now), Stays(records, timeout, now));
    }

    method Sweep(timeout: int, now: int, ghost was: map<Key, Record>, ghost gone: Key -> bool, ghost stay: Key -> bool)
      requires Valid() && was == records
      requires forall k :: gone(k) == ExpiresIn(was, k, timeout, now) && stay(k) == !gone(k)
      modifies this
      ensures Valid() && marker == old(marker)
      ensures active == Keep(old(active), stay) && closed == old(closed) + Keep(old(active), gone)
      ensures records == SweptRecords(was, timeout, now)
    {
      ghost var kept, shut := Keep(active, stay), closed + Keep(active, gone);
      it := IterAt(list, 0);
      ghost var i: nat := 0;
      while it != End
        invariant marker == old(marker) && SweptUpTo(i, timeout, now, was, gone, stay, kept, shut)
        decreases |list|, |list| - i
      {
        i := SweepStep(i, timeout, now, was, gone, stay, kept, shut);
      }
      KeepNone(active, gone);
      KeepAll(active, stay);
      SweepDone(was, records, active, timeout, now, gone);
    }

    /** The cursor stands at `i`, nothing before it expires, and what is left leads to the goals. */
    ghost predicate SweptUpTo(i: nat, timeout: int, now: int, was: map<Key, Record>, gone: Key -> bool,
        stay: Key -> bool,
                              kept: seq<Key>, shut: seq<int>)
      reads this
    {
      && Valid() && Cursor(i) && (forall j :: 0 <= j < i ==> !gone(active[j]))
      && Keep(active, stay) == kept && closed + Keep(active, gone) == shut
      && Sweeping(was, records, timeout, now)
    }

    method SweepStep(ghost i: nat, timeout: int, now: int, ghost was: map<Key, Record>,
                     ghost gone: Key -> bool, ghost stay: Key -> bool, ghost kept: seq<Key>, ghost shut: seq<int>)
      returns (ghost next: nat)
      requires SweptUpTo(i, timeout, now, was, gone, stay, kept, shut) && it != End
      requires forall k :: gone(k) == ExpiresIn(was, k, timeout, now) && stay(k) == !gone(k)
      modifies this
      ensures SweptUpTo(next, timeout, now, was, gone, stay, kept, shut) && marker == old(marker)
      ensures |list| < old(|list|) || (|list| == old(|list|) && next == i + 1)
    {
      IndexOfAt(list, i);
      var k := payload[it.node];
      assert Linked(active[i], list[i], records);
      SweepingWaits(was, records, k, timeout, now);
      if Expires(records[k], timeout, now) {
        ExpireAt(i, k, timeout, now, was, gone, stay);
        it := IterAt(list, 0);
        next := 0;
      } else {
        Advance(i);
        next := i + 1;
      }
    }

    method ExpireAt(ghost i: nat, k: Key, timeout: int, now: int,
                    ghost was: map<Key, Record>, ghost gone: Key -> bool, ghost stay: Key -> bool)
      requires Valid() && i < |list| && active[i] == k && gone(k) && !stay(k)
      requires forall j :: 0 <= j < i ==> !gone(active[j])
      requires Sweeping(was, records, timeout, now) && ExpiresIn(was, k, timeout, now) && records[k] == was[k]
      modifies this
      ensures Valid() && marker == old(marker) && it == old(it) && |list| == old(|list|) - 1
      ensures Keep(active, stay) == old(Keep(active, stay))
      ensures closed + Keep(active, gone) == old(closed + Keep(active, gone))
      ensures Sweeping(was, records, timeout, now)
    {
      KeepWithout(active, i, gone, stay);
      PositionIs(i);
      assert Linked(active[i], list[i], records);
      SweepingFreed(was, records, k, timeout, now);
      ghost var rest := Without(active, i);
      CloseOne(closed, k, Keep(rest, gone));
      FreeConnection(records[k].socket);
      assert active == rest;
    }

    lemma {:induction false} LinkedAt(i: nat)
      requires Valid() && i < |list|
      ensures Linked(active[i], list[i], records)
    {
    }

    lemma {:induction false} OnlyOnce(i: nat)
      requires Valid() && i < |list|
      ensures active[i] in records && active[i] !in active[i + 1..]
    {
      LinkedAt(i);
      forall j | i < j < |active| ensures active[j] != active[i] {
        ActiveOnce(list, payload, records, active, i, j);
      }
    }

    lemma {:induction false} PositionIs(i: nat)
      requires Valid() && i < |list|
      ensures Position(active[i]) == i
    {
      var j := Position(active[i]);
      if i != j {
        ActiveOnce(list, payload, records, active, if i < j then i else j, if i < j then j else i);
      }
    }

    /** What the cursor's record says: whether it waits, its socket, and where the list goes on. */
    method ReadCursor(ghost i: nat) returns (waits: bool, fd: int, next: Iter)
      requires Valid() && i < |list| && it == At(list[i])
      ensures waits && fd == active[i] > 0 && next == IterAt(list, i + 1)
    {
      IndexOfAt(list, i);
      assert Linked(active[i], list[i], records);
      var r := records[payload[it.node]];
      return r.state == Waiting, r.socket, IterAt(list, IndexOf(list, it.node) + 1);
    }

    /** Sets one window of at most `size` sockets, from the marker or the head, and marks where the next one starts. */
    method SetActiveConnections(fds: set<int>, size: int)
        returns (out: set<int>, maxfd: int, ghost from: nat, ghost to: nat)
      requires Valid() && MarkerOk()
      modifies this`it, this`marker
      ensures Valid() && MarkerOk()
      ensures from == Start(list, old(marker)) && to == WindowEnd(|list|, from, size)
      ensures out == fds + Sockets(active, from, to)
      ensures maxfd == Highest(active, from, to) && marker == IterAt(list, to)
    {
      maxfd, out := 0, fds;
      from := Start(list, marker);
      to := from;
      if list != [] {
        it := if marker != End then marker else IterAt(list, 0);
        marker := End;
        out, maxfd, to := FillWindow(fds, size, from);
      }
    }

    /** The marker after `k` calls that started at the head. */
    ghost predicate MarkedAt(size: nat, k: nat)
      reads this
    {
      marker == if k == 0 then End else IterAt(list, CallEnd(|list|, size, k - 1))
    }

    /** Call number `k` of such a series. */
    method SetWindow(size: nat, ghost k: nat) returns (fds: set<int>, maxfd: int)
      requires Valid() && size > 0 && MarkedAt(size, k)
      modifies this`it, this`marker
      ensures Valid() && MarkedAt(size, k + 1) && IsCall(active, size, k, fds, maxfd)
    {
      ghost var from, to;
      StartOfIter(list, if k == 0 then |list| else CallEnd(|list|, size, k - 1));
      fds, maxfd, from, to := SetActiveConnections({}, size);
    }

    /** As many calls as it takes: every connection is set in exactly one of them, no call sets more than `size`, each
        reports its highest socket, and the marker is back at the end. */
    method SetAllWindows(size: nat) returns (windows: seq<set<int>>, highest: seq<int>)
      requires Valid() && marker == End && size > 0
      modifies this`it, this`marker
      ensures Valid() && marker == End
      ensures |windows| == |highest| == Calls(|active|, size)
      ensures forall k, j :: 0 <= k < |windows| && 0 <= j < |active| ==> (active[j] in windows[k] <==> k == j / size)
      ensures forall k :: 0 <= k < |windows| ==> IsWindow(active, windows[k], size, highest[k])
    {
      windows, highest := SetWindows(size, Calls(|list|, size));
      LastCallEnds(|list|, size, |windows|);
      Tiled(list, payload, records, active, size, windows, highest);
    }

    method SetWindows(size: nat, calls: nat) returns (windows: seq<set<int>>, highest: seq<int>)
      requires Valid() && marker == End && size > 0
      modifies this`it, this`marker
      ensures Valid() && MarkedAt(size, calls) && |windows| == calls && AreCalls(active, size, windows, highest)
    {
      windows, highest := [], [];
      while |windows| < calls
        invariant Valid() && |windows| <= calls && MarkedAt(size, |windows|)
        invariant AreCalls(active, size, windows, highest)
        decreases calls - |windows|
      {
        var fds, maxfd := SetWindow(size, |windows|);
        windows, highest := windows + [fds], highest + [maxfd];
      }
    }

    method FillWindow(fds: set<int>, size: int, ghost from: nat) returns (out: set<int>, maxfd: int, ghost to: nat)
      requires Valid() && from <= |list| && it == IterAt(list, from) && marker == End
      modifies this`it, this`marker
      ensures to == WindowEnd(|list|, from, size) && marker == IterAt(list, to)
      ensures out == fds + Sockets(active, from, to) && maxfd == Highest(active, from, to)
    {
      maxfd, out, to := 0, fds, from;
      var count := 0;
      while it != End
        invariant from <= to <= |list| && it == IterAt(list, to) && count == to - from && marker == End
        invariant out == fds + Sockets(active, from, to) && maxfd == Highest(active, from, to)
        invariant size > 0 ==> count < size
        decreases |list| - to
      {
        var waits, fd, next := ReadCursor(to);
        to := to + 1;
        if waits {
          out := out + {fd};
          if maxfd < fd {
            maxfd := fd;
          }
          count := count + 1;
          if count == size {
            marker := next;
            break;
          }
        }
        it := next;
      }
    }

    method ResetEnumerator()
      requires Valid()
      modifies this`it
      ensures Cursor(0)
    {
      it := IterAt(list, 0);
    }

    /** The next ready record at or behind the cursor; the cursor ends up behind it. */
    method GetNextSetRecord(fds: set<int>, ghost i: nat) returns (r: Option<Key>, ghost next: nat)
      requires Valid() && Cursor(i)
      modifies this`it
      ensures Cursor(next) && i <= next
      ensures r.None? ==> next == |list| && NoneReady(records, fds, active, i, next)
      ensures r.Some? ==>
                && r.value in active && r.value in records && !records[r.value].handled
                && (r.value in fds || records[r.value].buffered > 0)
      ensures r.Some? ==> i < next && r.value == active[next - 1] && IsReady(records, fds, r.value)
                          && NoneReady(records, fds, active, i, next - 1)
    {
      next := i;
      while it != End
        invariant Cursor(next) && i <= next && NoneReady(records, fds, active, i, next)
        decreases |list| - next
      {
        var k := KeyAtCursor(next);
        LinkedAt(next);
        Advance(next);
        next := next + 1;
        if IsReady(records, fds, k) {
          return Some(k), next;
        }
      }
      return None, next;
    }

    method KeyAtCursor(ghost i: nat) returns (k: Key)
      requires Valid() && Cursor(i) && i < |list|
      ensures k == active[i] && k in records
    {
      assert Linked(active[i], list[i], records);
      return payload[it.node];
    }
  }

  /** What GetNextSetRecord looks for: waiting, no handler at work, and something to read or already buffered. */
  predicate IsReady(records: map<Key, Record>, fds: set<int>, k: Key) {
    && k in records && records[k].state == Waiting && !records[k].handled
    && (records[k].socket in fds || records[k].buffered > 0)
  }

  predicate NoneReady(records: map<Key, Record>, fds: set<int>, active: seq<Key>, from: nat, to: nat)
    requires to <= |active|
  {
    forall j :: from <= j < to ==> !IsReady(records, fds, active[j])
  }

  function Sockets(active: seq<Key>, from: nat, to: nat): (s: set<int>)
    requires to <= |active|
  {
    if from >= to then {} else Sockets(active, from, to - 1) + {active[to - 1]}
  }

  /** The highest of the sockets, 0 when there are none. */
  function Highest(active: seq<Key>, from: nat, to: nat): (m: int)
    requires to <= |active|
  {
    if from >= to then 0
    else
      var m := Highest(active, from, to - 1);
      if m < active[to - 1] then active[to - 1] else m
  }

  /** The window's sockets are set, no others, and the highest of them is found. */
  lemma {:induction false} WindowIs(active: seq<Key>, from: nat, to: nat)
    requires to <= |active| && forall j :: from <= j < to ==> active[j] > 0
    ensures forall k :: k in Sockets(active, from, to) <==> exists j :: from <= j < to && active[j] == k
    ensures forall j :: from <= j < to ==> active[j] <= Highest(active, from, to)
    ensures from >= to ==> Highest(active, from, to) == 0
    ensures from < to ==> exists j :: from <= j < to && active[j] == Highest(active, from, to)
  {
    if from < to {
      WindowIs(active, from, to - 1);
    }
  }

  function Start(list: seq<Node>, marker: Iter): (i: nat)
    requires marker == End || marker.node in list
  {
    if marker == End then 0 else IndexOf(list, marker.node)
  }

  function WindowEnd(n: nat, from: nat, size: int): (e: nat)
    requires from <= n
    ensures from <= e <= n
  {
    if size <= 0 || from + size >= n then n else from + size
  }

  function Goes(records: map<Key, Record>, timeout: int, now: int): (p: Key -> bool) {
    k => ExpiresIn(records, k, timeout, now)
  }

  function Stays(records: map<Key, Record>, timeout: int, now: int): (p: Key -> bool) {
    k => !ExpiresIn(records, k, timeout, now)
  }

  /** A record that still waits has not been touched. */
  lemma {:induction false} SweepingWaits(was: map<Key, Record>, records: map<Key, Record>, k: Key, timeout: int,
      now: int)
    requires Sweeping(was, records, timeout, now) && k in records && records[k].state == Waiting
    ensures k in was && records[k] == was[k]
  {
  }

  lemma {:induction false} SweepingFreed(was: map<Key, Record>, records: map<Key, Record>, k: Key, timeout: int,
      now: int)
    requires Sweeping(was, records, timeout, now) && ExpiresIn(was, k, timeout, now) && k in records
          && records[k] == was[k]
    ensures Sweeping(was, Freed(records, k), timeout, now)
  {
  }

  lemma {:induction false} CloseOne(closed: seq<int>, k: Key, rest: seq<Key>)
    ensures closed + ([k] + rest) == (closed + [k]) + rest
  {
  }

  lemma {:induction false} SweepDone(was: map<Key, Record>, records: map<Key, Record>, active: seq<Key>,
      timeout: int, now: int,
                                     gone: Key -> bool)
    requires Sweeping(was, records, timeout, now)
    requires forall k :: gone(k) == ExpiresIn(was, k, timeout, now)
    requires forall k :: k in records && records[k].state == Waiting ==> k in active
    requires forall j :: 0 <= j < |active| ==> !gone(active[j])
    ensures records == SweptRecords(was, timeout, now)
  {
    var r := SweptRecords(was, timeout, now);
    forall k | k in was ensures records[k] == r[k] {
      if records[k].state == Waiting {
        assert !gone(k);
      }
    }
  }

  lemma {:induction false} KeepHas(s: seq<Key>, p: Key -> bool, k: Key)
    ensures k in Keep(s, p) <==> k in s && p(k)
  {
    if s != [] {
      KeepHas(s[1..], p, k);
    }
  }

  /** Who stays and who goes, in terms of the records. */
  lemma {:induction false} TimeoutMeans(list: seq<Node>, payload: map<Node, Key>, records: map<Key, Record>,
                                        active: seq<Key>, closed: seq<int>, timeout: int, now: int)
    requires Consistent(list, payload, records, active)
    ensures var stay, gone := Keep(active, Stays(records, timeout, now)), Keep(active, Goes(records, timeout, now));
            && (forall k :: k in stay ==> k in active)
            && (forall k :: k in active ==>
                              k in records
                              && (k in stay <==> records[k].pendingWrite || records[k].timestamp + timeout >= now))
            && (forall k :: k in (closed + gone)[|closed|..] <==> k in active && k !in stay)
            && (closed + gone)[..|closed|] == closed
  {
    var stay, gone := Keep(active, Stays(records, timeout, now)), Keep(active, Goes(records, timeout, now));
    assert (closed + gone)[|closed|..] == gone;
    forall k ensures (k in stay <==> k in active && !ExpiresIn(records, k, timeout, now))
                     && (k in gone <==> k in active && ExpiresIn(records, k, timeout, now))
    {
      KeepHas(active, Stays(records, timeout, now), k);
      KeepHas(active, Goes(records, timeout, now), k);
    }
    forall k | k in active ensures k in records && records[k].state == Waiting {
      var i :| 0 <= i < |active| && active[i] == k;
      assert Linked(active[i], list[i], records);
    }
  }

  predicate ExpiresIn(records: map<Key, Record>, k: Key, timeout: int, now: int) {
    k in records && Expires(records[k], timeout, now)
  }

  function SweptRecords(records: map<Key, Record>, timeout: int, now: int): (r: map<Key, Record>)
    ensures r.Keys == records.Keys
  {
    map k | k in records :: if ExpiresIn(records, k, timeout, now) then Freed(records, k)[k] else records[k]
  }

  /** Part of the expired records are freed, the rest are as they were. */
  ghost predicate Sweeping(was: map<Key, Record>, records: map<Key, Record>, timeout: int, now: int) {
    && records.Keys == was.Keys
    && forall k :: k in was ==>
                     records[k] == was[k] || (ExpiresIn(was, k, timeout, now) && records[k] == Freed(was, k)[k])
  }

  /** Taking out the first element that goes. */
  lemma {:induction false} KeepWithout(s: seq<Key>, i: nat, gone: Key -> bool, stay: Key -> bool)
    requires i < |s| && gone(s[i]) && !stay(s[i]) && forall j :: 0 <= j < i ==> !gone(s[j])
    ensures Keep(s, gone) == [s[i]] + Keep(Without(s, i), gone) && Keep(s, stay) == Keep(Without(s, i), stay)
    decreases i
  {
    var w := Without(s, i);
    if i == 0 {
      assert w == s[1..];
    } else {
      KeepWithout(s[1..], i - 1, gone, stay);
      assert w[0] == s[0] && w[1..] == Without(s[1..], i - 1);
    }
  }

  lemma {:induction false} KeepNone(s: seq<Key>, p: Key -> bool)
    requires forall j :: 0 <= j < |s| ==> !p(s[j])
    ensures Keep(s, p) == []
  {
    if s != [] {
      KeepNone(s[1..], p);
    }
  }

  lemma {:induction false} KeepAll(s: seq<Key>, p: Key -> bool)
    requires forall j :: 0 <= j < |s| ==> p(s[j])
    ensures Keep(s, p) == s
  {
    if s != [] {
      KeepAll(s[1..], p);
    }
  }

  // ---------------------------------------------------------------- windows tile the list

  /** Where call number `k` starts when the first one starts at the head and the list stays as it is. */
  function CallStart(n: nat, size: nat, k: nat): (s: nat)
    ensures s <= n
  {
    if k == 0 then 0
    else
      var e := WindowEnd(n, CallStart(n, size, k - 1), size);
      if e < n then e else 0
  }

  /** The marker that a call leaves is where the next one starts. */
  lemma {:induction false} StartOfIter(list: seq<Node>, e: nat)
    requires NoDup(list) && e <= |list|
    ensures IterAt(list, e) == End || IterAt(list, e).node in list
    ensures Start(list, IterAt(list, e)) == if e < |list| then e else 0
  {
    if e < |list| {
      IndexOfAt(list, e);
    }
  }

  function Calls(n: nat, size: nat): (c: nat)
    requires size > 0
  {
    (n + size - 1) / size
  }

  lemma {:induction false} CallsBound(n: nat, size: nat, c: nat)
    requires size > 0 && c == Calls(n, size)
    ensures n <= c * size && (n > 0 ==> c > 0 && (c - 1) * size < n)
  {
    var m := n + size - 1;
    assert m == (m / size) * size + m % size;
    assert (c - 1) * size == c * size - size;
  }

  lemma {:induction false} CallStarts(n: nat, size: nat, k: nat)
    requires size > 0 && n > 0 && k < Calls(n, size)
    ensures k * size < n && CallStart(n, size, k) == k * size
  {
    var c := Calls(n, size);
    CallsBound(n, size, c);
    Monotone(k, c - 1, size);
    if k > 0 {
      CallStarts(n, size, k - 1);
      assert k * size == (k - 1) * size + size;
    }
  }

  lemma {:induction false} Monotone(a: nat, b: nat, size: nat)
    requires a <= b
    ensures a * size <= b * size
  {
  }

  lemma {:induction false} WrapsAround(n: nat, size: nat, c: nat)
    requires size > 0 && n > 0 && c == Calls(n, size)
    ensures CallStart(n, size, c) == 0
  {
    CallsBound(n, size, c);
    CallStarts(n, size, c - 1);
    assert c * size == (c - 1) * size + size;
  }

  lemma {:induction false} InWindowIff(n: nat, size: nat, k: nat, j: nat)
    requires size > 0 && j < n && k < Calls(n, size)
    ensures InWindow(n, size, k, j) <==> k == j / size
  {
    CallStarts(n, size, k);
    Quotient(j, size, k);
  }

  lemma {:induction false} QuotientBelow(n: nat, size: nat, j: nat, c: nat, q: nat)
    requires size > 0 && j < n && c == Calls(n, size) && q == j / size
    ensures q < c
  {
    CallsBound(n, size, c);
    Quotient(j, size, q);
    if q >= c {
      Monotone(c, q, size);
    }
  }

  /** ceil(n / size) calls set every connection exactly once, in disjoint windows, and then start over. */
  lemma {:induction false} WindowsTile(n: nat, size: nat, j: nat)
    requires size > 0 && j < n
    ensures CallStart(n, size, Calls(n, size)) == 0 && j / size < Calls(n, size)
    ensures forall k :: 0 <= k < Calls(n, size) ==> (InWindow(n, size, k, j) <==> k == j / size)
  {
    var c := Calls(n, size);
    WrapsAround(n, size, c);
    QuotientBelow(n, size, j, c, j / size);
    forall k | 0 <= k < c ensures InWindow(n, size, k, j) <==> k == j / size {
      InWindowIff(n, size, k, j);
    }
  }

  predicate InWindow(n: nat, size: nat, k: nat, j: nat) {
    var s := CallStart(n, size, k);
    s <= j < WindowEnd(n, s, size)
  }

  lemma {:induction false} Quotient(j: nat, size: nat, k: nat)
    requires size > 0
    ensures k * size <= j < k * size + size <==> k == j / size
  {
    var q, r := j / size, j % size;
    assert j == q * size + r;
    if k < q {
      Monotone(k + 1, q, size);
      assert (k + 1) * size == k * size + size;
    } else if k > q {
      Monotone(q + 1, k, size);
      assert (q + 1) * size == q * size + size;
    }
  }

  /** Where call number `k` ends. */
  function CallEnd(n: nat, size: nat, k: nat): (e: nat)
    ensures e <= n
  {
    WindowEnd(n, CallStart(n, size, k), size)
  }

  lemma {:induction false} LastCallEnds(n: nat, size: nat, c: nat)
    requires size > 0 && c == Calls(n, size)
    ensures if n == 0 then c == 0 else c > 0 && CallEnd(n, size, c - 1) == n
  {
    CallsBound(n, size, c);
    if n > 0 {
      CallStarts(n, size, c - 1);
      assert c * size == (c - 1) * size + size;
    } else {
      assert (size - 1) / size == 0;
    }
  }

  /** What call number `k` gives. */
  ghost predicate IsCall(active: seq<Key>, size: nat, k: nat, fds: set<int>, maxfd: int) {
    && fds == Sockets(active, CallStart(|active|, size, k), CallEnd(|active|, size, k))
    && maxfd == Highest(active, CallStart(|active|, size, k), CallEnd(|active|, size, k))
  }

  ghost predicate AreCalls(active: seq<Key>, size: nat, windows: seq<set<int>>, highest: seq<int>) {
    && |highest| == |windows|
    && forall k :: 0 <= k < |windows| ==> IsCall(active, size, k, windows[k], highest[k])
  }

  /** At most `size` active sockets and the highest of them. */
  ghost predicate IsWindow(active: seq<Key>, fds: set<int>, size: nat, maxfd: int) {
    && |fds| <= size && maxfd in fds
    && forall fd :: fd in fds ==> fd in active && fd <= maxfd
  }

  lemma {:induction false} SocketsCount(active: seq<Key>, from: nat, to: nat)
    requires from <= to <= |active|
    ensures |Sockets(active, from, to)| <= to - from
  {
    if from < to {
      SocketsCount(active, from, to - 1);
    }
  }

  lemma {:induction false} CallIsWindow(active: seq<Key>, size: nat, k: nat, fds: set<int>, maxfd: int)
    requires size > 0 && k < Calls(|active|, size) && IsCall(active, size, k, fds, maxfd)
    requires forall j :: 0 <= j < |active| ==> active[j] > 0
    ensures IsWindow(active, fds, size, maxfd)
  {
    var n := |active|;
    LastCallEnds(n, size, Calls(n, size));
    var from, to := CallStart(n, size, k), CallEnd(n, size, k);
    CallStarts(n, size, k);
    assert from < to;
    SocketsCount(active, from, to);
    WindowIs(active, from, to);
  }

  /** A socket is in the window that its position belongs to and in no other, because it is active only once. */
  lemma {:induction false} InWindowOnce(list: seq<Node>, payload: map<Node, Key>, records: map<Key, Record>,
                                        active: seq<Key>, size: nat, k: nat, fds: set<int>, maxfd: int, j: nat)
    requires Consistent(list, payload, records, active) && size > 0 && k < Calls(|active|, size) && j < |active|
    requires IsCall(active, size, k, fds, maxfd) && forall i :: 0 <= i < |active| ==> active[i] > 0
    ensures active[j] in fds <==> k == j / size
  {
    var n := |active|;
    var from, to := CallStart(n, size, k), CallEnd(n, size, k);
    InWindowIff(n, size, k, j);
    WindowIs(active, from, to);
    if active[j] in fds {
      var i :| from <= i < to && active[i] == active[j];
      if i != j {
        ActiveOnce(list, payload, records, active, if i < j then i else j, if i < j then j else i);
      }
    }
  }

  lemma {:induction false} Tiled(list: seq<Node>, payload: map<Node, Key>, records: map<Key, Record>,
                                 active: seq<Key>, size: nat, windows: seq<set<int>>, highest: seq<int>)
    requires Consistent(list, payload, records, active) && size > 0
    requires |windows| == Calls(|active|, size) && AreCalls(active, size, windows, highest)
    ensures forall k, j :: 0 <= k < |windows| && 0 <= j < |active| ==> (active[j] in windows[k] <==> k == j / size)
    ensures forall k :: 0 <= k < |windows| ==> IsWindow(active, windows[k], size, highest[k])
  {
    forall i | 0 <= i < |active| ensures active[i] > 0 {
      assert Linked(active[i], list[i], records);
    }
    forall k, j | 0 <= k < |windows| && 0 <= j < |active| ensures active[j] in windows[k] <==> k == j / size {
      InWindowOnce(list, payload, records, active, size, k, windows[k], highest[k], j);
    }
    forall k | 0 <= k < |windows| ensures IsWindow(active, windows[k], size, highest[k]) {
      CallIsWindow(active, size, k, windows[k], highest[k]);
    }
  }
}
