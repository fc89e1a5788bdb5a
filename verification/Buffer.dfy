/** The growable byte buffer: an array with a capacity and a tail that must refine a plain byte sequence. */
module Buffers {
  import opened Text

  datatype Status = NoError | RegionOutOfBounds | IsEmpty

  /** `sizeof(long)`, which AdjustSize adds to every request. */
  const LONG_SIZE: nat := 8

  /** Leftmost, non-overlapping replacement of `p` by `with` in the part of `s` before its first NUL. */
  function Replaced(s: string, p: string, with: string): (r: string)
    requires p != ""
    decreases |s|
  {
    var i := StrStr(s, p, 0);
    if i == -1 then s else s[..i] + with + Replaced(s[i + |p|..], p, with)
  }

  /** Copies `data` over `dst[at..]`; a C `memcpy` or `memmove`. */
  method Blit(dst: array<Byte>, at: nat, data: Bytes)
    requires at + |data| <= dst.Length
    modifies dst
    ensures forall i :: 0 <= i < dst.Length ==>
                          dst[i] == if at <= i < at + |data| then data[i - at] else old(dst[i])
  {
    forall i | 0 <= i < |data| {
      dst[at + i] := data[i];
    }
  }

  class Buffer {
    var buf: array?<Byte>
    var size: nat
    var tail: nat
    var minAlloc: int
    var midAlloc: int

    /** Either nothing is allocated and the sizes are zero, or the terminator still fits behind the content. */
    ghost predicate Valid()
      reads this
    {
      if buf == null then size == 0 && tail == 0 else tail < size <= buf.Length
    }

    ghost function Repr(): (r: set<object>)
      reads this
    {
      if buf == null then {this} else {this, buf}
    }

    ghost function Contents(): (s: Bytes)
      requires Valid()
      reads this, buf
      ensures |s| == tail
    {
      if buf == null then [] else buf[..tail]
    }

    ghost predicate Terminated()
      requires Valid()
      reads this, buf
    {
      buf != null ==> buf[tail] == NUL
    }

    constructor ()
      ensures Valid() && fresh(Repr()) && buf == null && Contents() == []
      ensures minAlloc == 32 && midAlloc == 256
    {
      buf, size, tail, minAlloc, midAlloc := null, 0, 0, 32, 256;
    }

    method SetMemAlgo(minAlloc: int, midAlloc: int)
      requires Valid()
      modifies this
      ensures Valid() && Contents() == old(Contents()) && buf == old(buf) && size == old(size)
      ensures this.minAlloc == minAlloc && this.midAlloc == midAlloc
    {
      this.minAlloc, this.midAlloc := minAlloc, midAlloc;
    }

    /** Never below the request plus a long, whatever the tuning values, and never below the minimum. */
    function AdjustSize(request: nat): (n: nat)
      reads this
      ensures n >= request + LONG_SIZE && n >= minAlloc
    {
      var n := request + LONG_SIZE;
      if n <= minAlloc then minAlloc
      else if n < midAlloc then n * 3 / 2
      else n
    }

    /** Makes room for more than `request` bytes; the content does not change. */
    method SetBufferSize(request: nat)
      requires Valid()
      modifies Repr()
      ensures Valid() && fresh(Repr() - old(Repr())) && buf != null
      ensures Contents() == old(Contents())
      ensures size > request && size >= old(size)
      ensures old(buf) != null && request < old(size) ==> buf == old(buf) && size == old(size)
      ensures old(buf) == null || request >= old(size) ==> size >= minAlloc
      ensures minAlloc == old(minAlloc) && midAlloc == old(midAlloc)
    {
      if buf != null {
        if request >= size {
          var n := AdjustSize(request);
          var grown := new Byte[n](_ => NUL);
          Blit(grown, 0, buf[..size]);
          buf, size := grown, n;
        }
      } else {
        var n := AdjustSize(request);
        buf := new Byte[n](_ => NUL);
        size, tail := n, 0;
      }
    }

    method Reset()
      requires Valid()
      modifies this
      ensures Valid() && Contents() == [] && buf == old(buf) && size == old(size)
      ensures minAlloc == old(minAlloc) && midAlloc == old(midAlloc)
    {
      tail := 0;
    }

    method Flush()
      requires Valid()
      modifies this
      ensures Valid() && buf == null && Contents() == []
      ensures minAlloc == old(minAlloc) && midAlloc == old(midAlloc)
    {
      buf, size, tail := null, 0, 0;
    }

    /** Writes the terminator behind the content. */
    method MakeString()
      requires Valid()
      modifies buf
      ensures Valid() && Terminated() && Contents() == old(Contents())
    {
      if buf != null {
        buf[tail] := NUL;
      }
    }

    method Append(data: Bytes)
      requires Valid()
      modifies Repr()
      ensures Valid() && fresh(Repr() - old(Repr()))
      ensures Contents() == old(Contents()) + data
      ensures data != [] ==> buf != null && Terminated()
      ensures data == [] ==> buf == old(buf) && size == old(size)
      ensures minAlloc == old(minAlloc) && midAlloc == old(midAlloc)
    {
      if |data| == 0 {
        return;
      }
      if |data| >= size - tail {
        SetBufferSize(|data| - (size - tail) + size);
      }
      ghost var before := buf[..];
      Blit(buf, tail, data);
      assert buf[..tail + |data|] == before[..tail] + data;
      tail := tail + |data|;
      MakeString();
    }

    method ReplaceWith(data: Bytes)
      requires Valid()
      modifies Repr()
      ensures Valid() && fresh(Repr() - old(Repr())) && Contents() == data
      ensures minAlloc == old(minAlloc) && midAlloc == old(midAlloc)
    {
      Reset();
      Append(data);
    }

    /** A new block holding the content with `data` spliced in at `index`. */
    method Spliced(index: nat, data: Bytes, newSize: nat) returns (grown: array<Byte>)
      requires Valid() && index <= tail && |data| + tail < newSize
      ensures fresh(grown) && grown.Length == newSize + 1
      ensures grown[..|data| + tail] == Contents()[..index] + data + Contents()[index..]
    {
      grown := new Byte[newSize + 1](_ => NUL);
      if buf != null {
        Blit(grown, index + |data|, buf[index..tail]);
      }
      Blit(grown, index, data);
      if index != 0 {
        Blit(grown, 0, buf[..index]);
      }
    }

    /** Splices `data` in at `index`, in place when it fits and into a new block otherwise. */
    method Insert(index: nat, data: Bytes)
      requires Valid() && index <= tail
      modifies Repr()
      ensures Valid() && fresh(Repr() - old(Repr()))
      ensures Contents() == old(Contents()[..index]) + data + old(Contents()[index..])
      ensures buf != null && Terminated()
      ensures minAlloc == old(minAlloc) && midAlloc == old(midAlloc)
    {
      ghost var was := Contents();
      var newSize := |data| + tail + 1;
      if newSize > size {
        newSize := AdjustSize(newSize);
        buf := Spliced(index, data, newSize);
        size := newSize;
      } else {
        Blit(buf, index + |data|, buf[index..tail]);
        Blit(buf, index, data);
        assert buf[..|data| + tail] == was[..index] + data + was[index..];
      }
      tail := tail + |data|;
      MakeString();
    }

    method Prepend(data: Bytes)
      requires Valid()
      modifies Repr()
      ensures Valid() && fresh(Repr() - old(Repr()))
      ensures Contents() == data + old(Contents())
    {
      Insert(0, data);
    }

    /** What Remove's own checks let through: a region that ends inside the capacity. */
    predicate RemoveAccepts(index: nat, length: nat)
      reads this
    {
      var n := if length > size then size else length;
      tail != 0 && n != 0 && index + n <= size
    }

    /** Cuts a region out. The checks compare with the capacity; past the content the move length would be negative. */
    method Remove(index: nat, length: nat) returns (status: Status)
      requires Valid()
      requires RemoveAccepts(index, length) ==> index + length <= tail
      modifies Repr()
      ensures Valid() && buf == old(buf) && size == old(size)
      ensures minAlloc == old(minAlloc) && midAlloc == old(midAlloc)
      ensures status == (if old(tail) == 0 then IsEmpty
                         else if old(RemoveAccepts(index, length)) then NoError else RegionOutOfBounds)
      ensures status == NoError ==> Contents() == old(Contents()[..index]) + old(Contents()[index + length..])
      ensures status != NoError ==> Contents() == old(Contents())
    {
      if tail == 0 {
        return IsEmpty;
      }
      var n := if length > size then size else length;
      var end := n + index;
      if n == 0 || end > size {
        return RegionOutOfBounds;
      }
      ghost var was := Contents();
      if tail != end {
        Blit(buf, index, buf[end..tail]);
      }
      assert buf[..tail - n] == was[..index] + was[end..];
      tail := tail - n;
      return NoError;
    }

    method Truncate(count: nat)
      requires Valid() && count <= tail
      modifies this
      ensures Valid() && buf == old(buf) && size == old(size)
      ensures Contents() == old(Contents()[..tail - count])
    {
      tail := tail - count;
    }

    method Find(pattern: Bytes, from: nat) returns (i: int)
      requires Valid() && (tail == 0 || from <= tail)
      modifies buf
      ensures Valid() && Contents() == old(Contents()) && Terminated() == (tail != 0 || old(Terminated()))
      ensures i == if tail == 0 then -1 else StrStr(Contents(), pattern, from)
    {
      if tail == 0 {
        return -1;
      }
      MakeString();
      i := StrStr(buf[..tail], pattern, from);
    }

    /** Scans the content, terminator included in the reads, for the first occurrence of a NUL-free pattern. */
    method BinaryFind(pattern: Bytes) returns (r: int)
      requires Valid() && Terminated() && NUL !in pattern && pattern != []
      ensures r == IndexFrom(Contents(), pattern, 0)
    {
      if tail == 0 {
        return -1;
      }
      ghost var s := Contents();
      var i := 0;
      while i < tail
        invariant 0 <= i <= tail
        invariant forall h :: 0 <= h < i ==> !OccursAt(s, pattern, h)
      {
        var j, k := 0, i;
        while j < |pattern| && pattern[j] == buf[i]
          invariant 0 <= j <= |pattern| && i == k + j <= tail
          invariant s[k..i] == pattern[..j]
        {
          assert i != tail;
          j, i := j + 1, i + 1;
        }
        if j == |pattern| {
          FirstIsIndexFrom(s, pattern, 0, k);
          return k;
        }
        i := k + 1;
      }
      AbsentIsMinusOne(s, pattern, 0);
      return -1;
    }

    method FindChar(c: Byte, from: nat) returns (r: int)
      requires Valid()
      ensures r == -1 ==> forall h :: from <= h < tail ==> Contents()[h] != c
      ensures r != -1 ==> from <= r < tail && Contents()[r] == c && forall h :: from <= h < r ==> Contents()[h] != c
    {
      var i := from;
      while i < tail
        invariant from <= i
        invariant forall h :: from <= h < i && h < tail ==> buf[h] != c
      {
        if buf[i] == c {
          return i;
        }
        i := i + 1;
      }
      return -1;
    }

    /** What ReplaceAll is heading for when everything before `idx` is finished. */
    ghost function Goal(pattern: Bytes, with: Bytes, idx: nat): (r: string)
      requires Valid() && idx <= tail && pattern != []
      reads this, buf
    {
      Contents()[..idx] + Replaced(Contents()[idx..], pattern, with)
    }

    /** One replacement: cut the occurrence out, splice `with` in, skip it. */
    method ReplaceNext(pattern: Bytes, with: Bytes, ghost idx: nat, at: nat) returns (next: nat)
      requires Valid() && pattern != [] && idx <= tail && at == StrStr(Contents(), pattern, idx)
      modifies Repr()
      ensures Valid() && fresh(Repr() - old(Repr()))
      ensures next <= tail && tail - next < old(tail) - idx
      ensures Goal(pattern, with, next) == old(Goal(pattern, with, idx))
    {
      ghost var cur := Contents();
      var _ := Remove(at, |pattern|);
      assert Contents()[..at] == cur[..at] && Contents()[at..] == cur[at + |pattern|..];
      Insert(at, with);
      next := at + |with|;
      SwapGoal(cur, Contents(), pattern, with, idx, at, Replaced(cur[idx..], pattern, with));
    }

    /** Find, replace, skip the replacement: the unscanned suffix shrinks, so this ends. */
    method ReplaceAll(pattern: Bytes, with: Bytes)
      requires Valid() && pattern != [] && NUL !in pattern && NUL !in with
      modifies Repr()
      ensures Valid() && fresh(Repr() - old(Repr()))
      ensures Contents() == Replaced(old(Contents()), pattern, with)
    {
      assert Contents()[0..] == Contents();
      var idx := 0;
      var at := Find(pattern, idx);
      while at != -1
        invariant Valid() && fresh(Repr() - old(Repr())) && 0 <= idx <= tail
        invariant at == if tail == 0 then -1 else StrStr(Contents(), pattern, idx)
        invariant Goal(pattern, with, idx) == Replaced(old(Contents()), pattern, with)
        decreases tail - idx
      {
        idx := ReplaceNext(pattern, with, idx, at);
        at := Find(pattern, idx);
      }
      SwapDone(Contents(), pattern, with, idx);
    }
  }

  /** One step of Replaced, seen from an index into the whole text. */
  lemma {:induction false} SwapStep(cur: string, p: string, with: string, idx: nat, at: nat, todo: string)
    requires p != "" && idx <= |cur| && at == StrStr(cur, p, idx)
    requires todo == Replaced(cur[idx..], p, with)
    ensures todo == cur[idx..][..at - idx] + with + Replaced(cur[idx..][at - idx + |p|..], p, with)
  {
    StrStrOfSuffix(cur, cur[idx..], p, idx, 0);
  }

  lemma {:induction false} SwapGoal(cur: string, now: string, p: string, with: string, idx: nat, at: nat, todo: string)
    requires p != "" && idx <= |cur| && at == StrStr(cur, p, idx)
    requires now == cur[..at] + with + cur[at + |p|..]
    requires todo == Replaced(cur[idx..], p, with)
    ensures now[..at + |with|] + Replaced(now[at + |with|..], p, with) == cur[..idx] + todo
  {
    SwapStep(cur, p, with, idx, at, todo);
    var rest := cur[idx..][at - idx + |p|..];
    SwapSlices(cur, now, with, idx, at, |p|, Replaced(rest, p, with));
  }

  lemma {:induction false} SwapSlices(cur: string, next: string, with: string, idx: nat, at: nat, n: nat, rest: string)
    requires idx <= at && at + n <= |cur| && next == cur[..at] + with + cur[at + n..]
    ensures next[at + |with|..] == cur[idx..][at - idx + n..] == cur[at + n..]
    ensures cur[..idx] + (cur[idx..][..at - idx] + with + rest) == next[..at + |with|] + rest
  {
    assert cur[..idx] + cur[idx..][..at - idx] == cur[..at];
    Regroup(cur[..idx], cur[idx..][..at - idx], with, rest);
    assert next[..at + |with|] == cur[..at] + with;
  }

  /** Without a further occurrence the rest is kept. */
  lemma {:induction false} SwapDone(cur: string, p: string, with: string, idx: nat)
    requires p != "" && idx <= |cur| && (cur == "" || StrStr(cur, p, idx) == -1)
    ensures cur[..idx] + Replaced(cur[idx..], p, with) == cur
  {
    StrStrOfSuffix(cur, cur[idx..], p, idx, 0);
  }

  lemma {:induction false} Regroup(a: string, b: string, c: string, d: string)
    ensures a + (b + c + d) == (a + b + c) + d
  {
  }

  /** Only the unscanned suffix matters to a search and to the terminator. */
  lemma {:induction false} StrStrOfSuffix(s: string, t: string, p: string, i: nat, j: nat)
    requires i <= |s| && j <= |t| && s[i..] == t[j..]
    ensures StrStr(t, p, j) == var r := StrStr(s, p, i); if r == -1 then -1 else r - i + j
  {
    StrEndOfSuffix(s, t, i, j);
    var e, f := StrEnd(s, i), StrEnd(t, j);
    assert s[..e][i..] == s[i..][..e - i] == t[..f][j..];
    IndexFromOfSuffix(s[..e], t[..f], p, i, j);
  }

  lemma {:induction false} StrEndOfSuffix(s: string, t: string, i: nat, j: nat)
    requires i <= |s| && j <= |t| && s[i..] == t[j..]
    ensures StrEnd(t, j) - j == StrEnd(s, i) - i
    decreases |s| - i
  {
    if i < |s| {
      assert s[i] == s[i..][0] == t[j];
      assert s[i + 1..] == s[i..][1..] == t[j + 1..];
      StrEndOfSuffix(s, t, i + 1, j + 1);
    }
  }

  lemma {:induction false} IndexFromOfSuffix(s: string, t: string, p: string, i: nat, j: nat)
    requires i <= |s| && j <= |t| && s[i..] == t[j..]
    ensures IndexFrom(t, p, j) == var r := IndexFrom(s, p, i); if r == -1 then -1 else r - i + j
    decreases |s| - i
  {
    if i + |p| <= |s| {
      assert forall k :: 0 <= k < |p| ==> s[i + k] == s[i..][k] == t[j + k];
      if !OccursAt(s, p, i) && i < |s| {
        assert s[i + 1..] == s[i..][1..] == t[j + 1..];
        IndexFromOfSuffix(s, t, p, i + 1, j + 1);
      }
    }
  }

  /** The pieces with `sep` between them. */
  function Join(ps: seq<string>, sep: string): (r: string)
    requires ps != []
    decreases |ps|
  {
    if |ps| == 1 then ps[0] else ps[0] + sep + Join(ps[1..], sep)
  }

  /** `ps` are the pieces of a text between the occurrences of `p`, each found as far left as possible, up to the first
      NUL. */
  ghost predicate Cuts(ps: seq<string>, p: string) {
    && ps != []
    && (forall k :: 0 <= k < |ps| - 1 ==> NUL !in ps[k] + p && FirstAt(ps[k] + p, p, 0, |ps[k]|))
    && StrStr(ps[|ps| - 1], p, 0) == -1
  }

  lemma {:induction false} FirstCut(s: string, p: string, i: int)
    requires p != "" && i == StrStr(s, p, 0) != -1
    ensures var a := s[..i]; s == a + p + s[i + |p|..] && NUL !in a + p && FirstAt(a + p, p, 0, i)
  {
    var t := s[..StrEnd(s, 0)];
    IndexFromFinds(t, p, 0);
    var a := s[..i];
    assert s[i..i + |p|] == p by {
      assert forall k :: 0 <= k < |p| ==> s[i + k] == t[i + k] == p[k];
    }
    assert a + p == t[..i + |p|];
    assert forall k :: 0 <= k < |a + p| ==> (a + p)[k] == t[k];
    assert forall h :: 0 <= h < i ==> OccursAt(a + p, p, h) == OccursAt(t, p, h);
  }

  lemma {:induction false} JoinMore(a: string, ps: seq<string>, sep: string)
    requires ps != []
    ensures Join([a] + ps, sep) == a + sep + Join(ps, sep)
  {
    assert ([a] + ps)[1..] == ps;
  }

  lemma {:induction false} CutsMore(a: string, ps: seq<string>, p: string)
    requires Cuts(ps, p) && NUL !in a + p && FirstAt(a + p, p, 0, |a|)
    ensures Cuts([a] + ps, p)
  {
    var qs := [a] + ps;
    forall k | 0 <= k < |qs| - 1 ensures NUL !in qs[k] + p && FirstAt(qs[k] + p, p, 0, |qs[k]|) {
      if k > 0 {
        assert qs[k] == ps[k - 1];
      }
    }
  }

  /** Replacing is cutting the text at the occurrences of the pattern and joining the pieces with the replacement. */
  lemma {:induction false} ReplacedIsJoin(s: string, p: string, with: string) returns (ps: seq<string>)
    requires p != ""
    ensures Cuts(ps, p) && Join(ps, p) == s && Join(ps, with) == Replaced(s, p, with)
    decreases |s|
  {
    var i := StrStr(s, p, 0);
    if i == -1 {
      ps := [s];
    } else {
      FirstCut(s, p, i);
      var rest := ReplacedIsJoin(s[i + |p|..], p, with);
      CutsMore(s[..i], rest, p);
      JoinMore(s[..i], rest, p);
      JoinMore(s[..i], rest, with);
      ps := [s[..i]] + rest;
    }
  }
}
