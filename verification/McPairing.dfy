/** Which opener each closer gets, and exactly when that is the opener it belongs to. */
module McPairing {
  import opened Collections
  import opened McScript

  /** The positions below `n` where `p` holds, from the left. */
  function Where(s: string, n: nat, p: char -> bool): (ps: seq<nat>)
    requires n <= |s|
    ensures forall k :: 0 <= k < |ps| ==> ps[k] < n && p(s[ps[k]])
  {
    if n == 0 then [] else Where(s, n - 1, p) + if p(s[n - 1]) then [n - 1] else []
  }

  function OpenersIn(s: string): (ps: seq<nat>)
    ensures forall k :: 0 <= k < |ps| ==> ps[k] < |s| && IsOpener(s[ps[k]])
  {
    Where(s, |s|, IsOpener)
  }

  function ClosersIn(s: string): (ps: seq<nat>)
    ensures forall k :: 0 <= k < |ps| ==> ps[k] < |s| && IsCloser(s[ps[k]])
  {
    Where(s, |s|, IsCloser)
  }

  /** Bracket matching: the openers among the first `n` characters that no closer among them has used up. */
  function Unclosed(s: string, n: nat): (ps: seq<nat>)
    requires n <= |s|
    ensures forall k :: 0 <= k < |ps| ==> ps[k] < n
  {
    if n == 0 then []
    else
      var ps := Unclosed(s, n - 1);
      if IsOpener(s[n - 1]) then ps + [n - 1]
      else if IsCloser(s[n - 1]) && ps != [] then ps[..|ps| - 1]
      else ps
  }

  /** The opener that the closer at `c` belongs to. */
  function Own(s: string, c: nat): (o: Option<nat>)
    requires c <= |s|
  {
    var ps := Unclosed(s, c);
    if ps == [] then None else Some(ps[|ps| - 1])
  }

  /** No opener stands behind a closer. */
  predicate Nests(s: string) {
    forall i, j :: 0 <= i < j < |s| ==> !(IsCloser(s[i]) && IsOpener(s[j]))
  }

  // ---------------------------------------------------------------- positions

  lemma {:induction false} WherePrefix(s: string, m: nat, n: nat, p: char -> bool)
    requires m <= n <= |s|
    ensures |Where(s, m, p)| <= |Where(s, n, p)| && Where(s, n, p)[..|Where(s, m, p)|] == Where(s, m, p)
  {
    if m < n {
      WherePrefix(s, m, n - 1, p);
      var a, b, c := Where(s, m, p), Where(s, n - 1, p), Where(s, n, p);
      assert c[..|a|] == b[..|a|];
    }
  }

  /** A position where `p` holds comes right behind those in front of it. */
  lemma {:induction false} WhereAt(s: string, n: nat, p: char -> bool, i: nat)
    requires i < n <= |s| && p(s[i])
    ensures |Where(s, i, p)| < |Where(s, n, p)| && Where(s, n, p)[|Where(s, i, p)|] == i
  {
    WherePrefix(s, i + 1, n, p);
    var a, b, c := Where(s, i, p), Where(s, i + 1, p), Where(s, n, p);
    assert b == a + [i];
    assert c[|a|] == c[..|b|][|a|] == b[|a|];
  }

  /** The converse: what is in front of the `k`-th position are the `k` before it. */
  lemma {:induction false} WhereBefore(s: string, n: nat, p: char -> bool, k: nat)
    requires n <= |s| && k < |Where(s, n, p)|
    ensures |Where(s, Where(s, n, p)[k], p)| == k
  {
    var ps := Where(s, n - 1, p);
    if k < |ps| {
      WhereBefore(s, n - 1, p, k);
    }
  }

  // ---------------------------------------------------------------- the pairing is right exactly when the text nests

  /** With openers first and closers behind them, what is unclosed is the openers read less the closers read. */
  lemma {:induction false} UnclosedNested(s: string, x: nat, a: nat, b: nat)
    requires Nests(s) && x <= |s| && |OpenersIn(s)| == |ClosersIn(s)|
    requires a == |Where(s, x, IsOpener)| && b == |Where(s, x, IsCloser)|
    ensures b <= a <= |OpenersIn(s)| && Unclosed(s, x) == OpenersIn(s)[..a - b]
  {
    if x > 0 {
      var a0, b0 := |Where(s, x - 1, IsOpener)|, |Where(s, x - 1, IsCloser)|;
      UnclosedNested(s, x - 1, a0, b0);
      UnclosedNext(s, x - 1, a0, b0, OpenersIn(s), ClosersIn(s), Unclosed(s, x - 1));
    }
  }

  lemma {:induction false} UnclosedNext(s: string, x: nat, a: nat, b: nat, os: seq<nat>, cs: seq<nat>, ps: seq<nat>)
    requires Nests(s) && x < |s| && os == OpenersIn(s) && cs == ClosersIn(s) && |os| == |cs|
    requires a == |Where(s, x, IsOpener)| && b == |Where(s, x, IsCloser)| && ps == Unclosed(s, x)
    requires b <= a <= |os| && ps == os[..a - b]
    ensures IsOpener(s[x]) ==> a < |os| && b == 0 && ps + [x] == os[..a + 1]
    ensures IsCloser(s[x]) ==> b < a && ps[..|ps| - 1] == os[..a - b - 1]
  {
    if IsOpener(s[x]) {
      WhereAt(s, |s|, IsOpener, x);
      NoCloserBefore(s, x);
    } else if IsCloser(s[x]) {
      WhereAt(s, |s|, IsCloser, x);
      NoOpenerBehind(s, x);
    }
  }

  lemma {:induction false} NoCloserBefore(s: string, x: nat)
    requires Nests(s) && x < |s| && IsOpener(s[x])
    ensures Where(s, x, IsCloser) == []
  {
    WherePlain(s, 0, x, IsCloser);
  }

  lemma {:induction false} NoOpenerBehind(s: string, x: nat)
    requires Nests(s) && x < |s| && IsCloser(s[x])
    ensures |Where(s, x, IsOpener)| == |OpenersIn(s)|
  {
    var os, a := OpenersIn(s), |Where(s, x, IsOpener)|;
    WherePrefix(s, x, |s|, IsOpener);
    if a < |os| {
      WhereBefore(s, |s|, IsOpener, a);
      var o := os[a];
      if o < x {
        WhereAt(s, x, IsOpener, o);
      }
    }
  }

  /** Closer number `k` of `n` gets opener number `n - 1 - k`; each closer's own one is that. */
  ghost predicate PairsOwn(s: string)
    requires |OpenersIn(s)| == |ClosersIn(s)|
  {
    var os, cs := OpenersIn(s), ClosersIn(s);
    forall k :: 0 <= k < |cs| ==> Own(s, cs[k]) == Some(os[|os| - 1 - k])
  }

  lemma {:induction false} NestedPairsOwn(s: string)
    requires |OpenersIn(s)| == |ClosersIn(s)| && Nests(s)
    ensures PairsOwn(s)
  {
    var os, cs := OpenersIn(s), ClosersIn(s);
    forall k | 0 <= k < |cs| ensures Own(s, cs[k]) == Some(os[|os| - 1 - k]) {
      WhereBefore(s, |s|, IsCloser, k);
      UnclosedNested(s, cs[k], |Where(s, cs[k], IsOpener)|, k);
      NoOpenerBehind(s, cs[k]);
    }
  }

  lemma {:induction false} PairsOwnNested(s: string, i: nat, j: nat)
    requires |OpenersIn(s)| == |ClosersIn(s)| && PairsOwn(s) && i < j < |s| && IsCloser(s[i])
    ensures !IsOpener(s[j])
  {
    var os, cs := OpenersIn(s), ClosersIn(s);
    WhereAt(s, |s|, IsCloser, i);
    var k := |Where(s, i, IsCloser)|;
    assert cs[k] == i && Own(s, i) == Some(os[|os| - 1 - k]);
    assert |Where(s, 0, IsCloser)| == 0;
    FirstCloser(s, i);
    assert Own(s, cs[0]) == Some(os[|os| - 1]);
    if IsOpener(s[j]) {
      WhereAt(s, |s|, IsOpener, j);
      Ascending(s, |s|, IsOpener, |Where(s, j, IsOpener)|, |os| - 1);
    }
  }

  lemma {:induction false} FirstCloser(s: string, i: nat)
    requires i < |s| && IsCloser(s[i])
    ensures ClosersIn(s) != [] && ClosersIn(s)[0] <= i
  {
    WhereAt(s, |s|, IsCloser, i);
    Ascending(s, |s|, IsCloser, 0, |Where(s, i, IsCloser)|);
  }

  lemma {:induction false} Ascending(s: string, n: nat, p: char -> bool, i: nat, j: nat)
    requires n <= |s| && i <= j < |Where(s, n, p)|
    ensures Where(s, n, p)[i] <= Where(s, n, p)[j]
  {
    var ps := Where(s, n - 1, p);
    if j < |ps| {
      Ascending(s, n - 1, p, i, j);
    }
  }

  /** For every statement with as many closers as openers: the stack and the queue pair each closer with its own opener
      if and only if no opener stands behind a closer. */
  lemma {:induction false} PairingRightIff(s: string)
    requires |OpenersIn(s)| == |ClosersIn(s)|
    ensures PairsOwn(s) <==> Nests(s)
  {
    if Nests(s) {
      NestedPairsOwn(s);
    }
    if PairsOwn(s) {
      forall i, j | 0 <= i < j < |s| ensures !(IsCloser(s[i]) && IsOpener(s[j])) {
        if IsCloser(s[i]) {
          PairsOwnNested(s, i, j);
        }
      }
    }
  }

  // ---------------------------------------------------------------- the translation follows the pairing

  /** Where the text in front of the delimiter at `p` starts. */
  function Mark(s: string, p: nat): (m: nat)
    requires p <= |s|
    ensures m <= p
  {
    if p == 0 || IsDelimiter(s[p - 1]) then p else Mark(s, p - 1)
  }

  function OpenerAt(s: string, p: nat, garbage: nat -> StatementType): (o: Opener)
    requires p < |s|
  {
    var m := Mark(s, p);
    OpenerOf(s[p], s[m..p], garbage(|s| - m))
  }

  function CloserAt(s: string, p: nat): (c: Closer)
    requires p < |s|
  {
    Closer(s[p] == ')', s[Mark(s, p)..p])
  }

  ghost predicate ReadOpeners(s: string, os: seq<nat>, garbage: nat -> StatementType, stack: seq<Opener>) {
    && |stack| == |os|
    && forall i :: 0 <= i < |os| ==> os[i] < |s| && stack[i] == OpenerAt(s, os[i], garbage)
  }

  ghost predicate ReadClosers(s: string, cs: seq<nat>, queue: seq<Closer>) {
    && |queue| == |cs|
    && forall k :: 0 <= k < |cs| ==> cs[k] < |s| && queue[k] == CloserAt(s, cs[k])
  }

  /** The elements made from the text in front of `m`. */
  ghost predicate Read(s: string, m: nat, garbage: nat -> StatementType, e: Elements)
    requires m <= |s|
  {
    ReadOpeners(s, Where(s, m, IsOpener), garbage, e.stack) && ReadClosers(s, Where(s, m, IsCloser), e.queue)
  }

  lemma {:induction false} WherePlain(s: string, m: nat, x: nat, p: char -> bool)
    requires m <= x <= |s| && forall h :: m <= h < x ==> !p(s[h])
    ensures Where(s, x, p) == Where(s, m, p)
  {
    if m < x {
      WherePlain(s, m, x - 1, p);
    }
  }

  lemma {:induction false} MarkPlain(s: string, m: nat, x: nat)
    requires m <= x <= |s| && (m == 0 || IsDelimiter(s[m - 1])) && forall h :: m <= h < x ==> !IsDelimiter(s[h])
    ensures Mark(s, x) == m
  {
    if m < x {
      MarkPlain(s, m, x - 1);
    }
  }

  lemma {:induction false} ReadOpener(s: string, os: seq<nat>, garbage: nat -> StatementType, stack: seq<Opener>,
                                      x: nat, o: Opener)
    requires ReadOpeners(s, os, garbage, stack) && x < |s| && o == OpenerAt(s, x, garbage)
    ensures ReadOpeners(s, os + [x], garbage, stack + [o])
  {
  }

  lemma {:induction false} ReadCloser(s: string, cs: seq<nat>, queue: seq<Closer>, x: nat, c: Closer)
    requires ReadClosers(s, cs, queue) && x < |s| && c == CloserAt(s, x)
    ensures ReadClosers(s, cs + [x], queue + [c])
  {
  }

  lemma {:induction false} ReadNext(s: string, m: nat, x: nat, garbage: nat -> StatementType, e: Elements)
    requires m <= x < |s| && (m == 0 || IsDelimiter(s[m - 1])) && (forall h :: m <= h < x ==> !IsDelimiter(s[h]))
    requires IsDelimiter(s[x]) && Read(s, m, garbage, e)
    ensures Read(s, x + 1, garbage, Pushed(e, s[x], s[m..x], garbage(|s| - m)))
  {
    var os, cs := Where(s, m, IsOpener), Where(s, m, IsCloser);
    WherePlain(s, m, x, IsOpener);
    WherePlain(s, m, x, IsCloser);
    MarkPlain(s, m, x);
    if IsOpener(s[x]) {
      ReadOpener(s, os, garbage, e.stack, x, OpenerOf(s[x], s[m..x], garbage(|s| - m)));
    } else {
      ReadCloser(s, cs, e.queue, x, Closer(s[x] == ')', s[m..x]));
    }
  }

  lemma {:induction false} PlainUpTo(s: string, mark: nat, pos: nat)
    requires mark <= |s| && pos == NextDelimiter(s[mark..])
    ensures mark + pos <= |s| && forall h :: mark <= h < mark + pos ==> !IsDelimiter(s[h])
  {
    var t := s[mark..];
    PlainBefore(t);
    assert forall h :: mark <= h < mark + pos ==> s[h] == t[..pos][h - mark];
  }

  lemma {:induction false} ReadStep(s: string, mark: nat, t: string, pos: nat, garbage: nat -> StatementType,
                                    e: Elements, r: Elements) returns (m: nat, u: string, next: Elements)
    requires mark <= |s| && (mark == 0 || IsDelimiter(s[mark - 1])) && t == s[mark..]
    requires pos == NextDelimiter(t) && pos < |t| && Read(s, mark, garbage, e) && r == Parsed(t, garbage, e)
    ensures m <= |s| && (m == 0 || IsDelimiter(s[m - 1])) && u == s[m..] && |u| < |t|
    ensures Read(s, m, garbage, next) && r == Parsed(u, garbage, next)
  {
    m := mark + pos + 1;
    u := s[m..];
    var c, text, g := s[mark + pos], s[mark..mark + pos], garbage(|s| - mark);
    next := Pushed(e, c, text, g);
    Rest(s, mark, t, pos);
    ParsedNext(t, pos, c, text, u, garbage, e, g);
    ReadTo(s, mark, pos, garbage, e, c, text, g, next);
  }

  lemma {:induction false} ReadTo(s: string, mark: nat, pos: nat, garbage: nat -> StatementType, e: Elements, c: char,
                                  text: string, g: StatementType, next: Elements)
    requires mark + pos < |s| && (mark == 0 || IsDelimiter(s[mark - 1])) && pos == NextDelimiter(s[mark..])
    requires Read(s, mark, garbage, e) && c == s[mark + pos] && text == s[mark..mark + pos] && g == garbage(|s| - mark)
    requires next == Pushed(e, c, text, g) && IsDelimiter(c)
    ensures Read(s, mark + pos + 1, garbage, next)
  {
    PlainUpTo(s, mark, pos);
    ReadNext(s, mark, mark + pos, garbage, e);
  }

  lemma {:induction false} ReadRest(s: string, mark: nat, garbage: nat -> StatementType, e: Elements)
    requires mark <= |s| && Read(s, mark, garbage, e) && mark + NextDelimiter(s[mark..]) == |s|
    ensures Read(s, |s|, garbage, e) && Parsed(s[mark..], garbage, e) == e
  {
    NothingLeft(s[mark..], garbage, e);
    PlainUpTo(s, mark, |s| - mark);
    WherePlain(s, mark, |s|, IsOpener);
    WherePlain(s, mark, |s|, IsCloser);
  }

  /** What is read from `mark` on. */
  lemma {:induction false} ParsedInOrderFrom(s: string, mark: nat, t: string, garbage: nat -> StatementType,
                                             e: Elements, r: Elements)
    requires mark <= |s| && (mark == 0 || IsDelimiter(s[mark - 1])) && t == s[mark..]
    requires Read(s, mark, garbage, e) && r == Parsed(t, garbage, e)
    ensures Read(s, |s|, garbage, r)
    decreases |t|
  {
    var pos := NextDelimiter(t);
    if pos == |t| {
      ReadRest(s, mark, garbage, e);
    } else {
      var m, u, next := ReadStep(s, mark, t, pos, garbage, e, r);
      ParsedInOrderFrom(s, m, u, garbage, next, r);
    }
  }

  /** Opener number `i` on the stack is the `i`-th of the text, and closer number `k` in the queue the `k`-th. */
  lemma {:induction false} ParsedInOrder(s: string, garbage: nat -> StatementType)
    ensures Read(s, |s|, garbage, Parsed(s, garbage, NOTHING))
  {
    assert s[0..] == s;
    ParsedInOrderFrom(s, 0, s, garbage, NOTHING, Parsed(s, garbage, NOTHING));
  }

  /** Emits the pairs from closer number `k` on, closer `k` with opener `n - 1 - k`. */
  function Weave(s: string, garbage: nat -> StatementType, k: nat, last: string): (r: string)
    requires |OpenersIn(s)| == |ClosersIn(s)|
    decreases |ClosersIn(s)| - k
  {
    var os, cs := OpenersIn(s), ClosersIn(s);
    if k >= |cs| then last
    else
      match Emit(OpenerAt(s, os[|os| - 1 - k], garbage), CloserAt(s, cs[k]), last)
      case Thrown => "$"
      case Emitted(text) => Weave(s, garbage, k + 1, text)
  }

  lemma {:induction false} PairedTop(all: Elements, k: nat, last: string)
    requires |all.stack| == |all.queue| && k < |all.stack|
    ensures var n := |all.stack| - k;
            Paired(all.stack[..n], all.queue[k..], last)
            == match Emit(all.stack[n - 1], all.queue[k], last)
               case Thrown => "$"
               case Emitted(text) => Paired(all.stack[..n - 1], all.queue[k + 1..], text)
  {
    var n := |all.stack| - k;
    var stack, queue := all.stack[..n], all.queue[k..];
    assert stack[..n - 1] == all.stack[..n - 1] && queue[1..] == all.queue[k + 1..];
  }

  lemma {:induction false} PairedWeave(s: string, garbage: nat -> StatementType, e: Elements, k: nat, last: string)
    requires |OpenersIn(s)| == |ClosersIn(s)| && Read(s, |s|, garbage, e) && k <= |e.stack|
    ensures |e.stack| == |e.queue|
    ensures Paired(e.stack[..|e.stack| - k], e.queue[k..], last) == Weave(s, garbage, k, last)
    decreases |e.stack| - k
  {
    if k < |e.stack| {
      PairedTop(e, k, last);
      var r := Emit(e.stack[|e.stack| - 1 - k], e.queue[k], last);
      if r.Emitted? {
        PairedWeave(s, garbage, e, k + 1, r.text);
      }
    }
  }

  /** Every accepted statement: closer number `k` of `n` is emitted with opener number `n - 1 - k`, from the first
      closer on. By PairingRightIff this is each closer's own opener exactly for the statements that nest. */
  lemma {:induction false} TranslationWeaves(s: string, garbage: nat -> StatementType)
    requires StatusOf(s, garbage) == Ok
    ensures |OpenersIn(s)| == |ClosersIn(s)|
    ensures Translation(s, garbage) == Compiled(Weave(s, garbage, 0, ""))
    ensures PairsOwn(s) <==> Nests(s)
  {
    var e := Parsed(s, garbage, NOTHING);
    ParsedInOrder(s, garbage);
    assert |OpenersIn(s)| == |ClosersIn(s)|;
    PairedWeave(s, garbage, e, 0, "");
    assert e.stack[..|e.stack|] == e.stack && e.queue[0..] == e.queue;
    PairingRightIff(s);
  }

  // ---------------------------------------------------------------- chains and siblings

  lemma {:induction false} WrappedNests(head: string, inner: string, close: char, s: string)
    requires s == head + (inner + [close]) && Nests(inner) && IsCloser(close)
    requires forall i :: 0 <= i < |head| ==> !IsCloser(head[i])
    ensures Nests(s)
  {
    var n := |head|;
    forall i, j | 0 <= i < j < |s| ensures !(IsCloser(s[i]) && IsOpener(s[j])) {
      if n <= i && j < n + |inner| {
        assert s[i] == inner[i - n] && s[j] == inner[j - n];
      }
    }
  }

  /** Chains nest, so the theorem covers them. */
  lemma {:induction false} ChainNests(e: Expr)
    requires Proper(e)
    ensures Nests(Written(e))
    decreases e
  {
    if !e.Leaf? {
      ChainNests(e.arg);
      PlainHead(e);
      var head := Head(e) + [Open(e)];
      var s, inner := Written(e), Written(e.arg);
      assert s == head + (inner + [Close(e)]);
      WrappedNests(head, inner, Close(e), s);
    }
  }

  /** Two expressions side by side do not nest, whatever they are. */
  lemma {:induction false} SiblingsDoNotNest(a: Expr, b: Expr, s: string)
    requires !a.Leaf? && !b.Leaf? && s == Written(a) + Written(b)
    ensures !Nests(s)
  {
    var i, j := |Written(a)| - 1, |Written(a)| + |Head(b)|;
    assert s[i] == Close(a) && s[j] == Open(b);
  }
}
