/** Every chunking of a well-formed stream is cut back into the same messages. */
module Framing {
  import opened Text
  import opened HeaderExtracts
  import opened Inbound

  /** A message as a peer sends it: the header without its blank line, and the body. */
  datatype Message = Message(kind: Kind, head: Bytes, body: Bytes)

  function Wire(m: Message): (s: Bytes) {
    m.head + BLANK + m.body
  }

  function FrameOf(m: Message): (f: Frame) {
    Frame(m.kind, Wire(m))
  }

  /** The fields of a header block. */
  function HeadParams(head: string): (r: Params) {
    Fields(head + CRLF + END + CRLF, 0, map[])
  }

  ghost predicate Contains(s: string, p: string) {
    exists i :: OccursAt(s, p, i)
  }

  /** The header is NUL-free and ends at its first blank line, which the parser looks for from offset 4 on. */
  ghost predicate Headed(m: Message) {
    |m.head| >= 4 && Heads(m.head + BLANK, |m.head|)
  }

  ghost predicate WellFormed(m: Message) {
    && Headed(m)
    && Marked(m.kind, m.head)
    && if m.kind == Get then m.body == [] else StatesSize(HeadParams(m.head), |m.body|)
  }

  /** The body size that fields state: by Content-Length, else by Content-length, else none. */
  ghost predicate StatesSize(p: Params, n: nat) {
    var upper, lower := Lookup(p, "Content-Length"), Lookup(p, "Content-length");
    && (upper != "" ==> n == Atoi(upper))
    && (upper == "" && lower != "" ==> n == Atoi(lower))
    && (upper == "" && lower == "" ==> n == 0)
  }

  lemma {:induction false} StatedIsRead(p: Params, n: nat)
    requires StatesSize(p, n)
    ensures BodyLength(p) == n
  {
  }

  /** A header shows its protocol, and only that one. */
  ghost predicate Marked(kind: Kind, head: string) {
    match kind
    case Get => OccursAt(head, "GET ", 0) && Contains(head, "HTTP/")
    case Post => OccursAt(head, "POST ", 0) && Contains(head, "HTTP/")
    case Mcp => !OccursAt(head, "GET ", 0) && !OccursAt(head, "POST ", 0) && Contains(head, "MCP/")
    case Unknown => false
  }

  // ---------------------------------------------------------------- one message

  /** `s` starts with the whole header of `m`. */
  predicate Opens(m: Message, s: Bytes) {
    |m.head| + 4 <= |s| && s[..|m.head| + 4] == m.head + BLANK
  }

  lemma {:induction false} OpensHeads(m: Message, s: Bytes)
    requires Headed(m) && Opens(m, s)
    ensures Heads(s, |m.head|)
    ensures StrStr(s, BLANK, 0) == StrStr(s, BLANK, 4) == |m.head| && s[..|m.head|] == m.head
  {
    var n, h := |m.head|, m.head + BLANK;
    assert forall i :: 0 <= i < n + 4 ==> s[i] == s[..n + 4][i] == h[i];
    assert OccursAt(h, BLANK, n);
    assert OccursAt(s, BLANK, n);
    forall i | 0 <= i < n ensures !OccursAt(s, BLANK, i) {
      SameInPrefix(h, s, BLANK, i);
    }
    HeadFound(s, n, 0);
    HeadFound(s, n, 4);
    assert s[..n] == s[..n + 4][..n] == m.head;
  }

  /** A marker inside the header is seen whatever follows. */
  lemma {:induction false} MarkerSeen(head: string, s: string, p: string)
    requires |head| <= |s| && s[..|head|] == head && NUL !in head && Contains(head, p)
    ensures Has(s, p)
  {
    var t := s[..StrEnd(s, 0)];
    assert |head| <= |t| by {
      assert forall i :: 0 <= i < |head| ==> s[i] == head[i];
    }
    var i :| OccursAt(head, p, i);
    assert t[..|head|] == head;
    SamePrefix(head, t, p, i);
    IndexFromFinds(t, p, 0);
  }

  /** A start marker is seen exactly when the header has it. */
  lemma {:induction false} StartSeen(head: string, s: string, p: string)
    requires |head| + 4 <= |s| && s[..|head|] == head && s[|head|] == '\r'
    requires |p| <= |head| + 1 && forall k :: 0 <= k < |p| ==> p[k] != '\r'
    ensures OccursAt(s, p, 0) == OccursAt(head, p, 0)
  {
    assert forall k :: 0 <= k < |head| ==> s[k] == head[k];
    if |p| == |head| + 1 {
      assert s[0 + |head|] != p[|head|];
    }
  }

  lemma {:induction false} HeadNulFree(m: Message)
    requires Headed(m)
    ensures NUL !in m.head
  {
    assert forall i :: 0 <= i < |m.head| ==> m.head[i] == (m.head + BLANK)[i];
  }

  lemma {:induction false} StartsDiffer(s: string)
    ensures !(OccursAt(s, "GET ", 0) && OccursAt(s, "POST ", 0))
  {
    if s != "" {
      assert s[0 + 0] != "GET "[0] || s[0 + 0] != "POST "[0];
    }
  }

  lemma {:induction false} KindSeen(m: Message, s: Bytes)
    requires WellFormed(m) && Opens(m, s)
    ensures (OccursAt(s, "GET ", 0) && Has(s, "HTTP/")) == (m.kind == Get)
    ensures m.kind != Get ==> KindOf(s) == m.kind
  {
    OpensHeads(m, s);
    HeadNulFree(m);
    assert s[|m.head|] == (m.head + BLANK)[|m.head|] == '\r';
    StartSeen(m.head, s, "GET ");
    StartSeen(m.head, s, "POST ");
    assert m.kind == Get || m.kind == Post ==> Has(s, "HTTP/") by {
      if m.kind == Get || m.kind == Post {
        MarkerSeen(m.head, s, "HTTP/");
      }
    }
    assert m.kind == Mcp ==> Has(s, "MCP/") by {
      if m.kind == Mcp {
        MarkerSeen(m.head, s, "MCP/");
      }
    }
    StartsDiffer(m.head);
  }

  /** Once the header is there, the verdict only waits for the body. */
  lemma {:induction false} HeaderThere(m: Message, s: Bytes)
    requires WellFormed(m) && Opens(m, s)
    ensures Analyze(s) == if |s| < |Wire(m)| then Insufficient else Complete(m.kind, |Wire(m)|)
  {
    OpensHeads(m, s);
    KindSeen(m, s);
    if m.kind != Get {
      assert ParamsOf(s) == HeadParams(m.head);
      StatedIsRead(HeadParams(m.head), |m.body|);
      SizedBy(s, |m.head| + 4, HeadParams(m.head), |m.body|);
    }
  }

  lemma {:induction false} SizedBy(s: Bytes, n: nat, p: Params, size: nat)
    requires n <= |s| && BodyLength(p) == size
    ensures Sized(s, n, p) == if |s| < n + size then Insufficient else Complete(KindOf(s), n + size)
  {
  }

  /** Why an MCP message must not start like a GET or a POST: the code looks for HTTP/ in everything buffered, so such
      a message is recognised if and only if no HTTP/ has arrived, in whatever message. */
  lemma {:induction false} BorrowedMarker(m: Message, s: Bytes)
    requires Headed(m) && Opens(m, s) && |s| >= |Wire(m)| && StatesSize(HeadParams(m.head), |m.body|)
    requires Contains(m.head, "MCP/") && (OccursAt(m.head, "GET ", 0) || OccursAt(m.head, "POST ", 0))
    ensures Analyze(s) == Complete(Mcp, |Wire(m)|) <==> !Has(s, "HTTP/")
  {
    OpensHeads(m, s);
    HeadNulFree(m);
    assert s[|m.head|] == (m.head + BLANK)[|m.head|] == '\r';
    StartSeen(m.head, s, "GET ");
    StartSeen(m.head, s, "POST ");
    MarkerSeen(m.head, s, "MCP/");
    assert ParamsOf(s) == HeadParams(m.head);
    StatedIsRead(HeadParams(m.head), |m.body|);
    SizedBy(s, |m.head| + 4, HeadParams(m.head), |m.body|);
  }

  /** Before that there is no blank line to see. */
  lemma {:induction false} HeaderMissing(m: Message, s: Bytes)
    requires WellFormed(m) && |s| < |m.head| + 4 && s <= m.head + BLANK
    ensures Analyze(s) == Insufficient
  {
    var t := s[..StrEnd(s, 0)];
    var h := m.head + BLANK;
    forall i | 0 <= i ensures !OccursAt(t, BLANK, i) {
      SamePrefix(t, h, BLANK, i);
      if i < |m.head| {
        assert !OccursAt(h, BLANK, i);
      }
    }
    AbsentIsMinusOne(t, BLANK, 0);
  }

  // ---------------------------------------------------------------- a stream of messages

  /** The bytes of the messages from number `k` on. */
  function Stream(ms: seq<Message>, k: nat): (s: Bytes)
    decreases |ms| - k
  {
    if k >= |ms| then [] else Wire(ms[k]) + Stream(ms, k + 1)
  }

  ghost predicate AllWellFormed(ms: seq<Message>) {
    forall i :: 0 <= i < |ms| ==> WellFormed(ms[i])
  }

  /** The bytes buffered and the bytes still to come are the messages not yet sent, and those sent are right. */
  ghost predicate Synchronized(ms: seq<Message>, st: State, coming: Bytes) {
    && |st.sent| <= |ms|
    && (forall i :: 0 <= i < |st.sent| ==> st.sent[i] == FrameOf(ms[i]))
    && st.buffer + coming == Stream(ms, |st.sent|)
    && !st.close
  }

  /** The bytes some receive calls bring. */
  function Bytewise(rs: seq<Received>): (s: Bytes)
    decreases |rs|
  {
    if rs == [] then [] else Arrived([], rs[0]) + Bytewise(rs[1..])
  }

  function Run(st: State, rs: seq<Received>): (r: State)
    decreases |rs|
  {
    if rs == [] then st else Run(Handled(st, rs[0]), rs[1..])
  }

  /** Two ways to cut the same bytes: the message in front is either all there or not. */
  lemma {:induction false} FrontMessage(m: Message, rest: Bytes, s: Bytes, coming: Bytes)
    requires WellFormed(m) && s + coming == Wire(m) + rest
    ensures |s| < |Wire(m)| ==> Analyze(s) == Insufficient
    ensures |s| >= |Wire(m)| ==> Analyze(s) == Complete(m.kind, |Wire(m)|)
    ensures |s| >= |Wire(m)| ==> s[..|Wire(m)|] == Wire(m) && s[|Wire(m)|..] + coming == rest
  {
    var h := m.head + BLANK;
    PrefixOf(s, coming, h, m.body + rest, Wire(m) + rest);
    if |s| < |h| {
      HeaderMissing(m, s);
    } else {
      HeaderThere(m, s);
      PrefixOf(s, coming, Wire(m), rest, Wire(m) + rest);
    }
  }

  lemma {:induction false} PrefixOf(s: Bytes, t: Bytes, a: Bytes, b: Bytes, all: Bytes)
    requires s + t == all && a + b == all
    ensures |s| < |a| ==> s == a[..|s|]
    ensures |s| >= |a| ==> s[..|a|] == a && s[|a|..] + t == b
  {
    assert s == all[..|s|] && a == all[..|a|];
    assert b == all[|a|..];
  }

  lemma {:induction false} TakeNext(ms: seq<Message>, s: Bytes, sent: seq<Frame>, coming: Bytes)
    requires AllWellFormed(ms) && Synchronized(ms, State(s, sent, false), coming) && |sent| < |ms|
    ensures var n := |Wire(ms[|sent|])|;
            if |s| < n then Analyze(s) == Insufficient && Taken(s, sent, false) == State(s, sent, false)
            else Analyze(s) == Complete(ms[|sent|].kind, n)
                 && Taken(s, sent, false) == State(s[n..], sent + [FrameOf(ms[|sent|])], false)
                 && s[n..] + coming == Stream(ms, |sent| + 1)
  {
    var k := |sent|;
    FrontMessage(ms[k], Stream(ms, k + 1), s, coming);
  }

  lemma {:induction false} NothingLeft(s: Bytes, sent: seq<Frame>)
    requires s == []
    ensures Analyze(s) == Insufficient && Taken(s, sent, false) == State(s, sent, false)
  {
    assert StrStr(s, BLANK, 0) == -1;
  }

  lemma {:induction false} Advance(ms: seq<Message>, sent: seq<Frame>, next: State, coming: Bytes)
    requires |sent| < |ms| && (forall i :: 0 <= i < |sent| ==> sent[i] == FrameOf(ms[i]))
    requires next.sent == sent + [FrameOf(ms[|sent|])] && next.buffer + coming == Stream(ms, |next.sent|) && !next.close
    ensures Synchronized(ms, next, coming)
  {
  }

  lemma {:induction false} StepTaken(ms: seq<Message>, s: Bytes, sent: seq<Frame>, coming: Bytes, next: State)
    requires AllWellFormed(ms) && Synchronized(ms, State(s, sent, false), coming) && next == Taken(s, sent, false)
    ensures Defined(s) && Synchronized(ms, next, coming)
    ensures |next.sent| == if |sent| < |ms| && |s| >= |Wire(ms[|sent|])| then |sent| + 1 else |sent|
  {
    if |sent| < |ms| {
      StepMessage(ms, s, sent, coming, next, |Wire(ms[|sent|])|);
    } else {
      NothingLeft(s, sent);
    }
  }

  lemma {:induction false} StepMessage(ms: seq<Message>, s: Bytes, sent: seq<Frame>, coming: Bytes, next: State, n: nat)
    requires AllWellFormed(ms) && Synchronized(ms, State(s, sent, false), coming) && next == Taken(s, sent, false)
    requires |sent| < |ms| && n == |Wire(ms[|sent|])|
    ensures Defined(s) && Synchronized(ms, next, coming) && |next.sent| == if |s| >= n then |sent| + 1 else |sent|
  {
    TakeNext(ms, s, sent, coming);
    if |s| >= n {
      Advance(ms, sent, next, coming);
    }
  }

  /** One call: exactly the message that is complete in front, if there is one, is sent; the rest stays. */
  lemma {:induction false} Step(ms: seq<Message>, st: State, r: Received, coming: Bytes)
    requires AllWellFormed(ms) && !r.Failed?
    requires Synchronized(ms, st, Arrived([], r) + coming)
    ensures Defined(Arrived(st.buffer, r))
    ensures Synchronized(ms, Handled(st, r), coming)
    ensures var k := |st.sent|;
            var all := k < |ms| && |Arrived(st.buffer, r)| >= |Wire(ms[k])|;
            |Handled(st, r).sent| == if all then k + 1 else k
  {
    var s := Arrived(st.buffer, r);
    Arrives(st.buffer, r, coming);
    assert Synchronized(ms, State(s, st.sent, false), coming);
    StepTaken(ms, s, st.sent, coming, Handled(st, r));
  }

  ghost predicate NoFailure(rs: seq<Received>) {
    forall i :: 0 <= i < |rs| ==> !rs[i].Failed?
  }

  /** Safety, for every chunking: what was sent is the messages in order, what is buffered or still to come is exactly
      the rest of the stream, and the connection is never given up. */
  lemma {:induction false} EveryChunking(ms: seq<Message>, st: State, rs: seq<Received>, coming: Bytes)
    requires AllWellFormed(ms) && NoFailure(rs)
    requires Synchronized(ms, st, Bytewise(rs) + coming)
    ensures Synchronized(ms, Run(st, rs), coming)
    decreases |rs|
  {
    if rs != [] {
      Regroup(Arrived([], rs[0]), Bytewise(rs[1..]), coming);
      Step(ms, st, rs[0], Bytewise(rs[1..]) + coming);
      EveryChunking(ms, Handled(st, rs[0]), rs[1..], coming);
    }
  }

  lemma {:induction false} Regroup(a: Bytes, b: Bytes, c: Bytes)
    ensures a + b + c == a + (b + c)
  {
  }

  /** Progress: once everything has arrived, each further call sends the next message. */
  lemma {:induction false} CallsDrain(ms: seq<Message>, st: State, rs: seq<Received>)
    requires AllWellFormed(ms) && NoFailure(rs) && Bytewise(rs) == []
    requires Synchronized(ms, st, [])
    ensures Synchronized(ms, Run(st, rs), [])
    ensures |Run(st, rs).sent| == if |st.sent| + |rs| < |ms| then |st.sent| + |rs| else |ms|
    decreases |rs|
  {
    if rs != [] {
      var k, r := |st.sent|, rs[0];
      assert |Arrived([], r)| == |Bytewise(rs[1..])| == 0;
      Step(ms, st, r, []);
      AllThere(ms, st, r);
      CallsDrain(ms, Handled(st, r), rs[1..]);
    }
  }

  lemma {:induction false} AllThere(ms: seq<Message>, st: State, r: Received)
    requires Synchronized(ms, st, []) && |Arrived([], r)| == 0
    ensures Arrived(st.buffer, r) == st.buffer
    ensures |st.sent| < |ms| ==> |st.buffer| >= |Wire(ms[|st.sent|])|
  {
    assert st.buffer + [] == st.buffer;
  }

  lemma {:induction false} RunAppend(st: State, a: seq<Received>, b: seq<Received>)
    ensures Run(st, a + b) == Run(Run(st, a), b)
    decreases |a|
  {
    if a == [] {
      assert a + b == b;
    } else {
      assert (a + b)[1..] == a[1..] + b;
      RunAppend(Handled(st, a[0]), a[1..], b);
    }
  }

  function Frames(ms: seq<Message>): (fs: seq<Frame>)
    ensures |fs| == |ms| && forall i :: 0 <= i < |ms| ==> fs[i] == FrameOf(ms[i])
  {
    seq(|ms|, i requires 0 <= i < |ms| => FrameOf(ms[i]))
  }

  lemma {:induction false} AllSent(ms: seq<Message>, end: State)
    requires Synchronized(ms, end, []) && |end.sent| == |ms|
    ensures end == State([], Frames(ms), false)
  {
    assert end.buffer + [] == end.buffer;
    assert end.sent == Frames(ms);
  }

  lemma {:induction false} AtStart(ms: seq<Message>, rs: seq<Received>)
    requires Bytewise(rs) == Stream(ms, 0)
    ensures Synchronized(ms, State([], [], false), Bytewise(rs) + [])
  {
  }

  /** The whole stream in any chunks and then as many calls as there are messages: all of them, in order, no rest. */
  lemma {:induction false} EveryStreamIsFramed(ms: seq<Message>, rs: seq<Received>, more: seq<Received>)
    requires AllWellFormed(ms) && NoFailure(rs) && NoFailure(more)
    requires Bytewise(rs) == Stream(ms, 0) && Bytewise(more) == [] && |more| >= |ms|
    ensures Run(State([], [], false), rs + more) == State([], Frames(ms), false)
  {
    AtStart(ms, rs);
    var start := State([], [], false);
    EveryChunking(ms, start, rs, []);
    var mid := Run(start, rs);
    CallsDrain(ms, mid, more);
    AllSent(ms, Run(mid, more));
    RunAppend(start, rs, more);
  }

  lemma {:induction false} Arrives(b: Bytes, r: Received, coming: Bytes)
    ensures b + (Arrived([], r) + coming) == Arrived(b, r) + coming
  {
    if r.Data? {
      assert Arrived([], r) == r.bytes;
    }
  }

  // ---------------------------------------------------------------- messages a peer prints

  /** A start line, fields, and, except for GET, the body's size in decimal under one of the two names. */
  function Lines(kind: Kind, start: string, fs: seq<Field>, name: string, size: nat): (lines: seq<string>) {
    [start] + PrintedAll(if kind == Get then fs else fs + [Field(name, Decimal(size))])
  }

  lemma {:induction false} LengthFieldPrintable(name: string, size: nat)
    requires name == "Content-Length" || name == "Content-length"
    ensures Printable(Field(name, Decimal(size)))
  {
    var d := Decimal(size);
    assert forall i :: 0 <= i < |d| ==> '0' <= d[i];
    assert "Content-Length" == "Content" + "-Length" && "Content-length" == "Content" + "-length";
    assert "Content"[0] == 'C' && "-Length"[0] == "-length"[0] == '-';
  }

  lemma {:induction false} SpellingsDiffer()
    ensures "Content-Length" != "Content-length"
  {
    assert "Content-Length" == "Content" + "-Length" && "Content-length" == "Content" + "-length";
    assert "-Length"[1] == 'L' && "-length"[1] == 'l';
    assert ("Content" + "-Length")[8] == 'L' && ("Content" + "-length")[8] == 'l';
  }

  lemma {:induction false} PrintedClean(f: Field)
    requires Printable(f)
    ensures Clean(Printed(f))
  {
    var line := Printed(f);
    assert ": "[0] == ':' && ": "[1] == ' ';
    assert forall i :: 0 <= i < |f.value| ==> line[|f.name| + 2 + i] == f.value[i];
  }

  lemma {:induction false} EntriesSnoc(fs: seq<Field>, f: Field, m: Params)
    ensures Entries(fs + [f], m) == Entries(fs, m)[f.name := f.value]
    decreases |fs|
  {
    if fs == [] {
      assert fs + [f] == [f] && [f][1..] == [];
    } else {
      assert (fs + [f])[1..] == fs[1..] + [f];
      EntriesSnoc(fs[1..], f, m[fs[0].name := fs[0].value]);
    }
  }

  ghost predicate AllPrintable(fs: seq<Field>) {
    forall i :: 0 <= i < |fs| ==> Printable(fs[i])
  }

  lemma {:induction false} LinesClean(start: string, fs: seq<Field>, lines: seq<string>)
    requires Clean(start) && AllPrintable(fs) && lines == [start] + PrintedAll(fs)
    ensures AllClean(lines) && CrFree(lines)
  {
    forall l | 0 <= l < |lines| ensures Clean(lines[l]) {
      if l > 0 {
        PrintedClean(fs[l - 1]);
      }
    }
  }

  /** The header of printed fields parses to exactly those fields, the last value of a name first, after whatever the
      start line enters. */
  lemma {:induction false} PrintedParams(start: string, fs: seq<Field>, lines: seq<string>, head: string)
    requires Clean(start) && AllPrintable(fs) && lines == [start] + PrintedAll(fs) && head + CRLF == Unlines(lines)
    ensures HeadParams(head) == Entries(fs, Entered(map[], start))
  {
    LinesClean(start, fs, lines);
    var all := lines + [END];
    UnlinesSnoc(lines, END);
    assert Clean(END);
    FieldsOfLines("", all, Unlines(all), map[]);
    EnteredEnd(map[], lines);
    assert lines[1..] == PrintedAll(fs);
    EnteredPrinted(fs, lines[1..], Entered(map[], start));
  }

  /** Looking a name up after parsing a printed header gives the value of its last field. */
  lemma {:induction false} PrintedValue(start: string, fs: seq<Field>, lines: seq<string>, head: string, k: nat)
    requires Clean(start) && AllPrintable(fs) && lines == [start] + PrintedAll(fs) && head + CRLF == Unlines(lines)
    requires k < |fs| && forall j :: k < j < |fs| ==> fs[j].name != fs[k].name
    ensures Lookup(HeadParams(head), fs[k].name) == fs[k].value
  {
    PrintedParams(start, fs, lines, head);
    LastFieldWins(fs, Entered(map[], start), k);
  }

  /** The size field decides when it is the last one, under either name, as long as the other name does not go first. */
  lemma {:induction false} SizeFieldWins(fs: seq<Field>, name: string, size: nat, m: Params)
    requires name == "Content-Length" || (name == "Content-length" && Lookup(Entries(fs, m), "Content-Length") == "")
    ensures StatesSize(Entries(fs + [Field(name, Decimal(size))], m), size)
  {
    EntriesSnoc(fs, Field(name, Decimal(size)), m);
    AtoiOfDecimal(size);
    SpellingsDiffer();
  }

  lemma {:induction false} MarkedByStart(kind: Kind, start: string, head: string)
    requires 4 <= |start| <= |head| && head[..|start|] == start && Clean(start) && Marked(kind, start)
    requires |head| > |start| ==> head[|start|] == '\r'
    ensures Marked(kind, head)
  {
    StartKept(start, head, "GET ");
    StartKept(start, head, "POST ");
    ContainsKept(start, head, "HTTP/");
    ContainsKept(start, head, "MCP/");
  }

  lemma {:induction false} StartKept(start: string, head: string, p: string)
    requires |p| - 1 <= |start| <= |head| && head[..|start|] == start
    requires |head| > |start| ==> head[|start|] == '\r'
    requires forall k :: 0 <= k < |p| ==> p[k] != '\r'
    ensures OccursAt(head, p, 0) == OccursAt(start, p, 0)
  {
    assert forall k :: 0 <= k < |start| ==> head[k] == start[k];
    if |p| == |start| + 1 && |head| > |start| {
      assert head[0 + |start|] != p[|start|];
    }
  }

  lemma {:induction false} ContainsKept(start: string, head: string, p: string)
    requires |start| <= |head| && head[..|start|] == start
    ensures Contains(start, p) ==> Contains(head, p)
  {
    if Contains(start, p) {
      var i :| OccursAt(start, p, i);
      SamePrefix(start, head, p, i);
    }
  }

  /** Whatever is printed this way is well formed, so it travels. */
  lemma {:induction false} PrintedIsWellFormed(m: Message, start: string, fs: seq<Field>, name: string)
    requires |start| >= 4 && Clean(start) && AllPrintable(fs) && Marked(m.kind, start)
    requires name == "Content-Length"
             || (name == "Content-length" && Lookup(Entries(fs, Entered(map[], start)), "Content-Length") == "")
    requires m.head + CRLF == Unlines(Lines(m.kind, start, fs, name, |m.body|)) && (m.kind == Get ==> m.body == [])
    ensures WellFormed(m)
  {
    LengthFieldPrintable(name, |m.body|);
    var more := if m.kind == Get then fs else fs + [Field(name, Decimal(|m.body|))];
    var lines := Lines(m.kind, start, fs, name, |m.body|);
    LinesClean(start, more, lines);
    PrintedHead(m.kind, m.head, lines);
    PrintedParams(start, more, lines, m.head);
    SizeFieldWins(fs, name, |m.body|, Entered(map[], start));
  }

  /** A printed message at the front of the buffer waits for its last body byte and is then framed with its whole body,
      whichever name its size has. */
  lemma {:induction false} PrintedIsFramed(m: Message, start: string, fs: seq<Field>, name: string, s: Bytes,
                                           rest: Bytes)
    requires |start| >= 4 && Clean(start) && AllPrintable(fs) && Marked(m.kind, start)
    requires name == "Content-Length"
             || (name == "Content-length" && Lookup(Entries(fs, Entered(map[], start)), "Content-Length") == "")
    requires m.head + CRLF == Unlines(Lines(m.kind, start, fs, name, |m.body|)) && (m.kind == Get ==> m.body == [])
    ensures s == m.head + BLANK + m.body + rest ==>
              Taken(s, [], false) == State(rest, [Frame(m.kind, m.head + BLANK + m.body)], false)
    ensures s < m.head + BLANK + m.body ==> Taken(s, [], false) == State(s, [], false)
  {
    PrintedIsWellFormed(m, start, fs, name);
    if s == Wire(m) + rest {
      FrontMessage(m, rest, s, []);
      FrontTaken(m, rest, s);
    } else if s < Wire(m) {
      var coming := Wire(m)[|s|..];
      assert s + coming == Wire(m) + [];
      FrontMessage(m, [], s, coming);
    }
  }

  lemma {:induction false} FrontTaken(m: Message, rest: Bytes, s: Bytes)
    requires s == Wire(m) + rest && m.kind != Unknown && Analyze(s) == Complete(m.kind, |Wire(m)|)
    ensures Taken(s, [], false) == State(rest, [Frame(m.kind, Wire(m))], false)
  {
    assert s[..|Wire(m)|] == Wire(m) && s[|Wire(m)|..] == rest;
  }

  lemma {:induction false} PrintedHead(kind: Kind, head: Bytes, lines: seq<string>)
    requires lines != [] && AllClean(lines) && |lines[0]| >= 4 && head + CRLF == Unlines(lines)
          && Marked(kind, lines[0])
    ensures |head| >= 4 && Heads(head + BLANK, |head|) && Marked(kind, head)
  {
    UnlinesDense(lines);
    var u := Unlines(lines);
    assert u + CRLF + "" == head + BLANK;
    DenseHead(u, "", head + BLANK);
    var start := lines[0];
    assert head[..|start|] == start by {
      assert u[..|start|] == start;
    }
    assert u[|start|] == '\r';
    MarkedByStart(kind, start, head);
  }

  /** A complete header and body without a known protocol closes the connection; nothing is dispatched or removed. */
  lemma {:induction false} UnknownCloses(m: Message, s: Bytes, sent: seq<Frame>, failed: bool)
    requires Headed(m) && Opens(m, s) && StatesSize(HeadParams(m.head), |m.body|) && |s| >= |Wire(m)|
    requires !Has(s, "MCP/")
    requires Has(s, "HTTP/") ==> !OccursAt(m.head, "GET ", 0) && !OccursAt(m.head, "POST ", 0)
    ensures Taken(s, sent, failed) == State(s, sent, true)
  {
    OpensHeads(m, s);
    assert s[|m.head|] == (m.head + BLANK)[|m.head|] == '\r';
    StartSeen(m.head, s, "GET ");
    StartSeen(m.head, s, "POST ");
    assert ParamsOf(s) == HeadParams(m.head);
    StatedIsRead(HeadParams(m.head), |m.body|);
    SizedBy(s, |m.head| + 4, HeadParams(m.head), |m.body|);
  }

  // ---------------------------------------------------------------- a message that is cut wrongly

  const GET_LIKE: Bytes := "GET MCP/"

  const LENGTH_LINE: Bytes := "Content-Length: 1"

  /** An MCP message with a body of one byte, and the beginning of the next message. */
  const CUT: Message := Message(Mcp, GET_LIKE + CRLF + LENGTH_LINE, "x")

  const CUT_STREAM: Bytes := Wire(CUT) + "HTTP/"

  lemma {:induction false} GetLikeIsClean()
    ensures Clean(GET_LIKE) && |GET_LIKE| == 8 && OccursAt(GET_LIKE, "GET ", 0) && OccursAt(GET_LIKE, "MCP/", 4)
    ensures IndexFrom(GET_LIKE, ":", 0) == -1
  {
    assert GET_LIKE == ['G', 'E', 'T', ' ', 'M', 'C', 'P', '/'];
    forall h | 0 <= h ensures !OccursAt(GET_LIKE, ":", h) {
      if h < 8 {
        assert GET_LIKE[h + 0] != ":"[0];
      }
    }
    AbsentIsMinusOne(GET_LIKE, ":", 0);
  }

  lemma {:induction false} LengthLine()
    ensures Decimal(1) == "1" && LENGTH_LINE == Printed(Field("Content-Length", Decimal(1))) && Clean(LENGTH_LINE)
  {
    assert Decimal(1) == "1";
    LengthFieldPrintable("Content-Length", 1);
    PrintedClean(Field("Content-Length", Decimal(1)));
    assert "Content-Length" + ": " + "1" == "Content-Length: 1";
  }

  lemma {:induction false} CutLines(lines: seq<string>, more: seq<Field>)
    requires more == [Field("Content-Length", Decimal(1))] && lines == [GET_LIKE] + PrintedAll(more)
    ensures lines == [GET_LIKE, LENGTH_LINE] && CUT.head + CRLF == Unlines(lines) && AllClean(lines)
  {
    LengthLine();
    GetLikeIsClean();
    assert lines[1] == LENGTH_LINE && |lines| == 2;
    assert lines[1..] == [LENGTH_LINE] && lines[1..][1..] == [];
    assert Unlines([LENGTH_LINE]) == LENGTH_LINE + CRLF + "";
  }

  lemma {:induction false} CutIsHeaded()
    ensures Headed(CUT) && StatesSize(HeadParams(CUT.head), 1)
  {
    var more := [Field("Content-Length", Decimal(1))];
    var lines := [GET_LIKE] + PrintedAll(more);
    CutLines(lines, more);
    GetLikeIsClean();
    UnlinesDense(lines);
    var u := Unlines(lines);
    assert u + CRLF + "" == CUT.head + BLANK;
    DenseHead(u, "", CUT.head + BLANK);
    LengthFieldPrintable("Content-Length", 1);
    PrintedParams(GET_LIKE, more, lines, CUT.head);
    assert [] + more == more;
    SizeFieldWins([], "Content-Length", 1, Entered(map[], GET_LIKE));
  }

  lemma {:induction false} CutMarkers(s: Bytes)
    requires s == CUT_STREAM
    ensures Contains(CUT.head, "MCP/") && OccursAt(CUT.head, "GET ", 0) && Has(s, "HTTP/")
  {
    GetLikeIsClean();
    LengthLine();
    var head := CUT.head;
    assert head[..8] == GET_LIKE;
    SamePrefix(GET_LIKE, head, "GET ", 0);
    SamePrefix(GET_LIKE, head, "MCP/", 4);
    HeadNulFreeIn(s, head, "x" + "HTTP/");
    var n := |s| - 5;
    assert s[n..] == "HTTP/";
    assert forall k :: 0 <= k < 5 ==> s[n + k] == s[n..][k];
    assert OccursAt(s, "HTTP/", n);
    assert s[..|s|] == s;
    MarkerSeen(s, s, "HTTP/");
  }

  lemma {:induction false} HeadNulFreeIn(s: string, head: string, rest: string)
    requires Clean(GET_LIKE) && Clean(LENGTH_LINE) && head == GET_LIKE + CRLF + LENGTH_LINE && NUL !in rest
    requires s == head + BLANK + rest
    ensures NUL !in s
  {
    assert NUL !in head;
    assert NUL !in BLANK;
  }

  /** The message is complete, yet the `HTTP/` behind it makes it a GET without a body: its last byte stays in the
      buffer in front of the next message. */
  lemma {:induction false} CutWronglyWitness()
    ensures Headed(CUT) && |CUT.body| == 1 && StatesSize(HeadParams(CUT.head), 1) && Contains(CUT.head, "MCP/")
    ensures Taken(CUT_STREAM, [], false) == State("x" + "HTTP/", [Frame(Get, CUT.head + BLANK)], false)
  {
    CutIsHeaded();
    CutMarkers(CUT_STREAM);
    CutVerdict(CUT_STREAM, CUT);
    var n := |CUT.head| + 4;
    assert CUT_STREAM[..n] == CUT.head + BLANK && CUT_STREAM[n..] == "x" + "HTTP/";
  }

  lemma {:induction false} CutVerdict(s: Bytes, m: Message)
    requires Headed(m) && Opens(m, s) && OccursAt(m.head, "GET ", 0) && Has(s, "HTTP/")
    ensures Analyze(s) == Complete(Get, |m.head| + 4)
  {
    OpensHeads(m, s);
    SamePrefix(m.head, s, "GET ", 0);
  }

  // ---------------------------------------------------------------- a message with the other spelling

  const POST_START: Bytes := "POST " + "/ " + "HTTP/" + "1.1"

  const LOWER_LINE: Bytes := "Content-length" + ": " + "3"

  const LOWER: Message := Message(Post, POST_START + "\r\n" + LOWER_LINE, "abc")

  lemma {:induction false} PostStart()
    ensures |POST_START| == 15 && Clean(POST_START) && Marked(Post, POST_START)
    ensures IndexFrom(POST_START, ":", 0) == -1
  {
    assert "POST "[0] == 'P' && "/ "[0] == '/' && "HTTP/"[0] == 'H' && "1.1"[0] == '1';
    assert POST_START == ['P', 'O', 'S', 'T', ' ', '/', ' ', 'H', 'T', 'T', 'P', '/', '1', '.', '1'];
    assert OccursAt(POST_START, "HTTP/", 7);
    forall h | 0 <= h ensures !OccursAt(POST_START, ":", h) {
      if h < 15 {
        assert POST_START[h + 0] != ":"[0];
      }
    }
    AbsentIsMinusOne(POST_START, ":", 0);
  }

  lemma {:induction false} LowerLines(lines: seq<string>, f: Field)
    requires f == Field("Content-length", Decimal(3)) && lines == Lines(Post, POST_START, [], "Content-length", 3)
    ensures LOWER.head + CRLF == Unlines(lines)
  {
    assert [] + [f] == [f] && PrintedAll([f]) == [Printed(f)];
    assert Decimal(3) == "3" && Printed(f) == LOWER_LINE;
    assert lines == [POST_START, LOWER_LINE] && lines[1..] == [LOWER_LINE] && lines[1..][1..] == [];
    assert Unlines([LOWER_LINE]) == LOWER_LINE + CRLF + "";
  }

  /** `Content-length: 3` counts: the three bytes behind the blank line belong to the message. */
  lemma {:induction false} LowerCaseWitness(s: Bytes)
    requires s == POST_START + "\r\n" + LOWER_LINE + "\r\n\r\n" + "abc"
    ensures Taken(s, [], false) == State([], [Frame(Post, s)], false)
  {
    PostStart();
    LowerLines(Lines(Post, POST_START, [], "Content-length", 3), Field("Content-length", Decimal(3)));
    assert s == LOWER.head + BLANK + LOWER.body + [];
    assert AllPrintable([]) && Entries([], Entered(map[], POST_START)) == map[];
    PrintedIsFramed(LOWER, POST_START, [], "Content-length", s, []);
    assert s == LOWER.head + BLANK + LOWER.body;
  }
}
