/** Cutting a received byte stream back into messages: one HandleConnection call per readable socket. */
module Inbound {
  import opened Text
  import opened Buffers
  import opened HeaderExtracts

  datatype Kind = Get | Post | Mcp | Unknown

  /** A dispatched message: what CreateMessage, SetContentPayload and DispatchMsg hand on. */
  datatype Frame = Frame(kind: Kind, payload: Bytes)

  /** What one `recv` gives; `Nothing` covers a would-block and an orderly end. */
  datatype Received = Data(bytes: Bytes) | Nothing | Failed

  datatype Verdict = Insufficient | Complete(kind: Kind, size: int)

  // ---------------------------------------------------------------- atoi

  predicate IsSpace(c: char) {
    c == ' ' || '\t' <= c <= '\r'
  }

  function SkipSpaces(s: string, i: nat): (r: nat)
    decreases |s| - i
  {
    if i < |s| && IsSpace(s[i]) then SkipSpaces(s, i + 1) else i
  }

  function Digits(s: string, i: nat, acc: nat): (r: nat)
    decreases |s| - i
  {
    if i < |s| && '0' <= s[i] <= '9' then Digits(s, i + 1, 10 * acc + (s[i] as int - '0' as int)) else acc
  }

  function Atoi(s: string): (n: int) {
    var i := SkipSpaces(s, 0);
    if i < |s| && s[i] == '-' then
      var d: int := Digits(s, i + 1, 0);
      -d
    else if i < |s| && s[i] == '+' then Digits(s, i + 1, 0)
    else Digits(s, i, 0)
  }

  function Decimal(n: nat): (s: string)
    ensures s != "" && forall i :: 0 <= i < |s| ==> '0' <= s[i] <= '9'
  {
    if n < 10 then ['0' + n as char] else Decimal(n / 10) + ['0' + (n % 10) as char]
  }

  lemma {:induction false} DigitsOfDecimal(n: nat)
    ensures Digits(Decimal(n), 0, 0) == n
  {
    if n >= 10 {
      DigitsOfDecimal(n / 10);
      DigitsSnoc(Decimal(n / 10), Decimal(n), 0, 0);
    }
  }

  lemma {:induction false} DigitsSnoc(s: string, t: string, i: nat, acc: nat)
    requires |t| == |s| + 1 && t[..|s|] == s && i <= |s|
    requires forall h :: 0 <= h < |t| ==> '0' <= t[h] <= '9'
    ensures Digits(t, i, acc) == 10 * Digits(s, i, acc) + (t[|s|] as int - '0' as int)
    decreases |s| - i
  {
    if i < |s| {
      assert s[i] == t[i];
      DigitsSnoc(s, t, i + 1, 10 * acc + (s[i] as int - '0' as int));
    }
  }

  lemma {:induction false} AtoiOfDecimal(n: nat)
    ensures Atoi(Decimal(n)) == n
  {
    DigitsOfDecimal(n);
    assert '0' <= Decimal(n)[0] <= '9';
  }

  predicate StartsWithDigit(s: string) {
    s != "" && '0' <= s[0] <= '9'
  }

  lemma {:induction false} DigitsInside(s: string, a: string, d: string, rest: string, i: nat, acc: nat)
    requires s == a + d + rest && i <= |d| && !StartsWithDigit(rest) && forall h :: 0 <= h < |d| ==> '0' <= d[h] <= '9'
    ensures Digits(s, |a| + i, acc) == Digits(d, i, acc)
    decreases |d| - i
  {
    if i < |d| {
      assert s[|a| + i] == d[i];
      DigitsInside(s, a, d, rest, i + 1, 10 * acc + (d[i] as int - '0' as int));
    } else if rest != "" {
      assert s[|a| + i] == rest[0];
    }
  }

  lemma {:induction false} SpacesSkipped(s: string, n: nat, i: nat)
    requires i <= n < |s| && !IsSpace(s[n]) && forall h :: i <= h < n ==> IsSpace(s[h])
    ensures SkipSpaces(s, i) == n
    decreases n - i
  {
    if i < n {
      SpacesSkipped(s, n, i + 1);
    }
  }

  /** White space, an optional sign, digits, and whatever follows them. */
  lemma {:induction false} AtoiOfText(space: string, sign: string, n: nat, rest: string, s: string)
    requires forall h :: 0 <= h < |space| ==> space[h] == ' ' || 9 <= space[h] as int <= 13
    requires (sign == "" || sign == "+" || sign == "-") && !StartsWithDigit(rest)
    requires s == space + sign + Decimal(n) + rest
    ensures Atoi(s) == n * if sign == "-" then -1 else 1
  {
    var d := Decimal(n);
    DigitsOfDecimal(n);
    assert '0' <= d[0] <= '9';
    var a := space + sign;
    assert forall h :: 0 <= h < |space| ==> s[h] == space[h];
    assert s[|a|] == d[0];
    if sign != "" {
      assert s[|space|] == sign[0];
    }
    SpacesSkipped(s, |space|, 0);
    DigitsInside(s, a, d, rest, 0, 0);
  }

  /** Anything else where the number should start gives 0. */
  lemma {:induction false} AtoiOfOther(space: string, rest: string, s: string)
    requires forall h :: 0 <= h < |space| ==> space[h] == ' ' || 9 <= space[h] as int <= 13
    requires rest != "" && rest[0] != ' ' && !(9 <= rest[0] as int <= 13) && rest[0] != '+' && rest[0] != '-'
    requires !StartsWithDigit(rest) && s == space + rest
    ensures Atoi(s) == 0
  {
    assert forall h :: 0 <= h < |space| ==> s[h] == space[h];
    assert s[|space|] == rest[0];
    SpacesSkipped(s, |space|, 0);
  }

  // ---------------------------------------------------------------- one look at the buffer

  const LENGTH: string := "Content-Length"
  const LENGTH_LOWER: string := "Content-length"

  /** The value the code looks up for the body size; empty when there is none. */
  function LengthValue(m: Params): (v: string) {
    var v := Lookup(m, LENGTH);
    if v == "" then Lookup(m, LENGTH_LOWER) else v
  }

  predicate Has(s: string, p: string) {
    StrStr(s, p, 0) != -1
  }

  function KindOf(s: string): (k: Kind) {
    if OccursAt(s, "POST ", 0) && Has(s, "HTTP/") then Post else if Has(s, "MCP/") then Mcp else Unknown
  }

  /** Body size a header asks for. */
  function BodyLength(m: Params): (n: int) {
    var v := LengthValue(m);
    if v == "" then 0 else Atoi(v)
  }

  /** AnalyzeProtocol as a function of the buffered bytes. */
  function Analyze(s: string): (v: Verdict)
    ensures v.Complete? ==> v.size <= |s|
  {
    var n := StrStr(s, BLANK, 0);
    if n == -1 then Insufficient
    else if OccursAt(s, "GET ", 0) && Has(s, "HTTP/") then Complete(Get, n + 4)
    else Sized(s, n + 4, ParamsOf(s))
  }

  function Sized(s: string, n: nat, m: Params): (v: Verdict)
    requires n <= |s|
    ensures v.Complete? ==> v.size <= |s|
  {
    if LengthValue(m) == "" then Complete(KindOf(s), n)
    else if |s| < n + BodyLength(m) then Insufficient
    else Complete(KindOf(s), n + BodyLength(m))
  }

  // ---------------------------------------------------------------- the handler

  datatype State = State(buffer: Bytes, sent: seq<Frame>, close: bool)

  function Arrived(b: Bytes, r: Received): (s: Bytes) {
    if r.Data? then b + r.bytes else b
  }

  /** A negative Content-Length can ask for a frame of negative size, which has no behaviour here. */
  predicate Defined(s: Bytes) {
    Analyze(s).Complete? ==> Analyze(s).size >= 0
  }

  /** One call of HandleConnection. */
  function Handled(st: State, r: Received): (next: State) {
    Taken(Arrived(st.buffer, r), st.sent, r.Failed?)
  }

  function Taken(s: Bytes, sent: seq<Frame>, failed: bool): (next: State) {
    match Analyze(s)
    case Insufficient => State(s, sent, failed)
    case Complete(k, n) =>
      if k == Unknown || n < 0 then State(s, sent, true)
      else State(s[n..], sent + [Frame(k, s[..n])], failed)
  }

  /** A broken socket closes the connection, but what has arrived is framed as if nothing had happened. */
  lemma {:induction false} FailureCloses(st: State)
    ensures Handled(st, Failed).close
    ensures Handled(st, Failed).buffer == Handled(st, Nothing).buffer
    ensures Handled(st, Failed).sent == Handled(st, Nothing).sent
  {
  }

  class ConnectionHandler {
    const buffer: Buffer
    const headers: HeaderExtract
    var msgSize: int
    var closeConnection: bool
    /** Frames handed to the message queue so far. */
    var sent: seq<Frame>

    ghost predicate Valid()
      reads this, buffer
    {
      buffer.Valid()
    }

    ghost function Repr(): (r: set<object>)
      reads this, buffer
    {
      {this, headers} + buffer.Repr()
    }

    ghost function View(): (st: State)
      requires Valid()
      reads this, buffer, buffer.buf
    {
      State(buffer.Contents(), sent, closeConnection)
    }

    constructor ()
      ensures Valid() && fresh(Repr()) && View() == State([], [], false)
    {
      buffer := new Buffer();
      headers := new HeaderExtract();
      msgSize, closeConnection, sent := 0, false, [];
    }

    method HandleConnection(r: Received)
      requires Valid() && Defined(Arrived(buffer.Contents(), r))
      modifies Repr()
      ensures Valid() && fresh(Repr() - old(Repr()))
      ensures View() == Handled(old(View()), r)
    {
      closeConnection := false;
      if r.Data? {
        buffer.Append(r.bytes);
      }
      var ok := ProcessIfReady(buffer.Contents());
      if r.Failed? || !ok {
        closeConnection := true;
      }
    }

    method ProcessIfReady(ghost s: Bytes) returns (ok: bool)
      requires Valid() && s == buffer.Contents() && Defined(s)
      modifies this`msgSize, this`sent, headers, buffer.Repr()
      ensures Valid() && buffer.buf == old(buffer.buf)
      ensures State(buffer.Contents(), sent, !ok) == Taken(s, old(sent), false)
    {
      var i := buffer.Find(BLANK, 0);
      ok := true;
      if i != -1 {
        ok := Process(s);
      }
    }

    /** Frames the first message if it is complete; false for a protocol nobody knows. */
    method Process(ghost s: Bytes) returns (ok: bool)
      requires Valid() && buffer.tail > 0 && buffer.Terminated() && s == buffer.Contents() && Defined(s)
      modifies this`msgSize, this`sent, headers, buffer.Repr()
      ensures Valid() && buffer.buf == old(buffer.buf)
      ensures State(buffer.Contents(), sent, !ok) == Taken(s, old(sent), false)
    {
      var v := AnalyzeProtocol(s);
      if v.Insufficient? {
        return true;
      }
      if v.kind == Unknown {
        return false;
      }
      TakeFrame(v.kind, s);
      return true;
    }

    /** Copies the first `msgSize` bytes into a message, dispatches it and removes them. */
    method TakeFrame(kind: Kind, ghost s: Bytes)
      requires Valid() && s == buffer.Contents() && 0 <= msgSize <= buffer.tail && buffer.buf != null
      modifies this`sent, buffer.Repr()
      ensures Valid() && buffer.buf == old(buffer.buf)
      ensures buffer.Contents() == s[msgSize..] && sent == old(sent) + [Frame(kind, s[..msgSize])]
    {
      assert buffer.buf[..msgSize] == s[..msgSize];
      sent := sent + [Frame(kind, buffer.buf[..msgSize])];
      CutFront(s, msgSize);
      var _ := buffer.Remove(0, msgSize);
    }

    method AnalyzeProtocol(ghost s: Bytes) returns (v: Verdict)
      requires Valid() && buffer.tail > 0 && buffer.Terminated() && s == buffer.Contents()
      modifies this`msgSize, headers, buffer.buf
      ensures Valid() && buffer.Contents() == s
      ensures v == Analyze(s) && (v.Complete? ==> msgSize == v.size)
    {
      var data := buffer.buf[..buffer.tail];
      if StrStr(data, BLANK, 0) == -1 {
        return Insufficient;
      }
      var offset := buffer.BinaryFind(BLANK);
      StrStrIsFirst(s, BLANK);
      msgSize := offset + 4;
      if OccursAt(data, "GET ", 0) && Has(data, "HTTP/") && Has(data, BLANK) {
        return Complete(Get, msgSize);
      }
      headers.Parse(buffer);
      v := AnalyzeBody(data, offset);
    }

    /** The second half: the body size from the parsed header, then the protocol. */
    method AnalyzeBody(data: Bytes, dataOffset: nat) returns (v: Verdict)
      requires dataOffset + 4 <= |data| && msgSize == dataOffset + 4 && Has(data, BLANK)
      modifies this`msgSize
      ensures v == Sized(data, dataOffset + 4, headers.params) && (v.Complete? ==> msgSize == v.size)
    {
      var offset := dataOffset;
      var length := headers.GetValue(LENGTH);
      if length == "" {
        length := headers.GetValue(LENGTH_LOWER);
      }
      if length != "" {
        offset := offset + 4;
        if |data| < offset + Atoi(length) {
          return Insufficient;
        }
        msgSize := offset + Atoi(length);
      }
      if OccursAt(data, "POST ", 0) && Has(data, "HTTP/") && Has(data, BLANK) {
        return Complete(Post, msgSize);
      }
      if Has(data, "MCP/") {
        return Complete(Mcp, msgSize);
      }
      return Complete(Unknown, msgSize);
    }
  }

  lemma {:induction false} CutFront(s: string, n: nat)
    requires n <= |s|
    ensures s[..0] + s[n..] == s[n..] && s[0..] == s
  {
  }

  /** What strstr finds in front of the first NUL is the first occurrence in all of the data. */
  lemma {:induction false} StrStrIsFirst(s: string, p: string)
    requires StrStr(s, p, 0) != -1
    ensures IndexFrom(s, p, 0) == StrStr(s, p, 0)
  {
    var t, i := s[..StrEnd(s, 0)], StrStr(s, p, 0);
    IndexFromFinds(t, p, 0);
    assert forall k :: 0 <= k < |t| ==> s[k] == t[k];
    assert OccursAt(s, p, i);
    forall h | 0 <= h < i ensures !OccursAt(s, p, h) {
      assert h + |p| <= |t|;
      SameInPrefix(t, s, p, h);
    }
    FirstIsIndexFrom(s, p, 0, i);
  }

  lemma {:induction false} SameInPrefix(t: string, s: string, p: string, h: nat)
    requires |t| <= |s| && t == s[..|t|] && h + |p| <= |t|
    ensures OccursAt(s, p, h) == OccursAt(t, p, h)
  {
    assert forall k :: 0 <= k < |t| ==> s[k] == t[k];
  }
}
