/** Nested MCScript expressions: a stack of openers and a queue of closers turned into nested Tcl. */
module McScript {

  datatype Status = Ok | MultiParamNotAllowed | IncorrectlyFormed

  /** The statement type of an element; it is set only for text that starts with `$` or `#`, so any value can turn
      up. */
  datatype StatementType = ArrayType | MapType | OtherType

  /** What stands in front of `(` or `[`. */
  datatype Opener = Opener(paren: bool, kind: StatementType, text: string)

  /** What stands in front of `)` or `]`. */
  datatype Closer = Closer(paren: bool, text: string)

  datatype Elements = Elements(stack: seq<Opener>, queue: seq<Closer>)

  predicate IsOpener(c: char) {
    c == '(' || c == '['
  }

  predicate IsCloser(c: char) {
    c == ')' || c == ']'
  }

  predicate IsDelimiter(c: char) {
    IsOpener(c) || IsCloser(c)
  }

  predicate Plain(s: string) {
    forall i :: 0 <= i < |s| ==> !IsDelimiter(s[i])
  }

  predicate HasComma(s: string) {
    exists i :: 0 <= i < |s| && s[i] == ','
  }

  predicate HasQuote(s: string) {
    exists i :: 0 <= i < |s| && (s[i] == '\'' || s[i] == '"')
  }

  /** Index of the first delimiter, or the end. */
  function NextDelimiter(s: string): (i: nat)
    ensures i <= |s| && (i < |s| ==> IsDelimiter(s[i]))
  {
    if s == "" || IsDelimiter(s[0]) then 0 else NextDelimiter(s[1..]) + 1
  }

  lemma {:induction false} DelimiterIsNext(text: string, rest: string, s: string)
    requires Plain(text) && s == text + rest && (rest == "" || IsDelimiter(rest[0]))
    ensures NextDelimiter(s) == |text| && s[..|text|] == text && s[|text|..] == rest
  {
    if text != "" {
      assert s[0] == text[0] && s[1..] == text[1..] + rest;
      DelimiterIsNext(text[1..], rest, s[1..]);
    }
  }

  lemma {:induction false} PlainBefore(s: string)
    ensures Plain(s[..NextDelimiter(s)])
  {
    if s != "" && !IsDelimiter(s[0]) {
      PlainBefore(s[1..]);
      var i := NextDelimiter(s[1..]);
      assert forall k :: 1 <= k < i + 1 ==> s[k] == s[1..][..i][k - 1];
    }
  }

  function KindOf(text: string, garbage: StatementType): (k: StatementType) {
    if text != "" && text[0] == '$' then ArrayType
    else if text != "" && text[0] == '#' then MapType
    else garbage
  }

  function OpenerOf(c: char, text: string, garbage: StatementType): (o: Opener) {
    var name := if c == '(' && text != "" && text[0] == '$' then text[1..] else text;
    Opener(c == '(', KindOf(text, garbage), name)
  }

  function Pushed(e: Elements, c: char, text: string, garbage: StatementType): (r: Elements) {
    if IsOpener(c) then e.(stack := e.stack + [OpenerOf(c, text, garbage)])
    else e.(queue := e.queue + [Closer(c == ')', text)])
  }

  /** The elements that the text still to be read adds; `garbage` tells what an unset type holds, by distance from the
      end of the statement. */
  function Parsed(s: string, garbage: nat -> StatementType, e: Elements): (r: Elements) {
    var i := NextDelimiter(s);
    if i == |s| then e else Parsed(s[i + 1..], garbage, Pushed(e, s[i], s[..i], garbage(|s|)))
  }

  const NOTHING: Elements := Elements([], [])

  /** The Tcl text of one pair; `None` when taking the name behind a missing `#` throws. */
  datatype Emission = Thrown | Emitted(text: string)

  function Argument(right: Closer, last: string): (arg: string) {
    if right.text == "" || (right.paren && HasComma(right.text)) then last else right.text
  }

  function EmitArray(left: Opener, right: Closer, last: string): (r: string) {
    (if right.paren then "[" else "[lindex ") + left.text + " " + Argument(right, last) + "]"
  }

  function EmitMap(left: Opener, right: Closer, last: string): (r: Emission) {
    if right.paren && right.text != "" && !HasComma(right.text) then
      Emitted("$" + left.text + "(" + right.text + ")")
    else if left.text == "" then Thrown
    else Emitted("$" + left.text[1..] + "(" + Argument(right, last) + ")")
  }

  function Emit(left: Opener, right: Closer, last: string): (r: Emission) {
    match left.kind
    case ArrayType => Emitted(EmitArray(left, right, last))
    case MapType => EmitMap(left, right, last)
    case OtherType => Emitted(last)
  }

  /** Pairs the top of the stack with the front of the queue until both are used up. */
  function Paired(stack: seq<Opener>, queue: seq<Closer>, last: string): (r: string)
    requires |stack| == |queue|
    decreases |stack|
  {
    if stack == [] then last
    else
      var n := |stack| - 1;
      match Emit(stack[n], queue[0], last)
      case Thrown => "$"
      case Emitted(text) => Paired(stack[..n], queue[1..], text)
  }

  /** Whether a statement is turned away, and why. */
  function StatusOf(s: string, garbage: nat -> StatementType): (st: Status) {
    if HasComma(s) && !HasQuote(s) then MultiParamNotAllowed
    else
      var e := Parsed(s, garbage, NOTHING);
      if |e.stack| != |e.queue| then IncorrectlyFormed else Ok
  }

  datatype Outcome = Rejected | Compiled(text: string)

  /** ParseNestedStatements and ProcessNestedStatements, one after the other. */
  function Translation(s: string, garbage: nat -> StatementType): (r: Outcome) {
    if StatusOf(s, garbage) != Ok then Rejected
    else
      var e := Parsed(s, garbage, NOTHING);
      Compiled(Paired(e.stack, e.queue, ""))
  }

  class Translator {
    var stack: seq<Opener>
    var queue: seq<Closer>

    constructor ()
      ensures stack == [] && queue == []
    {
      stack, queue := [], [];
    }

    method ParseNestedStatements(s: string, garbage: nat -> StatementType) returns (status: Status)
      modifies this
      ensures status == StatusOf(s, garbage)
      ensures status == MultiParamNotAllowed ==> stack == old(stack) && queue == old(queue)
      ensures status != MultiParamNotAllowed ==> Elements(stack, queue) == Parsed(s, garbage, NOTHING)
    {
      if HasComma(s) && !HasQuote(s) {
        return MultiParamNotAllowed;
      }
      stack, queue := [], [];
      Scan(s, garbage);
      return if |stack| != |queue| then IncorrectlyFormed else Ok;
    }

    method Scan(s: string, garbage: nat -> StatementType)
      modifies this
      ensures Elements(stack, queue) == Parsed(s, garbage, old(Elements(stack, queue)))
    {
      var mark := 0;
      ghost var e, goal := Elements(stack, queue), Parsed(s, garbage, Elements(stack, queue));
      assert s[0..] == s;
      var pos := NextDelimiter(s[mark..]);
      while mark + pos < |s|
        invariant 0 <= mark <= |s| && pos == NextDelimiter(s[mark..])
        invariant e == Elements(stack, queue) && Parsed(s[mark..], garbage, e) == goal
        decreases |s| - mark
      {
        var c, text, g := s[mark + pos], s[mark..mark + pos], garbage(|s| - mark);
        ParsedStep(s, mark, pos, garbage, e, c, text, g);
        PushElement(c, text, g);
        e := Pushed(e, c, text, g);
        mark := mark + pos + 1;
        pos := NextDelimiter(s[mark..]);
      }
      NothingLeft(s[mark..], garbage, e);
    }

    /** How ProcessStatementFragment uses the two. */
    method Translate(s: string, garbage: nat -> StatementType) returns (r: Outcome)
      modifies this
      ensures r == Translation(s, garbage)
    {
      var status := ParseNestedStatements(s, garbage);
      if status != Ok {
        return Rejected;
      }
      var text := ProcessNestedStatements();
      return Compiled(text);
    }

    method PushElement(c: char, text: string, garbage: StatementType)
      requires IsDelimiter(c)
      modifies this
      ensures Elements(stack, queue) == Pushed(old(Elements(stack, queue)), c, text, garbage)
    {
      var kind := garbage;
      if text != "" && text[0] == '$' {
        kind := ArrayType;
      } else if text != "" && text[0] == '#' {
        kind := MapType;
      }
      if c == '(' {
        var name := text;
        if name != "" && name[0] == '$' {
          name := name[1..];
        }
        stack := stack + [Opener(true, kind, name)];
      } else if c == '[' {
        stack := stack + [Opener(false, kind, text)];
      } else {
        queue := queue + [Closer(c == ')', text)];
      }
    }

    method ProcessNestedStatements() returns (statement: string)
      modifies this
      ensures old(|stack| != |queue|) ==> statement == ""
      ensures old(|stack| == |queue|) ==> statement == Paired(old(stack), old(queue), "")
    {
      if |stack| != |queue| || |stack| == 0 {
        return "";
      }
      statement := "";
      var last := "";
      while |stack| != 0
        invariant |stack| == |queue| && statement == last
        invariant Paired(stack, queue, last) == Paired(old(stack), old(queue), "")
        decreases |stack|
      {
        var left, right := stack[|stack| - 1], queue[0];
        match left.kind {
          case ArrayType => statement, last := HandleArray(left, right, last);
          case MapType =>
            var thrown: bool;
            thrown, statement, last := HandleMap(left, right, last);
            if thrown {
              return;
            }
          case OtherType =>
        }
        stack, queue := stack[..|stack| - 1], queue[1..];
      }
    }

    method HandleArray(left: Opener, right: Closer, l: string) returns (statement: string, last: string)
      ensures statement == last == EmitArray(left, right, l)
    {
      statement := if right.paren then "[" else "[lindex ";
      statement := statement + left.text + " ";
      if right.text == "" || (right.paren && HasComma(right.text)) {
        statement := statement + l;
      } else {
        statement := statement + right.text;
      }
      statement := statement + "]";
      last := statement;
    }

    method HandleMap(left: Opener, right: Closer, l: string)
      returns (thrown: bool, statement: string, last: string)
      ensures thrown == EmitMap(left, right, l).Thrown? && (thrown ==> statement == "$")
      ensures !thrown ==> statement == last && EmitMap(left, right, l) == Emitted(statement)
    {
      statement, last, thrown := "$", l, false;
      if right.paren && right.text != "" && !HasComma(right.text) {
        statement := statement + left.text + "(" + right.text;
      } else if left.text == "" {
        thrown := true;
        return;
      } else {
        statement := statement + left.text[1..] + "(";
        statement := statement + if right.text == "" || (right.paren && HasComma(right.text)) then l else right.text;
      }
      statement := statement + ")";
      last := statement;
    }
  }

  lemma {:induction false} Rest(s: string, mark: nat, t: string, pos: nat)
    requires mark <= |s| && t == s[mark..] && pos < |t|
    ensures t[pos + 1..] == s[mark + pos + 1..] && t[..pos] == s[mark..mark + pos] && t[pos] == s[mark + pos]
  {
  }

  lemma {:induction false} ParsedStep(s: string, mark: nat, pos: nat, garbage: nat -> StatementType, e: Elements,
                                      c: char, text: string, g: StatementType)
    requires mark + pos < |s| && pos == NextDelimiter(s[mark..])
    requires c == s[mark + pos] && text == s[mark..mark + pos] && g == garbage(|s| - mark)
    ensures Parsed(s[mark..], garbage, e) == Parsed(s[mark + pos + 1..], garbage, Pushed(e, c, text, g))
    ensures IsDelimiter(c)
  {
    var t := s[mark..];
    Rest(s, mark, t, pos);
    ParsedNext(t, pos, c, text, s[mark + pos + 1..], garbage, e, g);
  }

  lemma {:induction false} NothingLeft(s: string, garbage: nat -> StatementType, e: Elements)
    requires NextDelimiter(s) == |s|
    ensures Parsed(s, garbage, e) == e
  {
  }

  lemma {:induction false} ParsedNext(t: string, i: nat, c: char, text: string, rest: string,
                                      garbage: nat -> StatementType, e: Elements, g: StatementType)
    requires i == NextDelimiter(t) && i < |t| && c == t[i] && text == t[..i] && rest == t[i + 1..] && g == garbage(|t|)
    ensures Parsed(t, garbage, e) == Parsed(rest, garbage, Pushed(e, c, text, g)) && IsDelimiter(c)
  {
  }

  // ---------------------------------------------------------------- what is turned away

  function Count(s: string, p: char -> bool): (n: nat) {
    if s == "" then 0 else (if p(s[0]) then 1 else 0) + Count(s[1..], p)
  }

  lemma {:induction false} CountSplit(s: string, i: nat, p: char -> bool)
    requires i < |s| && forall k :: 0 <= k < i ==> !p(s[k])
    ensures Count(s, p) == (if p(s[i]) then 1 else 0) + Count(s[i + 1..], p)
    decreases i
  {
    if i > 0 {
      CountSplit(s[1..], i - 1, p);
      assert s[1..][i..] == s[i + 1..];
    }
  }

  lemma {:induction false} CountNone(s: string, p: char -> bool)
    requires forall k :: 0 <= k < |s| ==> !p(s[k])
    ensures Count(s, p) == 0
  {
    if s != "" {
      CountNone(s[1..], p);
    }
  }

  /** Every opener of the text is pushed and every closer queued. */
  lemma {:induction false} ParsedCounts(s: string, garbage: nat -> StatementType, e: Elements)
    ensures |Parsed(s, garbage, e).stack| == |e.stack| + Count(s, IsOpener)
    ensures |Parsed(s, garbage, e).queue| == |e.queue| + Count(s, IsCloser)
    decreases |s|
  {
    var i := NextDelimiter(s);
    PlainBefore(s);
    assert forall k :: 0 <= k < i ==> s[k] == s[..i][k];
    if i == |s| {
      CountNone(s, IsOpener);
      CountNone(s, IsCloser);
    } else {
      CountSplit(s, i, IsOpener);
      CountSplit(s, i, IsCloser);
      ParsedCounts(s[i + 1..], garbage, Pushed(e, s[i], s[..i], garbage(|s|)));
    }
  }

  /** Exactly which statements are accepted; in particular a statement without commas is turned away exactly when it has
      more openers than closers or fewer. */
  lemma {:induction false} AcceptedIff(s: string, garbage: nat -> StatementType)
    ensures StatusOf(s, garbage) == MultiParamNotAllowed <==> HasComma(s) && !HasQuote(s)
    ensures StatusOf(s, garbage) == IncorrectlyFormed
            <==> (HasComma(s) ==> HasQuote(s)) && Count(s, IsOpener) != Count(s, IsCloser)
  {
    ParsedCounts(s, garbage, NOTHING);
  }

  // ---------------------------------------------------------------- chains

  datatype Expr =
    | Leaf(text: string)
    | Call(name: string, arg: Expr)
    | Index(name: string, arg: Expr)
    | Lookup(name: string, arg: Expr)

  predicate Proper(e: Expr) {
    match e
    case Leaf(text) => Plain(text)
    case Call(name, arg) => Plain(name) && Proper(arg)
    case Index(name, arg) => Plain(name) && Proper(arg)
    case Lookup(name, arg) => Plain(name) && Proper(arg)
  }

  /** The part in front of the argument, and the character behind it. */
  function Head(e: Expr): (h: string)
    requires !e.Leaf?
  {
    if e.Lookup? then "#" + e.name else "$" + e.name
  }

  function Open(e: Expr): (c: char)
  {
    if e.Call? then '(' else '['
  }

  function Close(e: Expr): (c: char)
  {
    if e.Call? then ')' else ']'
  }

  /** An expression as it is written. */
  function Written(e: Expr): (s: string) {
    if e.Leaf? then e.text else Head(e) + ([Open(e)] + (Written(e.arg) + [Close(e)]))
  }

  /** What it means in Tcl. */
  function Tcl(e: Expr): (s: string) {
    match e
    case Leaf(text) => text
    case Call(name, arg) => "[" + name + " " + Tcl(arg) + "]"
    case Index(name, arg) => "[lindex $" + name + " " + Tcl(arg) + "]"
    case Lookup(name, arg) => "$" + name + "(" + Tcl(arg) + ")"
  }

  function OpenerFor(e: Expr): (o: Opener)
    requires !e.Leaf?
  {
    match e
    case Call(name, _) => Opener(true, ArrayType, name)
    case Index(name, _) => Opener(false, ArrayType, "$" + name)
    case Lookup(name, _) => Opener(false, MapType, "#" + name)
  }

  function CloserFor(e: Expr): (c: Closer)
    requires !e.Leaf?
  {
    Closer(e.Call?, if e.arg.Leaf? then e.arg.text else "")
  }

  /** Outermost opener first, innermost closer first. */
  function Openers(e: Expr): (os: seq<Opener>) {
    if e.Leaf? then [] else [OpenerFor(e)] + Openers(e.arg)
  }

  function Closers(e: Expr): (cs: seq<Closer>)
    ensures |cs| == |Openers(e)|
  {
    if e.Leaf? then [] else Closers(e.arg) + [CloserFor(e)]
  }

  lemma {:induction false} AfterDelimiter(text: string, c: char, rest: string, s: string)
    requires s == text + ([c] + rest)
    ensures s[..|text|] == text && s[|text|] == c && s[|text| + 1..] == rest
  {
  }

  lemma {:induction false} PlainHead(e: Expr)
    requires !e.Leaf? && Plain(e.name)
    ensures Plain(Head(e))
  {
    var h := Head(e);
    assert forall i :: 1 <= i < |h| ==> h[i] == e.name[i - 1];
  }

  lemma {:induction false} PushedHead(e: Expr, st: Elements, garbage: StatementType)
    requires !e.Leaf?
    ensures Pushed(st, Open(e), Head(e), garbage) == st.(stack := st.stack + [OpenerFor(e)])
  {
    assert Head(e)[1..] == e.name;
  }

  lemma {:induction false} ParsedHead(e: Expr, rest: string, s: string, garbage: nat -> StatementType, st: Elements)
    requires !e.Leaf? && Plain(e.name) && s == Head(e) + ([Open(e)] + rest)
    ensures Parsed(s, garbage, st) == Parsed(rest, garbage, st.(stack := st.stack + [OpenerFor(e)]))
  {
    var h, c := Head(e), Open(e);
    PlainHead(e);
    DelimiterIsNext(h, [c] + rest, s);
    AfterDelimiter(h, c, rest, s);
    PushedHead(e, st, garbage(|s|));
  }

  lemma {:induction false} ParsedClose(e: Expr, text: string, rest: string, s: string, garbage: nat -> StatementType,
      st: Elements)
    requires Plain(text) && s == text + ([Close(e)] + rest)
    ensures Parsed(s, garbage, st) == Parsed(rest, garbage, st.(queue := st.queue + [Closer(e.Call?, text)]))
  {
    DelimiterIsNext(text, [Close(e)] + rest, s);
    AfterDelimiter(text, Close(e), rest, s);
  }

  lemma {:induction false} WrittenSplits(e: Expr, rest: string, s: string)
    requires !e.Leaf? && s == Written(e) + rest
    ensures s == Head(e) + ([Open(e)] + (Written(e.arg) + ([Close(e)] + rest)))
  {
  }

  /** Reading a written chain pushes its openers and queues its closers. */
  lemma {:induction false} ParsedChain(e: Expr, rest: string, s: string, garbage: nat -> StatementType, st: Elements)
    requires Proper(e) && !e.Leaf? && s == Written(e) + rest
    ensures Parsed(s, garbage, st)
            == Parsed(rest, garbage, Elements(st.stack + Openers(e), st.queue + Closers(e)))
    decreases e
  {
    WrittenSplits(e, rest, s);
    var inner := Written(e.arg) + ([Close(e)] + rest);
    ParsedHead(e, inner, s, garbage, st);
    var st1 := st.(stack := st.stack + [OpenerFor(e)]);
    if e.arg.Leaf? {
      ParsedClose(e, e.arg.text, rest, inner, garbage, st1);
      Settle(st, e);
    } else {
      ParsedChain(e.arg, [Close(e)] + rest, inner, garbage, st1);
      var st2 := Elements(st1.stack + Openers(e.arg), st1.queue + Closers(e.arg));
      assert "" + ([Close(e)] + rest) == [Close(e)] + rest;
      ParsedClose(e, "", rest, [Close(e)] + rest, garbage, st2);
      Settle(st, e);
    }
  }

  lemma {:induction false} Settle(st: Elements, e: Expr)
    requires !e.Leaf?
    ensures (st.stack + [OpenerFor(e)]) + Openers(e.arg) == st.stack + Openers(e)
    ensures (st.queue + Closers(e.arg)) + [CloserFor(e)] == st.queue + Closers(e)
    ensures e.arg.Leaf? ==> st.stack + [OpenerFor(e)] == st.stack + Openers(e)
                            && st.queue + [CloserFor(e)] == st.queue + Closers(e)
  {
  }

  /** The innermost argument belongs to a call and has a comma. */
  predicate Drops(e: Expr) {
    !e.Leaf? && if e.arg.Leaf? then e.Call? && HasComma(e.arg.text) else Drops(e.arg)
  }

  /** What the pairing makes of a chain: its Tcl, but for an innermost call argument with a comma, which is lost. */
  function Made(e: Expr): (s: string) {
    match e
    case Leaf(text) => text
    case Call(name, arg) => "[" + name + " " + (if arg.Leaf? && HasComma(arg.text) then "" else Made(arg)) + "]"
    case Index(name, arg) => "[lindex $" + name + " " + Made(arg) + "]"
    case Lookup(name, arg) => "$" + name + "(" + Made(arg) + ")"
  }

  lemma {:induction false} EmitsMade(e: Expr, last: string)
    requires !e.Leaf? && last == if e.arg.Leaf? then "" else Made(e.arg)
    ensures Emit(OpenerFor(e), CloserFor(e), last) == Emitted(Made(e))
  {
    var arg := Argument(CloserFor(e), last);
    assert e.Lookup? ==> ("#" + e.name)[1..] == e.name;
    assert e.Index? ==> "[lindex " + ("$" + e.name) + " " + arg + "]" == "[lindex $" + e.name + " " + arg + "]" by {
      assert "[lindex " + "$" == "[lindex $";
    }
  }

  lemma {:induction false} PairedOne(stack: seq<Opener>, queue: seq<Closer>, o: Opener, c: Closer, last: string,
      text: string)
    requires |stack| == |queue| && Emit(o, c, last) == Emitted(text)
    ensures Paired(stack + [o], [c] + queue, last) == Paired(stack, queue, text)
  {
    assert (stack + [o])[..|stack|] == stack && ([c] + queue)[1..] == queue;
  }

  lemma {:induction false} PairedChain(stack: seq<Opener>, queue: seq<Closer>, e: Expr)
    requires |stack| == |queue| && !e.Leaf?
    ensures Paired(stack + Openers(e), Closers(e) + queue, "") == Paired(stack, queue, Made(e))
    decreases e
  {
    var o, c := OpenerFor(e), CloserFor(e);
    Regrouped(stack, queue, e);
    if e.arg.Leaf? {
      EmitsMade(e, "");
      PairedOne(stack, queue, o, c, "", Made(e));
    } else {
      PairedChain(stack + [o], [c] + queue, e.arg);
      EmitsMade(e, Made(e.arg));
      PairedOne(stack, queue, o, c, Made(e.arg), Made(e));
    }
  }

  lemma {:induction false} Regrouped(stack: seq<Opener>, queue: seq<Closer>, e: Expr)
    requires !e.Leaf?
    ensures stack + Openers(e) == (stack + [OpenerFor(e)]) + Openers(e.arg)
    ensures Closers(e) + queue == Closers(e.arg) + ([CloserFor(e)] + queue)
    ensures e.arg.Leaf? ==> stack + Openers(e) == stack + [OpenerFor(e)] && Closers(e) + queue == [CloserFor(e)] + queue
  {
  }

  lemma {:induction false} MadeIsTcl(e: Expr)
    ensures Drops(e) ==> |Made(e)| < |Tcl(e)|
    ensures !Drops(e) ==> Made(e) == Tcl(e)
    decreases e
  {
    if !e.Leaf? {
      MadeIsTcl(e.arg);
    }
  }

  lemma {:induction false} ChainParsed(e: Expr, garbage: nat -> StatementType)
    requires Proper(e) && !e.Leaf?
    ensures Parsed(Written(e), garbage, NOTHING) == Elements(Openers(e), Closers(e))
  {
    ParsedChain(e, "", Written(e), garbage, NOTHING);
    var all := Elements(NOTHING.stack + Openers(e), NOTHING.queue + Closers(e));
    assert Parsed("", garbage, all) == all;
  }

  /** Every chain without commas becomes exactly its Tcl. With commas that is so if and only if there is a quote
      somewhere and the comma is not in the innermost call's own argument. */
  lemma {:induction false} ChainTranslated(e: Expr, garbage: nat -> StatementType)
    requires Proper(e) && !e.Leaf?
    ensures Translation(Written(e), garbage) == Compiled(Tcl(e))
            <==> (HasComma(Written(e)) ==> HasQuote(Written(e)) && !Drops(e))
    ensures HasComma(Written(e)) && !HasQuote(Written(e)) ==> Translation(Written(e), garbage) == Rejected
  {
    ChainParsed(e, garbage);
    PairedChain([], [], e);
    assert [] + Openers(e) == Openers(e) && Closers(e) + [] == Closers(e);
    MadeIsTcl(e);
    DropsHasComma(e);
  }

  lemma {:induction false} DropsHasComma(e: Expr)
    ensures Drops(e) ==> HasComma(Written(e))
    decreases e
  {
    if !e.Leaf? {
      var inner := Written(e.arg);
      var n := |Head(e)| + 1;
      assert forall i :: 0 <= i < |inner| ==> Written(e)[n + i] == inner[i];
      DropsHasComma(e.arg);
    }
  }

  /** Outside chains the pairing goes wrong: of two calls side by side the first one gets the second one's argument and
      the second one disappears. */
  lemma {:induction false} SiblingsMixed(f: string, g: string, x: string, y: string, s: string,
      garbage: nat -> StatementType)
    requires Plain(f) && Plain(g) && Plain(x) && Plain(y) && y != ""
    requires s == Written(Call(f, Leaf(x))) + Written(Call(g, Leaf(y))) && !HasComma(s)
    ensures Translation(s, garbage) == Compiled("[" + f + " " + y + "]")
  {
    var a, b := Call(f, Leaf(x)), Call(g, Leaf(y));
    SiblingsParsed(a, b, s, garbage);
    NoCommaInside(a, b, s);
    SiblingsPaired(OpenerFor(a), OpenerFor(b), CloserFor(a), CloserFor(b));
  }

  lemma {:induction false} SiblingsParsed(a: Expr, b: Expr, s: string, garbage: nat -> StatementType)
    requires Proper(a) && Proper(b) && a.Call? && b.Call? && a.arg.Leaf? && b.arg.Leaf? && s == Written(a) + Written(b)
    ensures Parsed(s, garbage, NOTHING) == Elements([OpenerFor(a), OpenerFor(b)], [CloserFor(a), CloserFor(b)])
  {
    var st := Elements([OpenerFor(a)], [CloserFor(a)]);
    ParsedLeafCall(a, Written(b), s, garbage, NOTHING, st);
    var all := Elements([OpenerFor(a), OpenerFor(b)], [CloserFor(a), CloserFor(b)]);
    assert all.stack == st.stack + [OpenerFor(b)] && all.queue == st.queue + [CloserFor(b)];
    assert Written(b) + "" == Written(b);
    ParsedLeafCall(b, "", Written(b), garbage, st, all);
    assert Parsed("", garbage, all) == all;
  }

  lemma {:induction false} ParsedLeafCall(a: Expr, rest: string, s: string, garbage: nat -> StatementType, st: Elements,
                                          next: Elements)
    requires Proper(a) && a.Call? && a.arg.Leaf? && s == Written(a) + rest
    requires next == Elements(st.stack + [OpenerFor(a)], st.queue + [CloserFor(a)])
    ensures Parsed(s, garbage, st) == Parsed(rest, garbage, next)
  {
    ParsedChain(a, rest, s, garbage, st);
    assert Openers(a) == [OpenerFor(a)] && Closers(a) == [CloserFor(a)];
  }

  lemma {:induction false} SiblingsPaired(o1: Opener, o2: Opener, c1: Closer, c2: Closer)
    requires o1.kind == o2.kind == ArrayType && c2.paren && c2.text != "" && !HasComma(c2.text)
    ensures Paired([o1, o2], [c1, c2], "") == "[" + o1.text + " " + c2.text + "]"
  {
    var mid := EmitArray(o2, c1, "");
    assert [o1] + [o2] == [o1, o2] && [c1] + [c2] == [c1, c2];
    PairedOne([o1], [c2], o2, c1, "", mid);
    assert [] + [o1] == [o1] && [c2] + [] == [c2];
    PairedOne([], [], o1, c2, mid, EmitArray(o1, c2, mid));
  }

  lemma {:induction false} NoCommaInside(a: Expr, b: Expr, s: string)
    requires b.Call? && b.arg.Leaf? && s == Written(a) + Written(b) && !HasComma(s)
    ensures !HasComma(b.arg.text)
  {
    var n := |Written(a)| + |Head(b)| + 1;
    assert forall i :: 0 <= i < |b.arg.text| ==> s[n + i] == b.arg.text[i];
  }

  const QUOTED: string := "'a,b'"

  /** `$f('a,b')`: the quotes let the comma through, and the argument is lost. */
  lemma {:induction false} LostArgumentWitness(e: Expr, garbage: nat -> StatementType)
    requires e == Call("f", Leaf(QUOTED))
    ensures Written(e) == "$f(" + QUOTED + ")" && Tcl(e) == "[f " + QUOTED + "]"
    ensures Translation(Written(e), garbage) == Compiled("[f " + "]")
  {
    Quoted();
    QuoteShows(e);
    ChainMade(e, garbage);
    assert "[" + "f" + " " == "[f ";
  }

  lemma {:induction false} Quoted()
    ensures Plain(QUOTED) && HasComma(QUOTED) && HasQuote(QUOTED) && Plain("f")
  {
    assert QUOTED[0] == '\'' && QUOTED[2] == ',';
  }

  lemma {:induction false} QuoteShows(e: Expr)
    requires !e.Leaf? && e.arg.Leaf? && HasQuote(e.arg.text)
    ensures HasQuote(Written(e))
  {
    var t, n := e.arg.text, |Head(e)| + 1;
    var w := Written(e);
    assert Written(e.arg) == t;
    assert w == Head(e) + ([Open(e)] + (t + [Close(e)]));
    var i :| 0 <= i < |t| && (t[i] == '\'' || t[i] == '"');
    assert w[n + i] == t[i];
  }

  lemma {:induction false} ChainMade(e: Expr, garbage: nat -> StatementType)
    requires Proper(e) && !e.Leaf? && (HasComma(Written(e)) ==> HasQuote(Written(e)))
    ensures Translation(Written(e), garbage) == Compiled(Made(e))
  {
    ChainParsed(e, garbage);
    PairedChain([], [], e);
    assert [] + Openers(e) == Openers(e) && Closers(e) + [] == Closers(e);
  }

  // ---------------------------------------------------------------- single pairs of other shapes

  /** One opener with its text, one closer with its text. */
  lemma {:induction false} OnePair(left: string, open: char, text: string, close: char, rest: string, s: string,
                                   garbage: nat -> StatementType)
    requires Plain(left) && Plain(text) && Plain(rest) && IsOpener(open) && IsCloser(close)
    requires s == left + ([open] + (text + ([close] + rest)))
    ensures Parsed(s, garbage, NOTHING)
            == Elements([OpenerOf(open, left, garbage(|s|))], [Closer(close == ')', text)])
  {
    var t := text + ([close] + rest);
    var e := Elements([OpenerOf(open, left, garbage(|s|))], []);
    ReadOne(left, open, t, s, garbage, NOTHING);
    assert Pushed(NOTHING, open, left, garbage(|s|)) == e;
    ReadOne(text, close, rest, t, garbage, e);
    assert rest + "" == rest;
    DelimiterIsNext(rest, "", rest);
    NothingLeft(rest, garbage, Pushed(e, close, text, garbage(|t|)));
  }

  lemma {:induction false} ReadOne(text: string, c: char, rest: string, s: string, garbage: nat -> StatementType,
                                   e: Elements)
    requires Plain(text) && IsDelimiter(c) && s == text + ([c] + rest)
    ensures Parsed(s, garbage, e) == Parsed(rest, garbage, Pushed(e, c, text, garbage(|s|)))
  {
    DelimiterIsNext(text, [c] + rest, s);
    AfterDelimiter(text, c, rest, s);
    ParsedNext(s, |text|, c, text, rest, garbage, e, garbage(|s|));
  }

  /** Statements of one pair that are no chains: a map in parentheses keeps its `#` when it has an argument and loses it
      when it has none; text without `$` or `#` leaves nothing when its type is unset; brackets may be mixed. */
  lemma {:induction false} OddPairs(name: string, text: string, garbage: nat -> StatementType)
    requires Plain(name) && Plain(text) && text != "" && !HasComma(name) && !HasComma(text)
    ensures OnlyPair("#" + name, '(', text, ')', garbage) == "$" + ("#" + name) + "(" + text + ")"
    ensures OnlyPair("#" + name, '(', "", ')', garbage) == "$" + name + "(" + "" + ")"
    ensures OnlyPair("$" + name, '(', text, ']', garbage) == "[lindex " + name + " " + text + "]"
    ensures OnlyPair("$" + name, '[', text, ')', garbage) == "[" + ("$" + name) + " " + text + "]"
    ensures name != "" && name[0] != '$' && name[0] != '#' && (forall n :: garbage(n) == OtherType) ==>
              OnlyPair(name, '(', text, ')', garbage) == ""
    ensures (forall n :: garbage(n) == MapType) ==> OnlyPair("", '(', "", ')', garbage) == "$"
  {
    assert ("#" + name)[1..] == name && ("$" + name)[1..] == name;
  }

  /** What one pair becomes. */
  function OnlyPair(left: string, open: char, text: string, close: char, garbage: nat -> StatementType): (r: string)
    requires IsOpener(open) && IsCloser(close)
  {
    var n := |left| + |text| + 2;
    match Emit(OpenerOf(open, left, garbage(n)), Closer(close == ')', text), "")
    case Thrown => "$"
    case Emitted(t) => t
  }

  /** It is the translation of the statement. */
  lemma {:induction false} OnePairTranslated(left: string, open: char, text: string, close: char, s: string,
                                             garbage: nat -> StatementType)
    requires Plain(left) && Plain(text) && IsOpener(open) && IsCloser(close) && !HasComma(s)
    requires s == left + ([open] + (text + ([close] + "")))
    ensures Translation(s, garbage) == Compiled(OnlyPair(left, open, text, close, garbage))
  {
    OnePair(left, open, text, close, "", s, garbage);
    OnePaired(OpenerOf(open, left, garbage(|s|)), Closer(close == ')', text));
  }

  lemma {:induction false} OnePaired(o: Opener, c: Closer)
    ensures Paired([o], [c], "") == match Emit(o, c, "") case Thrown => "$" case Emitted(t) => t
  {
    assert [o][..0] == [] && [c][1..] == [];
  }
}
