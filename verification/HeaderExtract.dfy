/** HTTP-style headers: a block of lines up to the blank line, read into a last-wins map of fields. */
module HeaderExtracts {
  import opened Text
  import opened Buffers

  const CR: string := "\r"
  const CRLF: string := "\r\n"
  const BLANK: string := "\r\n\r\n"
  const END: string := "end"

  type Params = map<string, string>

  /** A line split at its first colon, with one space behind the colon dropped. */
  function Entered(m: Params, line: string): (r: Params) {
    var c := IndexFrom(line, ":", 0);
    if c == -1 then m else m[line[..c] := Value(line, c)]
  }

  function Value(line: string, c: nat): (v: string)
    requires c < |line|
  {
    if c + 1 < |line| && line[c + 1] == ' ' then line[c + 2..] else line[c + 1..]
  }

  /** The fields found from `offset` on: a line ends at a CR and the next one starts two characters later. */
  function Fields(h: string, offset: nat, m: Params): (r: Params)
    decreases |h| - offset
  {
    var i := IndexFrom(h, CR, offset);
    if i == -1 then m else Fields(h, i + 2, Entered(m, h[offset..i]))
  }

  /** What Parse makes of a buffer's content. */
  function ParamsOf(s: string): (r: Params)
    requires s == "" || |s| >= 4
  {
    var n := if s == "" then -1 else StrStr(s, BLANK, 4);
    if n == -1 then map[] else Fields(s[..n] + CRLF + END + CRLF, 0, map[])
  }

  function Lookup(m: Params, name: string): (v: string) {
    if name in m then m[name] else ""
  }

  class HeaderExtract {
    var header: string
    var params: Params

    constructor ()
      ensures header == "" && params == map[]
    {
      header, params := "", map[];
    }

    /** Between one and three bytes the search would start behind the terminator, which has no meaning. */
    method Parse(buf: Buffer)
      requires buf.Valid() && (buf.tail == 0 || buf.tail >= 4)
      requires {this} !! buf.Repr()
      modifies this, buf.buf
      ensures buf.Valid() && buf.Contents() == old(buf.Contents()) && (buf.tail > 0 ==> buf.Terminated())
      ensures params == ParamsOf(buf.Contents())
    {
      params := map[];
      var n := buf.Find(BLANK, 4);
      if n == -1 {
        return;
      }
      header := buf.buf[..n];
      header := header + CRLF + END + CRLF;
      assert buf.buf[..n] == buf.Contents()[..n];
      Scan();
    }

    /** The line loop. */
    method Scan()
      modifies this`params
      ensures params == Fields(header, 0, old(params))
    {
      var offset := 0;
      var i := IndexFrom(header, CR, offset);
      while i != -1
        invariant offset >= 0 && i == IndexFrom(header, CR, offset)
        invariant Fields(header, offset, params) == Fields(header, 0, old(params))
        decreases |header| - offset
      {
        var line := header[offset..i];
        params := Add(params, line);
        offset := i + 2;
        i := IndexFrom(header, CR, offset);
      }
    }

    method GetValue(name: string) returns (v: string)
      ensures v == Lookup(params, name)
    {
      if name in params {
        v := params[name];
      } else {
        v := "";
      }
    }
  }

  method Add(m: Params, text: string) returns (r: Params)
    ensures r == Entered(m, text)
  {
    var line := text;
    var split := IndexFrom(line, ":", 0);
    if split == -1 {
      return m;
    }
    if split + 1 < |line| && line[split + 1] == ' ' {
      line := line[..split] + line[split + 2..];
    } else {
      line := line[..split] + line[split + 1..];
    }
    r := m[line[..split] := line[split..]];
  }

  // ---------------------------------------------------------------- printing

  function Unlines(lines: seq<string>): (r: string) {
    if lines == [] then "" else lines[0] + CRLF + Unlines(lines[1..])
  }

  predicate CrFree(lines: seq<string>) {
    forall l, i :: 0 <= l < |lines| && 0 <= i < |lines[l]| ==> lines[l][i] != '\r'
  }

  function EnteredAll(m: Params, lines: seq<string>): (r: Params)
    decreases |lines|
  {
    if lines == [] then m else EnteredAll(Entered(m, lines[0]), lines[1..])
  }

  /** Scanning printed lines enters each of them once, in order. */
  lemma {:induction false} FieldsOfLines(pre: string, lines: seq<string>, h: string, m: Params)
    requires CrFree(lines) && h == pre + Unlines(lines)
    ensures Fields(h, |pre|, m) == EnteredAll(m, lines)
    decreases |lines|
  {
    if lines == [] {
      NoCr(h, |pre|);
    } else {
      var line, rest := lines[0], lines[1..];
      var next := pre + line + CRLF;
      FirstLine(pre, line, Unlines(rest), h);
      assert CrFree(rest) by {
        assert forall l :: 0 <= l < |rest| ==> rest[l] == lines[l + 1];
      }
      FieldsOfLines(next, rest, h, Entered(m, line));
    }
  }

  lemma {:induction false} NoCr(h: string, from: nat)
    requires from >= |h|
    ensures IndexFrom(h, CR, from) == -1
  {
  }

  lemma {:induction false} FirstLine(pre: string, line: string, rest: string, h: string)
    requires h == pre + (line + CRLF + rest)
    requires forall i :: 0 <= i < |line| ==> line[i] != '\r'
    ensures IndexFrom(h, CR, |pre|) == |pre| + |line|
    ensures h[|pre|..|pre| + |line|] == line
    ensures h == pre + line + CRLF + rest
    ensures |pre + line + CRLF| == |pre| + |line| + 2
  {
    var e := |pre| + |line|;
    assert h[e] == CRLF[0] == '\r';
    forall i | |pre| <= i < e ensures !OccursAt(h, CR, i) {
      assert h[i] == line[i - |pre|];
      assert CR[0] == '\r';
    }
    FirstIsIndexFrom(h, CR, |pre|, e);
  }

  /** A field as a client writes it. */
  datatype Field = Field(name: string, value: string)

  function Printed(f: Field): (line: string) {
    f.name + ": " + f.value
  }

  predicate Printable(f: Field) {
    && f.name != ""
    && (forall i :: 0 <= i < |f.name| ==> f.name[i] != ':' && f.name[i] != '\r' && f.name[i] != NUL)
    && (forall i :: 0 <= i < |f.value| ==> f.value[i] != '\r' && f.value[i] != NUL)
  }

  lemma {:induction false} PrintedField(f: Field, m: Params)
    requires Printable(f)
    ensures Entered(m, Printed(f)) == m[f.name := f.value]
  {
    var line, c := Printed(f), |f.name|;
    assert line[c] == ':' && line[c + 1] == ' ';
    assert forall i :: 0 <= i < c ==> line[i] == f.name[i];
    assert OccursAt(line, ":", c);
    FirstIsIndexFrom(line, ":", 0, c);
    assert line[..c] == f.name && line[c + 2..] == f.value;
  }

  /** Without the space the value starts right behind the colon; without a colon nothing is entered. */
  lemma {:induction false} TightField(name: string, value: string, line: string, m: Params)
    requires forall i :: 0 <= i < |name| ==> name[i] != ':'
    ensures line == name + ":" + value && (value == "" || value[0] != ' ') ==> Entered(m, line) == m[name := value]
    ensures line == name ==> Entered(m, line) == m
  {
    if line == name + ":" + value {
      var c := |name|;
      assert line[c] == ':' && (value != "" ==> line[c + 1] == value[0]);
      assert forall i :: 0 <= i < c ==> line[i] == name[i];
      assert OccursAt(line, ":", c);
      FirstIsIndexFrom(line, ":", 0, c);
      assert line[..c] == name && line[c + 1..] == value;
    } else if line == name {
      forall h | 0 <= h ensures !OccursAt(line, ":", h) {
        if h < |line| {
          assert line[h + 0] != ":"[0];
        }
      }
      AbsentIsMinusOne(line, ":", 0);
    }
  }

  /** Last value wins. */
  function Entries(fs: seq<Field>, m: Params): (r: Params)
    decreases |fs|
  {
    if fs == [] then m else Entries(fs[1..], m[fs[0].name := fs[0].value])
  }

  /** A name gets the value of the last field that has it. */
  lemma {:induction false} LastFieldWins(fs: seq<Field>, m: Params, k: nat)
    requires k < |fs| && forall j :: k < j < |fs| ==> fs[j].name != fs[k].name
    ensures Lookup(Entries(fs, m), fs[k].name) == fs[k].value
    decreases |fs|
  {
    var next := m[fs[0].name := fs[0].value];
    if k == 0 {
      EarlierFieldStays(fs[1..], next, fs[0].name);
    } else {
      LastFieldWins(fs[1..], next, k - 1);
    }
  }

  lemma {:induction false} EarlierFieldStays(fs: seq<Field>, m: Params, name: string)
    requires forall j :: 0 <= j < |fs| ==> fs[j].name != name
    ensures Lookup(Entries(fs, m), name) == Lookup(m, name)
    decreases |fs|
  {
    if fs != [] {
      EarlierFieldStays(fs[1..], m[fs[0].name := fs[0].value], name);
    }
  }

  function PrintedAll(fs: seq<Field>): (lines: seq<string>)
    ensures |lines| == |fs| && forall i :: 0 <= i < |fs| ==> lines[i] == Printed(fs[i])
  {
    seq(|fs|, i requires 0 <= i < |fs| => Printed(fs[i]))
  }

  lemma {:induction false} EnteredPrinted(fs: seq<Field>, lines: seq<string>, m: Params)
    requires forall i :: 0 <= i < |fs| ==> Printable(fs[i])
    requires |lines| == |fs| && forall i :: 0 <= i < |fs| ==> lines[i] == Printed(fs[i])
    ensures EnteredAll(m, lines) == Entries(fs, m)
    decreases |fs|
  {
    if fs != [] {
      PrintedField(fs[0], m);
      EnteredPrinted(fs[1..], lines[1..], m[fs[0].name := fs[0].value]);
    }
  }

  // ---------------------------------------------------------------- where the header ends

  /** The first `n` characters of `s` are a header: NUL-free and followed by the first blank line. */
  ghost predicate Heads(s: string, n: nat) {
    && n + 4 <= |s|
    && (forall i :: 0 <= i < n + 4 ==> s[i] != NUL)
    && FirstAt(s, BLANK, 0, n)
  }

  lemma {:induction false} HeadFound(s: string, n: nat, from: nat)
    requires Heads(s, n) && from <= n
    ensures StrStr(s, BLANK, from) == n
  {
    var t := s[..StrEnd(s, from)];
    assert |t| >= n + 4;
    assert OccursAt(t, BLANK, n);
    forall h | from <= h < n ensures !OccursAt(t, BLANK, h) {
      SamePrefix(t, s, BLANK, h);
    }
    FirstIsIndexFrom(t, BLANK, from, n);
  }

  lemma {:induction false} SamePrefix(t: string, s: string, p: string, h: int)
    requires |t| <= |s| && t == s[..|t|]
    ensures OccursAt(t, p, h) ==> OccursAt(s, p, h)
  {
    if OccursAt(t, p, h) {
      assert forall k :: 0 <= k < |t| ==> s[k] == t[k];
    }
  }

  predicate Clean(line: string) {
    line != "" && forall i :: 0 <= i < |line| ==> line[i] != '\r' && line[i] != NUL
  }

  predicate AllClean(lines: seq<string>) {
    forall l :: 0 <= l < |lines| ==> Clean(lines[l])
  }

  /** No blank line inside: a CR is never followed by another one two characters later. */
  predicate Dense(u: string) {
    forall i :: 0 <= i && i + 2 < |u| && u[i] == '\r' ==> u[i + 2] != '\r'
  }

  lemma {:induction false} UnlinesDense(lines: seq<string>)
    requires AllClean(lines)
    ensures var u := Unlines(lines); Dense(u) && NUL !in u && (lines != [] ==> |u| >= |lines[0]| + 2)
    ensures lines != [] ==> var u := Unlines(lines); u[0] != '\r' && u[|u| - 2..] == CRLF
    decreases |lines|
  {
    if lines != [] {
      UnlinesDense(lines[1..]);
      DenseStep(lines[0], Unlines(lines[1..]), lines[1..] == []);
    }
  }

  lemma {:induction false} DenseStep(line: string, v: string, last: bool)
    requires Clean(line) && Dense(v) && NUL !in v
    requires if last then v == "" else |v| >= 2 && v[0] != '\r' && v[|v| - 2..] == CRLF
    ensures var u := line + CRLF + v; Dense(u) && NUL !in u && u[0] != '\r' && u[|u| - 2..] == CRLF
  {
    var u := line + CRLF + v;
    var n := |line| + 2;
    forall i | 0 <= i && i + 2 < |u| && u[i] == '\r' ensures u[i + 2] != '\r' {
      if i >= n {
        assert u[i] == v[i - n] && u[i + 2] == v[i + 2 - n];
      } else {
        assert i == |line|;
        assert u[i + 2] == v[0];
      }
    }
    assert u[|u| - 2..] == if last then CRLF else v[|v| - 2..];
  }

  /** Printed lines and an empty one make a header whose end is found there. */
  lemma {:induction false} LinesHead(lines: seq<string>, rest: string, s: string)
    requires AllClean(lines) && lines != [] && s == Unlines(lines) + CRLF + rest
    ensures |Unlines(lines)| >= |lines[0]| + 2 && Heads(s, |Unlines(lines)| - 2)
  {
    UnlinesDense(lines);
    DenseHead(Unlines(lines), rest, s);
  }

  lemma {:induction false} DenseHead(u: string, rest: string, s: string)
    requires Dense(u) && NUL !in u && |u| >= 2 && u[|u| - 2..] == CRLF && s == u + CRLF + rest
    ensures Heads(s, |u| - 2)
  {
    var n := |u| - 2;
    assert forall i :: 0 <= i < |u| ==> s[i] == u[i];
    assert s[n] == u[n..][0] && s[n + 1] == u[n..][1] && s[n + 2] == CRLF[0] && s[n + 3] == CRLF[1];
    assert OccursAt(s, BLANK, n);
    forall h | 0 <= h < n ensures !OccursAt(s, BLANK, h) {
      assert BLANK[0] == '\r' && BLANK[2] == '\r';
      assert s[h + 0] == u[h] && s[h + 2] == u[h + 2];
    }
  }

  /** Parsing a printed header gives each line's field, last value first, whatever follows the blank line. */
  lemma {:induction false} ParseOfLines(lines: seq<string>, rest: string, s: string)
    requires AllClean(lines) && lines != [] && |lines[0]| >= 4 && s == Unlines(lines) + CRLF + rest
    ensures |s| >= 4 && ParamsOf(s) == EnteredAll(map[], lines)
  {
    LinesHead(lines, rest, s);
    var n := |Unlines(lines)| - 2;
    HeadFound(s, n, 4);
    UnlinesDense(lines);
    assert s[..n + 2] == Unlines(lines);
    WithEnd(lines, s, s[..n] + CRLF + END + CRLF);
    var all := lines + [END];
    assert Clean(END);
    FieldsOfLines("", all, Unlines(all), map[]);
    EnteredEnd(map[], lines);
  }

  lemma {:induction false} UnlinesSnoc(lines: seq<string>, l: string)
    ensures Unlines(lines + [l]) == Unlines(lines) + l + CRLF
    decreases |lines|
  {
    if lines == [] {
      assert [l][1..] == [];
    } else {
      assert (lines + [l])[1..] == lines[1..] + [l];
      UnlinesSnoc(lines[1..], l);
    }
  }

  lemma {:induction false} WithEnd(lines: seq<string>, s: string, h: string)
    requires var u := Unlines(lines); |u| >= 2 && u[|u| - 2..] == CRLF && |u| <= |s| && s[..|u|] == u
    requires h == s[..|Unlines(lines)| - 2] + CRLF + END + CRLF
    ensures h == Unlines(lines + [END])
  {
    UnlinesSnoc(lines, END);
    var u := Unlines(lines);
    assert s[..|u| - 2] + CRLF == u;
  }

  lemma {:induction false} EnteredEnd(m: Params, lines: seq<string>)
    ensures EnteredAll(m, lines + [END]) == EnteredAll(m, lines)
    decreases |lines|
  {
    if lines == [] {
      assert END[0] == 'e' && END[1] == 'n' && END[2] == 'd' && ":"[0] == ':';
      assert IndexFrom(END, ":", 3) == -1;
      assert IndexFrom(END, ":", 0) == -1;
      assert [END][1..] == [];
    } else {
      assert (lines + [END])[1..] == lines[1..] + [END];
      EnteredEnd(Entered(m, lines[0]), lines[1..]);
    }
  }
}
