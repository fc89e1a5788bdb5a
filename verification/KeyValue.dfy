/** Key/value pairs as a '|'-separated stream: the incremental parser and the printer undo each other. */
module KeyValues {
  import opened Text
  import opened Buffers
  import opened Base64Codec

  const BAR: Byte := '|'

  type Pairs = map<Bytes, Bytes>

  /** Index of the first bar, or the end. */
  function FirstBar(s: Bytes): (n: nat)
    ensures n <= |s| && (n < |s| ==> s[n] == BAR) && forall h :: 0 <= h < n ==> s[h] != BAR
  {
    if s == [] || s[0] == BAR then 0 else 1 + FirstBar(s[1..])
  }

  /** The bar-terminated pieces of `s`; an unterminated rest is no piece. */
  function Pieces(s: Bytes): (ps: seq<Bytes>)
    decreases |s|
  {
    var n := FirstBar(s);
    if n == |s| then [] else [s[..n]] + Pieces(s[n + 1..])
  }

  /** What a C string built from `s` holds. */
  function Key(s: Bytes): (k: Bytes) {
    s[..StrEnd(s, 0)]
  }

  function Sent(v: Bytes, encoded: bool): (w: Bytes) {
    if encoded then Encoded(v) else v
  }

  function Received(w: Bytes, encoded: bool): (v: Bytes) {
    if encoded then Decoded(w) else w
  }

  function Receiver(encoded: bool): (f: Bytes -> Bytes) {
    w => Received(w, encoded)
  }

  /** Complete pairs from left to right, values through `f`; the last value of a key wins. */
  function Fold(ps: seq<Bytes>, m: Pairs, f: Bytes -> Bytes): (r: Pairs) {
    if |ps| < 2 then m else Fold(ps[2..], m[Key(ps[0]) := f(ps[1])], f)
  }

  /** What parsing `s` adds to `m`. */
  function Parsed(s: Bytes, m: Pairs, encoded: bool): (r: Pairs) {
    Fold(Pieces(s), m, Receiver(encoded))
  }

  /** The printed pairs of the keys `ks`, in that order. */
  function Stream(m: Pairs, ks: seq<Bytes>, encoded: bool): (s: Bytes)
    requires forall k :: k in ks ==> k in m
  {
    if ks == [] then [] else ks[0] + [BAR] + Sent(m[ks[0]], encoded) + [BAR] + Stream(m, ks[1..], encoded)
  }

  /** `ks` lists the keys of `m`, each once. */
  ghost predicate Lists(ks: seq<Bytes>, m: Pairs) {
    && (forall k :: k in ks <==> k in m)
    && forall i, j :: 0 <= i < j < |ks| ==> ks[i] != ks[j]
  }

  /** Keys are C strings without bars; plain values have no bars either. */
  ghost predicate Transmissible(m: Pairs, encoded: bool) {
    forall k :: k in m ==> BAR !in k && NUL !in k && (encoded || BAR !in m[k])
  }

  lemma {:induction false} EncodedHasNoBar(v: Bytes)
    ensures BAR !in Encoded(v)
  {
    EncodeIsCanonical(v);
    var s := Encoded(v);
    forall i | 0 <= i < |s| ensures s[i] != BAR {
      assert IsBase64(s[i]) || s[i] == PAD;
    }
  }

  /** Cutting a printed piece, and a printed pair, off the front of a stream. */
  lemma {:induction false} PiecesOfPiece(p: Bytes, rest: Bytes)
    requires BAR !in p
    ensures Pieces(p + [BAR] + rest) == [p] + Pieces(rest)
  {
    var s := p + [BAR] + rest;
    assert s[|p|] == BAR && forall h :: 0 <= h < |p| ==> s[h] == p[h];
    assert FirstBar(s) == |p|;
    assert s[..|p|] == p && s[|p| + 1..] == rest;
  }

  lemma {:induction false} PiecesOfPair(k: Bytes, w: Bytes, rest: Bytes)
    requires BAR !in k && BAR !in w
    ensures Pieces(k + [BAR] + w + [BAR] + rest) == [k, w] + Pieces(rest)
  {
    var tail := w + [BAR] + rest;
    PairRegrouped(k, w, rest, tail);
    PiecesOfPiece(k, tail);
    PiecesOfPiece(w, rest);
    TwoPieces(k, w, Pieces(rest));
  }

  lemma {:induction false} PairRegrouped(k: Bytes, w: Bytes, rest: Bytes, tail: Bytes)
    requires tail == w + [BAR] + rest
    ensures k + [BAR] + w + [BAR] + rest == k + [BAR] + tail
  {
  }

  lemma {:induction false} TwoPieces(k: Bytes, w: Bytes, ps: seq<Bytes>)
    ensures [k] + ([w] + ps) == [k, w] + ps
  {
  }

  /** The pairs of `m` with keys in `ks`, laid over `acc`. */
  ghost function Overlay(m: Pairs, ks: seq<Bytes>, acc: Pairs): (r: Pairs)
    requires forall k :: k in ks ==> k in m
  {
    map k | k in acc.Keys + (set x | x in ks) :: if k in ks then m[k] else acc[k]
  }

  lemma {:induction false} FoldOfStream(m: Pairs, ks: seq<Bytes>, acc: Pairs, encoded: bool)
    requires Transmissible(m, encoded) && forall k :: k in ks ==> k in m
    ensures Parsed(Stream(m, ks, encoded), acc, encoded) == Overlay(m, ks, acc)
    decreases ks
  {
    if ks == [] {
      assert Overlay(m, ks, acc) == acc;
    } else {
      var k, v := ks[0], m[ks[0]];
      FoldOfPair(k, v, Stream(m, ks[1..], encoded), acc, encoded);
      FoldOfStream(m, ks[1..], acc[k := v], encoded);
      OverlayStep(m, ks, acc);
    }
  }

  lemma {:induction false} OverlayStep(m: Pairs, ks: seq<Bytes>, acc: Pairs)
    requires ks != [] && forall k :: k in ks ==> k in m
    ensures Overlay(m, ks[1..], acc[ks[0] := m[ks[0]]]) == Overlay(m, ks, acc)
  {
  }

  lemma {:induction false} FoldOfPair(k: Bytes, v: Bytes, rest: Bytes, acc: Pairs, encoded: bool)
    requires BAR !in k && NUL !in k && (encoded || BAR !in v)
    ensures Parsed(k + [BAR] + Sent(v, encoded) + [BAR] + rest, acc, encoded) == Parsed(rest, acc[k := v], encoded)
  {
    EncodedHasNoBar(v);
    DecodeOfEncode(v);
    PiecesOfPair(k, Sent(v, encoded), rest);
    KeyOfNulFree(k);
    FoldStep(k, Sent(v, encoded), Pieces(rest), acc, Receiver(encoded));
  }

  lemma {:induction false} KeyOfNulFree(k: Bytes)
    requires NUL !in k
    ensures Key(k) == k
  {
    assert StrEnd(k, 0) == |k|;
  }

  lemma {:induction false} FoldStep(k: Bytes, w: Bytes, ps: seq<Bytes>, acc: Pairs, f: Bytes -> Bytes)
    ensures Fold([k, w] + ps, acc, f) == Fold(ps, acc[Key(k) := f(w)], f)
  {
    assert ([k, w] + ps)[2..] == ps;
  }

  lemma {:induction false} FoldNext(k: Bytes, w: Bytes, ps: seq<Bytes>, acc: Pairs, f: Bytes -> Bytes)
    ensures Fold([k] + ([w] + ps), acc, f) == Fold(ps, acc[Key(k) := f(w)], f)
  {
    assert [k] + ([w] + ps) == [k, w] + ps;
    FoldStep(k, w, ps, acc, f);
  }

  /** Whatever comes out of a parse: bar-free, NUL-free keys, and bar-free values unless decoded. */
  lemma {:induction false} FoldIsTransmissible(ps: seq<Bytes>, acc: Pairs, encoded: bool)
    requires Transmissible(acc, encoded) && forall p :: p in ps ==> BAR !in p
    ensures Transmissible(Fold(ps, acc, Receiver(encoded)), encoded)
    decreases ps
  {
    if |ps| >= 2 {
      var k := Key(ps[0]);
      assert ps[0] in ps && ps[1] in ps && k <= ps[0] && NUL !in k;
      FoldIsTransmissible(ps[2..], acc[k := Received(ps[1], encoded)], encoded);
    }
  }

  lemma {:induction false} PiecesHaveNoBar(s: Bytes)
    ensures forall p :: p in Pieces(s) ==> BAR !in p
    decreases |s|
  {
    var n := FirstBar(s);
    if n < |s| {
      PiecesHaveNoBar(s[n + 1..]);
    }
  }

  /** Printing and parsing into an empty map gives the map back exactly when it is transmissible. */
  lemma {:induction false} StreamRoundTrip(m: Pairs, ks: seq<Bytes>, encoded: bool)
    requires Lists(ks, m)
    ensures Parsed(Stream(m, ks, encoded), map[], encoded) == m <==> Transmissible(m, encoded)
  {
    if Transmissible(m, encoded) {
      FoldOfStream(m, ks, map[], encoded);
      assert Overlay(m, ks, map[]) == m;
    } else {
      var ps := Pieces(Stream(m, ks, encoded));
      PiecesHaveNoBar(Stream(m, ks, encoded));
      FoldIsTransmissible(ps, map[], encoded);
    }
  }

  lemma {:induction false} FirstPiece(x: Bytes) returns (p: Bytes, y: Bytes)
    requires x != [] && x[|x| - 1] == BAR
    ensures x == p + [BAR] + y && BAR !in p && (y == [] || y[|y| - 1] == BAR)
  {
    var n := FirstBar(x);
    p, y := x[..n], x[n + 1..];
  }

  lemma {:induction false} PieceBehind(x: Bytes, r: Bytes, p: Bytes, y: Bytes)
    requires x == p + [BAR] + y && BAR !in p && Pieces(y + r) == Pieces(y)
    ensures Pieces(x + r) == Pieces(x)
  {
    assert x + r == p + [BAR] + (y + r);
    PiecesOfPiece(p, y);
    PiecesOfPiece(p, y + r);
  }

  /** Text behind the last bar is no piece. */
  lemma {:induction false} RestIgnored(x: Bytes, r: Bytes)
    requires BAR !in r && (x == [] || x[|x| - 1] == BAR)
    ensures Pieces(x + r) == Pieces(x)
    decreases |x|
  {
    if x == [] {
      assert x + r == r && FirstBar(r) == |r|;
    } else {
      var p, y := FirstPiece(x);
      RestIgnored(y, r);
      PieceBehind(x, r, p, y);
    }
  }

  /** A key without a value changes nothing. */
  lemma {:induction false} LoneKeyIgnored(ps: seq<Bytes>, k: Bytes, m: Pairs, f: Bytes -> Bytes)
    requires |ps| % 2 == 0
    ensures Fold(ps + [k], m, f) == Fold(ps, m, f)
    decreases |ps|
  {
    if |ps| >= 2 {
      assert (ps + [k])[2..] == ps[2..] + [k];
      LoneKeyIgnored(ps[2..], k, m[Key(ps[0]) := f(ps[1])], f);
    }
  }

  /** The complete pair at `i` has key `k`. */
  predicate PairAt(ps: seq<Bytes>, i: nat, k: Bytes) {
    i % 2 == 0 && i + 1 < |ps| && Key(ps[i]) == k
  }

  /** What a key is given by parsing: the value of the last complete pair that names it, or what it had before. */
  lemma {:induction false} LastPairWins(ps: seq<Bytes>, m: Pairs, f: Bytes -> Bytes, k: Bytes, i: nat)
    requires PairAt(ps, i, k) && forall j: nat :: i < j ==> !PairAt(ps, j, k)
    ensures k in Fold(ps, m, f) && Fold(ps, m, f)[k] == f(ps[i + 1])
    decreases |ps|
  {
    var next := m[Key(ps[0]) := f(ps[1])];
    forall j: nat | i < j + 2 && PairAt(ps[2..], j, k) ensures false {
      assert PairAt(ps, j + 2, k);
    }
    if i == 0 {
      EarlierStays(ps[2..], next, f, k);
    } else {
      assert PairAt(ps[2..], i - 2, k);
      LastPairWins(ps[2..], next, f, k, i - 2);
    }
  }

  lemma {:induction false} EarlierStays(ps: seq<Bytes>, m: Pairs, f: Bytes -> Bytes, k: Bytes)
    requires forall j: nat :: !PairAt(ps, j, k)
    ensures k in Fold(ps, m, f) <==> k in m
    ensures k in m ==> Fold(ps, m, f)[k] == m[k]
    decreases |ps|
  {
    if |ps| >= 2 {
      assert !PairAt(ps, 0, k);
      forall j: nat ensures !PairAt(ps[2..], j, k) {
        assert !PairAt(ps, j + 2, k);
      }
      EarlierStays(ps[2..], m[Key(ps[0]) := f(ps[1])], f, k);
    }
  }

  /** `idx` is where the piece that starts at `mark` ends, or -1 when no bar ends it. */
  predicate BarAt(stream: Bytes, mark: int, idx: int) {
    && 0 <= mark <= |stream|
    && (idx == -1 || mark <= idx < |stream|)
    && FirstBar(stream[mark..]) == if idx == -1 then |stream| - mark else idx - mark
  }

  /** A bar in a key: the one pair of this map is read back under another key. */
  lemma {:induction false} BarInKeyWitness(m: Pairs)
    requires m == map["|" := ""]
    ensures Lists(["|"], m) && Stream(m, ["|"], false) == "|||" && Parsed("|||", map[], false) == map["" := ""]
    ensures m != map["" := ""]
  {
    var k: Bytes := "|";
    assert [k][1..] == [] && k + [BAR] + m[k] + [BAR] + [] == "|||";
    PiecesOfPair("", "", k);
    assert "" + [BAR] + "" + [BAR] + k == "|||";
    PiecesOfPiece("", "");
    assert "" + [BAR] + "" == k;
    FoldStep("", "", Pieces(k), map[], Receiver(false));
    assert k in m;
  }

  /** The key/value map; each value buffer is held by its contents. */
  class KeyValue {
    var pairs: Pairs

    constructor ()
      ensures pairs == map[]
    {
      pairs := map[];
    }

    method Set(key: Bytes, value: Bytes)
      modifies this
      ensures pairs == old(pairs)[Key(key) := value]
    {
      pairs := pairs[Key(key) := value];
    }

    /** Copies the value into the caller's buffer, which is emptied when there is none. */
    method Get(key: Bytes, buffer: Buffer)
      requires buffer.Valid()
      modifies buffer.Repr()
      ensures buffer.Valid() && fresh(buffer.Repr() - old(buffer.Repr()))
      ensures Key(key) in old(pairs) ==> buffer.Contents() == old(pairs)[Key(key)]
      ensures Key(key) !in old(pairs) ==> buffer.Contents() == []
    {
      if Key(key) in pairs {
        buffer.ReplaceWith(pairs[Key(key)]);
      } else {
        buffer.Reset();
      }
    }

    /** A finished piece is kept as the key, or stored as the value of the key kept before. */
    method Accept(key: Bytes, value: bool, piece: Bytes, encoded: bool) returns (next: Bytes)
      modifies this
      ensures !value ==> next == key + piece && pairs == old(pairs)
      ensures value ==> next == [] && pairs == old(pairs)[Key(key) := Receiver(encoded)(piece)]
    {
      if !value {
        next := key + piece;
      } else {
        var v := Receive(piece, encoded);
        Set(key, v);
        next := [];
      }
    }

    method AcceptNext(key: Bytes, value: bool, stream: Bytes, mark: nat, idx: nat, encoded: bool,
                      ghost f: Bytes -> Bytes, ghost goal: Pairs)
      returns (next: Bytes)
      requires BarAt(stream, mark, idx)
      requires f == Receiver(encoded) && Leads(key, value, stream[mark..], pairs, f, goal)
      modifies this
      ensures Leads(next, !value, stream[idx + 1..], pairs, f, goal)
    {
      assert Left(key, value, Pieces(stream[mark..]), pairs, f, goal);
      CutPiece(stream, mark, idx);
      var piece := stream[mark..idx];
      TakePiece(key, value, piece, Pieces(stream[idx + 1..]), pairs, f, goal);
      next := Accept(key, value, piece, encoded);
    }

    /** What is still to be folded in: the kept key, if any, and the unread pieces. */
    static ghost predicate Left(key: Bytes, value: bool, rest: seq<Bytes>, m: Pairs, f: Bytes -> Bytes,
                                      goal: Pairs) {
      if value then Fold([key] + rest, m, f) == goal else key == [] && Fold(rest, m, f) == goal
    }

    /** One pass with a mark and a key/value flag. */
    method Parse(stream: Bytes, encoded: bool)
      modifies this
      ensures pairs == Parsed(stream, old(pairs), encoded)
    {
      var buffer := new Buffer();
      buffer.ReplaceWith(stream);
      ParsePieces(buffer, stream, encoded, Receiver(encoded), Fold(Pieces(stream), pairs, Receiver(encoded)));
    }

    method ParsePieces(buffer: Buffer, stream: Bytes, encoded: bool, ghost f: Bytes -> Bytes, ghost goal: Pairs)
      requires buffer.Valid() && buffer.Contents() == stream
      requires f == Receiver(encoded) && goal == Fold(Pieces(stream), pairs, f)
      modifies this
      ensures pairs == goal
    {
      var key: Bytes := [];
      var value, mark := false, 0;
      assert stream[0..] == stream;
      var idx := NextBar(buffer, stream, mark);
      while idx != -1
        invariant BarAt(stream, mark, idx) && Leads(key, value, stream[mark..], pairs, f, goal)
        decreases |stream| - mark
      {
        key := AcceptNext(key, value, stream, mark, idx, encoded, f, goal);
        mark, value := idx + 1, !value;
        idx := NextBar(buffer, stream, mark);
      }
      Finished(key, value, stream, mark, pairs, f, goal);
    }

    /** The same for unread text, said so that the text is not looked into where it is only passed on. */
    static ghost predicate Leads(key: Bytes, value: bool, rest: Bytes, m: Pairs, f: Bytes -> Bytes, goal: Pairs) {
      forall r :: r == rest ==> Left(key, value, Pieces(r), m, f, goal)
    }

    static lemma {:induction false} Finished(key: Bytes, value: bool, stream: Bytes, mark: nat, m: Pairs,
                                             f: Bytes -> Bytes, goal: Pairs)
      requires BarAt(stream, mark, -1) && Leads(key, value, stream[mark..], m, f, goal)
      ensures m == goal
    {
      assert Left(key, value, Pieces(stream[mark..]), m, f, goal);
    }

    /** Accepting a piece moves it from the unread pieces into the map or into the kept key. */
    static lemma {:induction false} TakePiece(key: Bytes, value: bool, piece: Bytes, rest: seq<Bytes>, m: Pairs,
                           f: Bytes -> Bytes, goal: Pairs)
      requires Left(key, value, [piece] + rest, m, f, goal)
      ensures value ==> Left([], false, rest, m[Key(key) := f(piece)], f, goal)
      ensures !value ==> Left(key + piece, true, rest, m, f, goal)
    {
      if value {
        FoldNext(key, piece, rest, m, f);
      } else {
        assert key + piece == piece;
      }
    }

    /** Appends one printed pair per key; `ks` is the order in which the map is walked. */
    method GetStream(ks: seq<Bytes>, encode: bool) returns (s: Bytes)
      requires Lists(ks, pairs)
      ensures s == Stream(pairs, ks, encode)
    {
      s := [];
      var i := 0;
      while i < |ks|
        invariant 0 <= i <= |ks|
        invariant s + Stream(pairs, ks[i..], encode) == Stream(pairs, ks, encode)
      {
        var k := ks[i];
        var v := pairs[k];
        var w := Send(v, encode);
        StreamStep(pairs, ks, i, s, encode);
        s := s + k + [BAR] + w + [BAR];
        i := i + 1;
      }
    }
  }

  lemma {:induction false} StreamStep(m: Pairs, ks: seq<Bytes>, i: nat, s: Bytes, encoded: bool)
    requires (forall k :: k in ks ==> k in m) && i < |ks|
    ensures s + Stream(m, ks[i..], encoded)
         == s + ks[i] + [BAR] + Sent(m[ks[i]], encoded) + [BAR] + Stream(m, ks[i + 1..], encoded)
  {
    assert ks[i..][1..] == ks[i + 1..];
    var k, w, rest := ks[i], Sent(m[ks[i]], encoded), Stream(m, ks[i + 1..], encoded);
    assert s + (k + [BAR] + w + [BAR] + rest) == s + k + [BAR] + w + [BAR] + rest;
  }

  lemma {:induction false} CutPiece(s: Bytes, mark: nat, idx: nat)
    requires mark <= idx < |s| && FirstBar(s[mark..]) == idx - mark
    ensures Pieces(s[mark..]) == [s[mark..idx]] + Pieces(s[idx + 1..])
  {
    assert s[mark..][..idx - mark] == s[mark..idx] && s[mark..][idx - mark + 1..] == s[idx + 1..];
    PiecesCut(s[mark..], idx - mark, s[mark..idx], s[idx + 1..]);
  }

  lemma {:induction false} PiecesCut(t: Bytes, n: nat, p: Bytes, rest: Bytes)
    requires n == FirstBar(t) && n < |t| && p == t[..n] && rest == t[n + 1..]
    ensures Pieces(t) == [p] + Pieces(rest)
  {
  }

  lemma {:induction false} FirstBarFound(s: Bytes, mark: nat, idx: int)
    requires mark <= |s|
    requires idx == -1 ==> forall h :: mark <= h < |s| ==> s[h] != BAR
    requires idx != -1 ==> mark <= idx < |s| && s[idx] == BAR && forall h :: mark <= h < idx ==> s[h] != BAR
    ensures FirstBar(s[mark..]) == if idx == -1 then |s| - mark else idx - mark
  {
    var t := s[mark..];
    assert forall h :: 0 <= h < |t| ==> t[h] == s[mark + h];
  }

  method NextBar(buffer: Buffer, ghost stream: Bytes, mark: nat) returns (idx: int)
    requires buffer.Valid() && buffer.Contents() == stream && mark <= |stream|
    ensures BarAt(stream, mark, idx)
  {
    idx := buffer.FindChar(BAR, mark);
    FirstBarFound(buffer.Contents(), mark, idx);
  }

  method Receive(w: Bytes, encoded: bool) returns (v: Bytes)
    ensures v == Received(w, encoded)
  {
    var b := new Buffer();
    b.ReplaceWith(w);
    if encoded {
      var codec := new Base64();
      codec.Decode(b);
    }
    v := if b.buf == null then [] else b.buf[..b.tail];
  }

  method Send(v: Bytes, encode: bool) returns (w: Bytes)
    ensures w == Sent(v, encode)
  {
    var b := new Buffer();
    b.ReplaceWith(v);
    if encode {
      var codec := new Base64();
      codec.Encode(b);
    }
    w := if b.buf == null then [] else b.buf[..b.tail];
  }
}
