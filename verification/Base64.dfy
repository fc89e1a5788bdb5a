/** The Base64 codec: byte-by-byte loops over a reused internal buffer, against section 4 of RFC 4648. */
module Base64Codec {
  import opened Text
  import opened Buffers

  const PAD: Byte := '='

  /** The alphabet table as the source writes it, eight entries a row; entry 64 is the literal's terminator. */
  function TableEntry(i: int): (c: char)
    requires 0 <= i <= 64
  {
    var row: string := match i / 8
      case 0 => "ABCDEFGH"
      case 1 => "IJKLMNOP"
      case 2 => "QRSTUVWX"
      case 3 => "YZabcdef"
      case 4 => "ghijklmn"
      case 5 => "opqrstuv"
      case 6 => "wxyz0123"
      case 7 => "456789+/"
      case _ => "\0\0\0\0\0\0\0\0";
    row[i % 8]
  }

  /** The alphabet of RFC 4648, by ranges. */
  function Letter(i: int): (c: Byte)
    requires 0 <= i <= 64
    ensures Value(c) == i
  {
    if i < 26 then (i + 65) as char
    else if i < 52 then (i + 71) as char
    else if i < 62 then (i - 4) as char
    else if i == 62 then '+'
    else if i == 63 then '/'
    else NUL
  }

  predicate IsBase64(c: Byte) {
    'A' <= c <= 'Z' || 'a' <= c <= 'z' || '0' <= c <= '9' || c == '+' || c == '/'
  }

  /** The first `n` bytes are letters. */
  predicate Letters(s: Bytes, n: nat) {
    n <= |s| && forall i :: 0 <= i < n ==> IsBase64(s[i])
  }

  /** The index of a letter, 64 for NUL, -1 otherwise. */
  function Value(c: Byte): (v: int)
    ensures 0 <= v < 64 <==> IsBase64(c)
    ensures v == 64 <==> c == NUL
    ensures -1 <= v <= 64
  {
    if 'A' <= c <= 'Z' then c as int - 'A' as int
    else if 'a' <= c <= 'z' then c as int - 'a' as int + 26
    else if '0' <= c <= '9' then c as int - '0' as int + 52
    else if c == '+' then 62
    else if c == '/' then 63
    else if c == NUL then 64
    else -1
  }

  lemma {:induction false} LetterOfValue(c: Byte)
    requires Value(c) != -1
    ensures Letter(Value(c)) == c
  {
  }

  lemma {:induction false} TableIsAlphabet(i: int)
    requires 0 <= i <= 64
    ensures TableEntry(i) == Letter(i)
  {
  }

  /** Scans the 65 table entries for `c`. */
  method Find(c: Byte) returns (v: int)
    ensures v == Value(c)
  {
    var i := 0;
    while i < 65
      invariant 0 <= i <= 65
      invariant forall h :: 0 <= h < i ==> Letter(h) != c
    {
      TableIsAlphabet(i);
      if TableEntry(i) == c {
        return i;
      }
      i := i + 1;
    }
    if Value(c) != -1 {
      LetterOfValue(c);
    }
    return -1;
  }

  /** The four letters of three bytes; the C masks and shifts are the divisions and remainders here. */
  function Group(x: Byte, y: Byte, z: Byte): (g: Bytes)
    ensures |g| == 4 && Letters(g, 4)
    ensures Value(g[0]) == x as int / 4 && Value(g[1]) == x as int % 4 * 16 + y as int / 16
    ensures Value(g[2]) == y as int % 16 * 4 + z as int / 64 && Value(g[3]) == z as int % 64
  {
    var a, b, c := x as int, y as int, z as int;
    [Letter(a / 4), Letter(a % 4 * 16 + b / 16), Letter(b % 16 * 4 + c / 64), Letter(c % 64)]
  }

  /** The bytes of four table indices, each sum cut to an unsigned char. */
  function First(a: int, b: int): (x: Byte)
    requires 0 <= a <= 64 && 0 <= b <= 64
  {
    ((a * 4 + b / 16 % 4) % 256) as char
  }

  function Second(b: int, c: int): (y: Byte)
    requires 0 <= b <= 64 && 0 <= c <= 64
  {
    ((b % 16 * 16 + c / 4 % 16) % 256) as char
  }

  function Third(c: int, d: int): (z: Byte)
    requires 0 <= c <= 64 && 0 <= d <= 64
  {
    ((c % 4 * 64 + d) % 256) as char
  }

  /** The letters of the first `k` groups of three. */
  function EncodeFull(s: Bytes, k: nat): (r: Bytes)
    requires 3 * k <= |s|
    ensures |r| == 4 * k
  {
    if k == 0 then [] else EncodeFull(s, k - 1) + Group(s[3 * k - 3], s[3 * k - 2], s[3 * k - 1])
  }

  /** One or two bytes behind the full groups give two or three letters and padding. */
  function EncodeTail(s: Bytes, k: nat): (r: Bytes)
    requires 3 * k <= |s| < 3 * k + 3
  {
    if |s| == 3 * k then []
    else if |s| == 3 * k + 1 then Group(s[3 * k], NUL, NUL)[..2] + [PAD, PAD]
    else Group(s[3 * k], s[3 * k + 1], NUL)[..3] + [PAD]
  }

  function Encoded(s: Bytes): (r: Bytes) {
    EncodeFull(s, |s| / 3) + EncodeTail(s, |s| / 3)
  }

  /** Index of the first byte outside the alphabet, from `i` on. */
  function GoodPrefix(s: Bytes, i: nat): (n: nat)
    requires i <= |s|
    ensures i <= n <= |s|
    decreases |s| - i
  {
    if i < |s| && IsBase64(s[i]) then GoodPrefix(s, i + 1) else i
  }

  lemma {:induction false} GoodPrefixIs(s: Bytes, i: nat, n: nat)
    requires i <= n && Letters(s, n) && (n < |s| ==> !IsBase64(s[n]))
    ensures GoodPrefix(s, i) == n
    decreases n - i
  {
    if i < n {
      GoodPrefixIs(s, i + 1, n);
    }
  }

  lemma {:induction false} GoodPrefixLetters(s: Bytes, i: nat)
    requires Letters(s, i)
    ensures Letters(s, GoodPrefix(s, i))
    ensures GoodPrefix(s, i) < |s| ==> !IsBase64(s[GoodPrefix(s, i)])
    decreases |s| - i
  {
    if i < |s| && IsBase64(s[i]) {
      GoodPrefixLetters(s, i + 1);
    }
  }

  /** The three bytes of the quad at `i`. */
  function Ungroup(s: Bytes, i: nat): (t: Bytes)
    requires Letters(s, i + 4)
    ensures |t| == 3
  {
    var a, b, c, d := Value(s[i]), Value(s[i + 1]), Value(s[i + 2]), Value(s[i + 3]);
    [First(a, b), Second(b, c), Third(c, d)]
  }

  /** The bytes of the first `k` quads. */
  function DecodeFull(s: Bytes, k: nat): (r: Bytes)
    requires Letters(s, 4 * k)
    ensures |r| == 3 * k
  {
    if k == 0 then [] else DecodeFull(s, k - 1) + Ungroup(s, 4 * k - 4)
  }

  /** Two or three letters behind the full quads give one or two bytes; a single letter gives nothing. */
  function DecodeTail(s: Bytes, k: nat, n: nat): (r: Bytes)
    requires Letters(s, n) && 4 * k <= n < 4 * k + 4
    ensures |r| == if n == 4 * k then 0 else n - 4 * k - 1
  {
    var i := 4 * k;
    if n < i + 2 then []
    else if n == i + 2 then [First(Value(s[i]), Value(s[i + 1]))]
    else [First(Value(s[i]), Value(s[i + 1])), Second(Value(s[i + 1]), Value(s[i + 2]))]
  }

  /** Decodes the letters before the first foreign byte. */
  function Decoded(s: Bytes): (r: Bytes)
    ensures |r| <= |s|
  {
    var n := GoodPrefix(s, 0);
    GoodPrefixLetters(s, 0);
    DecodeFull(s, n / 4) + DecodeTail(s, n / 4, n)
  }

  function PadCount(s: Bytes): (p: nat) {
    if |s| < 4 || s[|s| - 1] != PAD then 0 else if s[|s| - 2] != PAD then 1 else 2
  }

  /** A canonical text: whole quads of letters, at most the last padded, with zero bits under the padding. */
  predicate Canonical(s: Bytes) {
    var p := PadCount(s);
    && |s| % 4 == 0
    && Letters(s, |s| - p)
    && (p == 1 ==> Value(s[|s| - 2]) % 4 == 0)
    && (p == 2 ==> Value(s[|s| - 3]) % 16 == 0)
  }

  /** Cutting bytes into sextets and joining them again. */
  lemma {:induction false} JoinFirst(a: int, r: int, b: int)
    requires 0 <= a < 64 && 0 <= r < 4 && 0 <= b < 16
    ensures First(a, r * 16 + b) == (a * 4 + r) as char
  {
    assert (r * 16 + b) / 16 == r;
  }

  lemma {:induction false} JoinSecond(r: int, b: int, s: int, c: int)
    requires 0 <= r < 4 && 0 <= b < 16 && 0 <= s < 16 && 0 <= c < 4
    ensures Second(r * 16 + b, s * 4 + c) == (b * 16 + s) as char
  {
    QuotientAndRest(r, b, 16);
    QuotientAndRest(s, c, 4);
  }

  lemma {:induction false} JoinThird(s: int, c: int, t: int)
    requires 0 <= s < 16 && 0 <= c < 4 && 0 <= t < 64
    ensures Third(s * 4 + c, t) == (c * 64 + t) as char
  {
    assert (s * 4 + c) % 4 == c;
  }

  /** The letters of a group give its bytes back. */
  lemma {:induction false} GroupValues(x: Byte, y: Byte, z: Byte, g: Bytes)
    requires g == Group(x, y, z)
    ensures First(Value(g[0]), Value(g[1])) == x && Second(Value(g[1]), Value(g[2])) == y
    ensures Third(Value(g[2]), Value(g[3])) == z
  {
    var a, b, c := x as int, y as int, z as int;
    JoinFirst(a / 4, a % 4, b / 16);
    JoinSecond(a % 4, b / 16, b % 16, c / 64);
    JoinThird(b % 16, c / 64, c % 64);
  }

  lemma {:induction false} EncodeFullLetters(s: Bytes, k: nat)
    requires 3 * k <= |s|
    ensures Letters(EncodeFull(s, k), 4 * k)
  {
    if k > 0 {
      EncodeFullLetters(s, k - 1);
      AppendLetters(EncodeFull(s, k - 1), Group(s[3 * k - 3], s[3 * k - 2], s[3 * k - 1]), 4 * k - 4);
    }
  }

  lemma {:induction false} AppendLetters(e: Bytes, g: Bytes, n: nat)
    requires |e| == n && Letters(e, n) && |g| == 4 && Letters(g, 4)
    ensures Letters(e + g, n + 4)
  {
  }

  /** Only the first `4 * k` letters matter to the first `k` quads. */
  lemma {:induction false} DecodeFullPrefix(s: Bytes, t: Bytes, k: nat)
    requires Letters(s, 4 * k) && 4 * k <= |t| && forall i :: 0 <= i < 4 * k ==> s[i] == t[i]
    ensures Letters(t, 4 * k) && DecodeFull(s, k) == DecodeFull(t, k)
  {
    if k > 0 {
      DecodeFullPrefix(s, t, k - 1);
    }
  }

  lemma {:induction false} EncodeFullPrefix(s: Bytes, t: Bytes, k: nat)
    requires 3 * k <= |s| && 3 * k <= |t| && forall i :: 0 <= i < 3 * k ==> s[i] == t[i]
    ensures EncodeFull(s, k) == EncodeFull(t, k)
  {
    if k > 0 {
      EncodeFullPrefix(s, t, k - 1);
    }
  }

  lemma {:induction false} DecodeFullOfEncodeFull(s: Bytes, n: nat, e: Bytes)
    requires 3 * n <= |s| && e == EncodeFull(s, n)
    ensures Letters(e, 4 * n) && DecodeFull(e, n) == s[..3 * n]
  {
    if n > 0 {
      var k := n - 1;
      var e0 := EncodeFull(s, k);
      DecodeFullOfEncodeFull(s, k, e0);
      DecodeNextGroup(s, k, e0, e);
      assert 4 * k + 4 == 4 * n && 3 * k + 3 == 3 * n;
    } else {
      assert s[..0] == [];
    }
  }

  lemma {:induction false} DecodeNextGroup(s: Bytes, k: nat, e0: Bytes, e: Bytes)
    requires 3 * k + 3 <= |s| && e0 == EncodeFull(s, k) && Letters(e0, 4 * k) && DecodeFull(e0, k) == s[..3 * k]
    requires e == EncodeFull(s, k + 1)
    ensures Letters(e, 4 * k + 4) && DecodeFull(e, k + 1) == s[..3 * k + 3]
  {
    var x, y, z := s[3 * k], s[3 * k + 1], s[3 * k + 2];
    var g := Group(x, y, z);
    GroupValues(x, y, z, g);
    DecodeFullAppend(e0, g, k);
    LastThree(s, 3 * k);
  }

  lemma {:induction false} DecodeFullAppend(e: Bytes, g: Bytes, k: nat)
    requires |e| == 4 * k && Letters(e, 4 * k) && |g| == 4 && Letters(g, 4)
    ensures Letters(e + g, 4 * k + 4)
    ensures DecodeFull(e + g, k + 1) == DecodeFull(e, k)
              + [First(Value(g[0]), Value(g[1])), Second(Value(g[1]), Value(g[2])), Third(Value(g[2]), Value(g[3]))]
  {
    AppendLetters(e, g, 4 * k);
    DecodeFullPrefix(e, e + g, k);
  }

  lemma {:induction false} LastThree(s: Bytes, n: nat)
    requires n + 3 <= |s|
    ensures s[..n] + [s[n], s[n + 1], s[n + 2]] == s[..n + 3]
  {
  }

  /** The remainder's letters decode to the remainder, whatever the padding would look up as. */
  lemma {:induction false} DecodeTailOfEncodeTail(s: Bytes, k: nat, e: Bytes, r: Bytes)
    requires 3 * k < |s| < 3 * k + 3 && |e| == 4 * k && Letters(e, 4 * k) && r == e + EncodeTail(s, k)
    ensures |r| == 4 * k + 4 && Letters(r, |s| + k + 1)
    ensures r[|s| + k + 1] == r[4 * k + 3] == PAD
    ensures DecodeTail(r, k, |s| + k + 1) == s[3 * k..]
    ensures Value(r[|s| + k]) % (if |s| == 3 * k + 1 then 16 else 4) == 0
  {
    var y := if |s| == 3 * k + 1 then NUL else s[3 * k + 1];
    var g := Group(s[3 * k], y, NUL);
    GroupValues(s[3 * k], y, NUL, g);
    LowBitsZero(s[3 * k], y, g);
    PaddedLetters(e, g, 4 * k, |s| - 3 * k + 1, r);
  }

  lemma {:induction false} LowBitsZero(x: Byte, y: Byte, g: Bytes)
    requires g == Group(x, y, NUL)
    ensures Value(g[2]) % 4 == 0 && (y == NUL ==> Value(g[1]) % 16 == 0)
  {
    QuotientAndRest(y as int % 16, 0, 4);
    QuotientAndRest(x as int % 4, 0, 16);
  }

  lemma {:induction false} PaddedLetters(e: Bytes, g: Bytes, n: nat, m: nat, r: Bytes)
    requires |e| == n && Letters(e, n) && |g| == 4 && Letters(g, 4) && 2 <= m <= 3
    requires r == e + (g[..m] + if m == 2 then [PAD, PAD] else [PAD])
    ensures |r| == n + 4 && Letters(r, n + m) && r[n + m] == r[n + 3] == PAD
    ensures r[n] == g[0] && r[n + 1] == g[1] && (m == 3 ==> r[n + 2] == g[2])
  {
  }

  /** Decoding undoes encoding, for every byte string. */
  lemma {:induction false} DecodeOfEncode(s: Bytes)
    ensures Decoded(Encoded(s)) == s
  {
    var k := |s| / 3;
    var e, r := EncodeFull(s, k), Encoded(s);
    DecodeFullOfEncodeFull(s, k, e);
    var n := if |s| == 3 * k then 4 * k else |s| + k + 1;
    if n != 4 * k {
      DecodeTailOfEncodeTail(s, k, e, r);
    }
    DecodedFrom(s, k, e, r, n);
  }

  lemma {:induction false} DecodedFrom(s: Bytes, k: nat, e: Bytes, r: Bytes, n: nat)
    requires Letters(r, n) && (n < |r| ==> !IsBase64(r[n])) && 4 * k <= n < 4 * k + 4 && |e| == 4 * k && e <= r
    requires Letters(e, 4 * k) && 3 * k <= |s| && DecodeFull(e, k) == s[..3 * k] && DecodeTail(r, k, n) == s[3 * k..]
    ensures Decoded(r) == s
  {
    GoodPrefixIs(r, 0, n);
    DecodeFullPrefix(e, r, k);
    assert n / 4 == k;
    CutAndJoin(s, 3 * k);
  }

  /** Joining four sextets and cutting the bytes again. */
  lemma {:induction false} SplitOfBits(a: int, r: int, b: int, s: int, c: int, d: int)
    requires 0 <= a < 64 && 0 <= r < 4 && 0 <= b < 16 && 0 <= s < 16 && 0 <= c < 4 && 0 <= d < 64
    ensures Group((a * 4 + r) as char, (b * 16 + s) as char, (c * 64 + d) as char)
         == [Letter(a), Letter(r * 16 + b), Letter(s * 4 + c), Letter(d)]
  {
    QuotientAndRest(a, r, 4);
    QuotientAndRest(b, s, 16);
    QuotientAndRest(c, d, 64);
  }

  lemma {:induction false} QuotientAndRest(q: int, r: int, m: int)
    requires 0 <= q && 0 <= r < m && (m == 4 || m == 16 || m == 64)
    ensures (q * m + r) / m == q && (q * m + r) % m == r
  {
  }

  /** The bytes of a quad give its letters back. */
  lemma {:induction false} UngroupLetters(q: Bytes)
    requires |q| == 4 && Letters(q, 4)
    ensures var t := Ungroup(q, 0); Group(t[0], t[1], t[2]) == q
  {
    var a, b, c, d := Value(q[0]), Value(q[1]), Value(q[2]), Value(q[3]);
    QuadBytes(a, b, c, d);
    SplitOfBits(a, b / 16, b % 16, c / 4, c % 4, d);
    LetterOfValue(q[0]);
    LetterOfValue(q[1]);
    LetterOfValue(q[2]);
    LetterOfValue(q[3]);
  }

  lemma {:induction false} QuadBytes(a: int, b: int, c: int, d: int)
    requires 0 <= a < 64 && 0 <= b < 64 && 0 <= c < 64 && 0 <= d < 64
    ensures First(a, b) == (a * 4 + b / 16) as char && Second(b, c) == (b % 16 * 16 + c / 4) as char
    ensures Third(c, d) == (c % 4 * 64 + d) as char
  {
    JoinFirst(a, b / 16, b % 16);
    JoinSecond(b / 16, b % 16, c / 4, c % 4);
    JoinThird(c / 4, c % 4, d);
  }

  lemma {:induction false} EncodeFullOfDecodeFull(s: Bytes, n: nat, d: Bytes)
    requires Letters(s, 4 * n) && d == DecodeFull(s, n)
    ensures EncodeFull(d, n) == s[..4 * n]
  {
    if n > 0 {
      var k := n - 1;
      var d0 := DecodeFull(s, k);
      EncodeFullOfDecodeFull(s, k, d0);
      EncodeNextQuad(s, k, d0, d);
    } else {
      assert s[..0] == [];
    }
  }

  lemma {:induction false} EncodeNextQuad(s: Bytes, k: nat, d0: Bytes, d: Bytes)
    requires Letters(s, 4 * k + 4) && d0 == DecodeFull(s, k) && EncodeFull(d0, k) == s[..4 * k]
    requires d == DecodeFull(s, k + 1)
    ensures EncodeFull(d, k + 1) == s[..4 * k + 4]
  {
    var t := Ungroup(s, 4 * k);
    DecodeFullStep(s, k, d0, d, t);
    QuadSurvives(s, 4 * k, t);
    EncodedWith(d0, t, k, s[..4 * k], s[4 * k..4 * k + 4]);
    LastFour(s, 4 * k);
  }

  lemma {:induction false} DecodeFullStep(s: Bytes, k: nat, d0: Bytes, d: Bytes, t: Bytes)
    requires Letters(s, 4 * k + 4) && d0 == DecodeFull(s, k) && d == DecodeFull(s, k + 1) && t == Ungroup(s, 4 * k)
    ensures d == d0 + t && |d0| == 3 * k && |t| == 3
  {
  }

  lemma {:induction false} EncodedWith(d0: Bytes, t: Bytes, k: nat, a: Bytes, g: Bytes)
    requires |d0| == 3 * k && |t| == 3 && EncodeFull(d0, k) == a && Group(t[0], t[1], t[2]) == g
    ensures EncodeFull(d0 + t, k + 1) == a + g
  {
    EncodeFullAppend(d0, t, k);
  }

  lemma {:induction false} QuadSurvives(s: Bytes, i: nat, t: Bytes)
    requires Letters(s, i + 4) && t == Ungroup(s, i)
    ensures Group(t[0], t[1], t[2]) == s[i..i + 4]
  {
    UngroupLetters(s[i..i + 4]);
  }

  lemma {:induction false} EncodeFullAppend(d0: Bytes, t: Bytes, k: nat)
    requires |d0| == 3 * k && |t| == 3
    ensures EncodeFull(d0 + t, k + 1) == EncodeFull(d0, k) + Group(t[0], t[1], t[2])
  {
    EncodeFullPrefix(d0, d0 + t, k);
  }

  lemma {:induction false} LastFour(s: Bytes, n: nat)
    requires n + 4 <= |s|
    ensures s[..n] + s[n..n + 4] == s[..n + 4]
  {
  }

  lemma {:induction false} CutAndJoin(s: Bytes, n: nat)
    requires n <= |s|
    ensures s[..n] + s[n..] == s
  {
  }

  lemma {:induction false} TailOfTwo(s: Bytes, i: nat, x: Byte)
    requires Letters(s, i + 2) && |s| == i + 4 && s[i + 2] == s[i + 3] == PAD && Value(s[i + 1]) % 16 == 0
    requires x == First(Value(s[i]), Value(s[i + 1]))
    ensures Group(x, NUL, NUL)[..2] + [PAD, PAD] == s[i..]
  {
    var a, b := Value(s[i]), Value(s[i + 1]);
    QuadBytes(a, b, 0, 0);
    SplitOfBits(a, b / 16, 0, 0, 0, 0);
    LetterOfValue(s[i]);
    LetterOfValue(s[i + 1]);
  }

  lemma {:induction false} TailOfThree(s: Bytes, i: nat, x: Byte, y: Byte)
    requires Letters(s, i + 3) && |s| == i + 4 && s[i + 3] == PAD && Value(s[i + 2]) % 4 == 0
    requires x == First(Value(s[i]), Value(s[i + 1])) && y == Second(Value(s[i + 1]), Value(s[i + 2]))
    ensures Group(x, y, NUL)[..3] + [PAD] == s[i..]
  {
    var a, b, c := Value(s[i]), Value(s[i + 1]), Value(s[i + 2]);
    QuadBytes(a, b, c, 0);
    SplitOfBits(a, b / 16, b % 16, c / 4, 0, 0);
    LetterOfValue(s[i]);
    LetterOfValue(s[i + 1]);
    LetterOfValue(s[i + 2]);
  }

  /** A padded remainder survives when the bits under the padding are zero. */
  lemma {:induction false} EncodeTailOfDecodeTail(s: Bytes, k: nat, f: Bytes, d: Bytes)
    requires Canonical(s) && PadCount(s) > 0 && |s| == 4 * k + 4 && |f| == 3 * k
    requires d == f + DecodeTail(s, k, |s| - PadCount(s))
    ensures EncodeTail(d, k) == s[4 * k..]
  {
    if PadCount(s) == 2 {
      TailOfTwo(s, 4 * k, d[3 * k]);
    } else {
      TailOfThree(s, 4 * k, d[3 * k], d[3 * k + 1]);
    }
  }

  lemma {:induction false} EncodedFrom(s: Bytes, k: nat, f: Bytes, d: Bytes)
    requires |f| == 3 * k && f <= d && |d| < 3 * k + 3 && 4 * k <= |s|
    requires EncodeFull(f, k) == s[..4 * k] && EncodeTail(d, k) == s[4 * k..]
    ensures Encoded(d) == s
  {
    EncodeFullPrefix(f, d, k);
    assert |d| / 3 == k;
    CutAndJoin(s, 4 * k);
  }

  lemma {:induction false} EncodeOfCanonical(s: Bytes)
    requires Canonical(s)
    ensures Encoded(Decoded(s)) == s
  {
    var n := |s| - PadCount(s);
    GoodPrefixIs(s, 0, n);
    var k := n / 4;
    var f, d := DecodeFull(s, k), Decoded(s);
    EncodeFullOfDecodeFull(s, k, f);
    if PadCount(s) > 0 {
      EncodeTailOfDecodeTail(s, k, f, d);
    }
    EncodedFrom(s, k, f, d);
  }

  lemma {:induction false} CanonicalFull(e: Bytes, k: nat)
    requires |e| == 4 * k && Letters(e, 4 * k)
    ensures Canonical(e)
  {
  }

  lemma {:induction false} EncodeIsCanonical(s: Bytes)
    ensures Canonical(Encoded(s))
  {
    var k := |s| / 3;
    var e := EncodeFull(s, k);
    EncodeFullLetters(s, k);
    if |s| > 3 * k {
      DecodeTailOfEncodeTail(s, k, e, Encoded(s));
      CanonicalPadded(Encoded(s), k, |s| + k + 1);
    } else {
      CanonicalFull(e, k);
      assert Encoded(s) == e;
    }
  }

  lemma {:induction false} CanonicalPadded(r: Bytes, k: nat, n: nat)
    requires 4 * k + 2 <= n <= 4 * k + 3 && |r| == 4 * k + 4 && Letters(r, n) && r[n] == r[4 * k + 3] == PAD
    requires Value(r[n - 1]) % (if n == 4 * k + 2 then 16 else 4) == 0
    ensures Canonical(r)
  {
  }

  /** The texts that survive decoding and encoding are exactly the canonical ones. */
  lemma {:induction false} EncodeOfDecode(s: Bytes)
    ensures Encoded(Decoded(s)) == s <==> Canonical(s)
  {
    EncodeIsCanonical(Decoded(s));
    if Canonical(s) {
      EncodeOfCanonical(s);
    }
  }

  predicate IsLetter(c: Byte) {
    'A' <= c <= 'Z' || 'a' <= c <= 'z' || '0' <= c <= '9' || c == '+' || c == '/'
  }

  /** Decoding stops at the first byte that is no letter, padding included, and what follows has no effect. */
  lemma {:induction false} StopsAtForeign(a: Bytes, c: Byte, b: Bytes)
    requires (forall i :: 0 <= i < |a| ==> IsLetter(a[i])) && !IsLetter(c)
    ensures Decoded(a + [c] + b) == Decoded(a)
    ensures |Decoded(a)| == |a| / 4 * 3 + if |a| % 4 < 2 then 0 else |a| % 4 - 1
  {
    var s := a + [c] + b;
    assert forall i :: 0 <= i < |a| ==> s[i] == a[i];
    assert s[|a|] == c;
    GoodPrefixIs(s, 0, |a|);
    GoodPrefixIs(a, 0, |a|);
    DecodeFullPrefix(s, a, |a| / 4);
    TailOfPrefix(s, a, |a| / 4);
  }

  lemma {:induction false} TailOfPrefix(s: Bytes, t: Bytes, k: nat)
    requires k == |t| / 4 && Letters(s, |t|) && Letters(t, |t|) && forall i :: 0 <= i < |t| ==> s[i] == t[i]
    ensures DecodeTail(s, k, |t|) == DecodeTail(t, k, |t|)
  {
  }

  /** The codec object. Its scratch buffer is only ever grown, and never below the allocator's minimum. */
  class Base64 {
    const scratch: Buffer

    ghost predicate Valid()
      reads this, scratch
    {
      scratch.Valid() && scratch.minAlloc == 32 && (scratch.buf != null ==> scratch.size >= 32)
    }

    ghost function Repr(): (r: set<object>)
      reads this, scratch
    {
      {this} + scratch.Repr()
    }

    constructor ()
      ensures Valid() && fresh(Repr())
    {
      scratch := new Buffer();
    }

    /** Room in the scratch buffer for a request of `n` bytes. */
    method Prepare(n: nat)
      requires Valid()
      modifies scratch.Repr()
      ensures Valid() && fresh(Repr() - old(Repr())) && scratch.buf != null
      ensures scratch.size >= 32 && scratch.size > n
    {
      scratch.Reset();
      scratch.SetBufferSize(n);
    }

    method Encode(p: Buffer)
      requires Valid() && p.Valid() && p.Repr() !! Repr()
      modifies Repr(), p.Repr()
      ensures Valid() && p.Valid() && fresh(Repr() - old(Repr())) && fresh(p.Repr() - old(p.Repr()))
      ensures p.Contents() == Encoded(old(p.Contents()))
      ensures |p.Contents()| <= scratch.size
    {
      var bytes := if p.buf == null then [] else p.buf[..p.tail];
      Prepare(|bytes| * 2);
      var cp := EncodeInto(bytes, scratch.buf, scratch.size);
      p.ReplaceWith(scratch.buf[..cp]);
    }

    method Decode(p: Buffer)
      requires Valid() && p.Valid() && p.Repr() !! Repr()
      modifies Repr(), p.Repr()
      ensures Valid() && p.Valid() && fresh(Repr() - old(Repr())) && fresh(p.Repr() - old(p.Repr()))
      ensures p.Contents() == Decoded(old(p.Contents()))
      ensures |p.Contents()| <= scratch.size
    {
      var bytes := if p.buf == null then [] else p.buf[..p.tail];
      Prepare(|bytes|);
      var cp := DecodeInto(bytes, scratch.buf, scratch.size);
      p.ReplaceWith(scratch.buf[..cp]);
    }
  }

  /** Writes `data` at `at`, below the capacity. */
  method Put(out: array<Byte>, at: nat, data: Bytes, ghost capacity: nat) returns (cp: nat)
    requires at + |data| <= capacity <= out.Length
    modifies out
    ensures cp == at + |data| && out[..cp] == old(out[..at]) + data
    ensures forall h :: cp <= h < out.Length ==> out[h] == old(out[h])
  {
    Blit(out, at, data);
    cp := at + |data|;
  }

  /** `group` holds the first `i` bytes from `at` on. */
  predicate Held(group: Bytes, bytes: Bytes, at: nat, i: nat) {
    i <= |group| && at + i <= |bytes| && forall h :: 0 <= h < i ==> group[h] == bytes[at + h]
  }

  lemma {:induction false} HeldNext(group: Bytes, bytes: Bytes, at: nat, i: nat, next: Bytes)
    requires Held(group, bytes, at, i) && i < |group| && at + i < |bytes| && next == group[i := bytes[at + i]]
    ensures Held(next, bytes, at, i + 1)
  {
  }

  lemma {:induction false} LettersNext(s: Bytes, n: nat)
    requires Letters(s, n) && n < |s| && IsBase64(s[n])
    ensures Letters(s, n + 1)
  {
  }

  lemma {:induction false} EncodeFullStep(bytes: Bytes, k: nat, three: Bytes, g: Bytes)
    requires |three| == 3 && Held(three, bytes, 3 * k, 3) && g == Group(three[0], three[1], three[2])
    ensures EncodeFull(bytes, k + 1) == EncodeFull(bytes, k) + g && |g| == 4
  {
    assert three[0] == bytes[3 * k + 0] && three[1] == bytes[3 * k + 1] && three[2] == bytes[3 * k + 2];
  }

  /** The encoding loop; `capacity` is what Prepare leaves for twice the input. No write passes it, and nothing behind
      the encoding changes. */
  method EncodeInto(bytes: Bytes, out: array<Byte>, ghost capacity: nat) returns (cp: nat)
    requires 32 <= capacity <= out.Length && 2 * |bytes| < capacity
    modifies out
    ensures cp <= capacity && out[..cp] == Encoded(bytes)
    ensures forall h :: cp <= h < out.Length ==> out[h] == old(out[h])
  {
    cp := 0;
    var i, pos := 0, 0;
    ghost var k := 0;
    var three: Bytes := [NUL, NUL, NUL];
    while pos < |bytes|
      invariant cp <= out.Length && Encoding(bytes, k, i, pos, three, cp, out[..cp])
      invariant forall h :: cp <= h < out.Length ==> out[h] == old(out[h])
    {
      three, i, cp, k := EncodeByte(bytes, pos, three, i, out, cp, k, capacity);
      pos := pos + 1;
    }
    Room(k, i, |bytes|, capacity);
    cp := PutTail(out, cp, three, i, bytes, k, capacity);
  }

  /** After `pos` bytes: `k` full groups are written and `i` bytes wait. */
  predicate Encoding(bytes: Bytes, k: nat, i: int, pos: int, three: Bytes, cp: nat, done: Bytes) {
    && 0 <= i < 3 && |three| == 3 && pos == 3 * k + i <= |bytes| && cp == 4 * k
    && Held(three, bytes, 3 * k, i) && done == EncodeFull(bytes, k)
  }

  lemma {:induction false} Room(k: nat, i: nat, n: nat, capacity: nat)
    requires i < 3 && 3 * k + i <= n && 32 <= capacity && 2 * n < capacity
    ensures 4 * k <= capacity && (3 * k + i < n || i > 0 ==> 4 * k + 4 <= capacity)
  {
  }

  method EncodeByte(bytes: Bytes, pos: nat, three: Bytes, i: nat, out: array<Byte>, at: nat, ghost k: nat,
                    ghost capacity: nat)
    returns (group: Bytes, n: nat, cp: nat, ghost l: nat)
    requires 32 <= capacity <= out.Length && 2 * |bytes| < capacity && pos < |bytes| && at <= out.Length
    requires Encoding(bytes, k, i, pos, three, at, out[..at])
    modifies out
    ensures at <= cp <= out.Length && Encoding(bytes, l, n, pos + 1, group, cp, out[..cp])
    ensures forall h :: cp <= h < out.Length ==> out[h] == old(out[h])
  {
    Room(k, i, |bytes|, capacity);
    group := three[i := bytes[pos]];
    HeldNext(three, bytes, 3 * k, i, group);
    n, cp, l := i + 1, at, k;
    if n == 3 {
      cp := PutGroup(out, cp, group, bytes, k, capacity);
      n, l := 0, k + 1;
    }
  }

  method PutTail(out: array<Byte>, at: nat, three: Bytes, i: nat, ghost bytes: Bytes, ghost k: nat,
                 ghost capacity: nat)
    returns (cp: nat)
    requires |three| == 3 && i < 3 && |bytes| == 3 * k + i && at <= capacity <= out.Length
    requires i != 0 ==> at + 4 <= capacity
    requires Held(three, bytes, 3 * k, i)
    requires out[..at] == EncodeFull(bytes, k)
    modifies out
    ensures at <= cp <= capacity && out[..cp] == Encoded(bytes)
    ensures forall h :: cp <= h < out.Length ==> out[h] == old(out[h])
  {
    cp := at;
    if i != 0 {
      var quad := TailLetters(three, i, bytes, k);
      cp := Put(out, at, quad, capacity);
    }
    assert k == |bytes| / 3;
  }

  method PutGroup(out: array<Byte>, at: nat, three: Bytes, ghost bytes: Bytes, ghost k: nat, ghost capacity: nat)
    returns (cp: nat)
    requires |three| == 3 && Held(three, bytes, 3 * k, 3) && at + 4 <= capacity <= out.Length
    requires out[..at] == EncodeFull(bytes, k)
    modifies out
    ensures cp == at + 4 && out[..cp] == EncodeFull(bytes, k + 1)
    ensures forall h :: cp <= h < out.Length ==> out[h] == old(out[h])
  {
    var g := Group(three[0], three[1], three[2]);
    EncodeFullStep(bytes, k, three, g);
    cp := Put(out, at, g, capacity);
  }

  /** Zero-fills the group, takes one letter more than there are bytes, and pads. */
  method TailLetters(three: Bytes, i: nat, ghost bytes: Bytes, ghost k: nat) returns (quad: Bytes)
    requires |three| == 3 && 0 < i < 3 && |bytes| == 3 * k + i && Held(three, bytes, 3 * k, i)
    ensures |quad| == 4 && quad == EncodeTail(bytes, k)
  {
    var full := three;
    var j := i;
    while j < 3
      invariant i <= j <= 3 && |full| == 3 && (forall h :: 0 <= h < i ==> full[h] == three[h])
      invariant forall h :: i <= h < j ==> full[h] == NUL
    {
      full := full[j := NUL];
      j := j + 1;
    }
    var group := Group(full[0], full[1], full[2]);
    quad := group[..i + 1];
    j := i;
    while j < 3
      invariant i <= j <= 3 && |quad| == j + 1 && (forall h :: 0 <= h < i + 1 ==> quad[h] == group[h])
      invariant forall h :: i < h <= j ==> quad[h] == PAD
    {
      quad := quad + [PAD];
      j := j + 1;
    }
  }

  /** The decoding loop: stops at the padding or at the first foreign byte. */
  method DecodeInto(bytes: Bytes, out: array<Byte>, ghost capacity: nat) returns (cp: nat)
    requires |bytes| < capacity <= out.Length
    modifies out
    ensures cp <= capacity && out[..cp] == Decoded(bytes)
    ensures forall h :: cp <= h < out.Length ==> out[h] == old(out[h])
  {
    cp := 0;
    var i, pos := 0, 0;
    ghost var k := 0;
    var four: Bytes := [NUL, NUL, NUL, NUL];
    while pos < |bytes| && bytes[pos] != PAD && IsBase64(bytes[pos])
      invariant cp <= out.Length && Decoding(bytes, k, i, pos, four, cp, out[..cp])
      invariant forall h :: cp <= h < out.Length ==> out[h] == old(out[h])
    {
      four, i, cp, k := DecodeLetter(bytes, pos, four, i, out, cp, k, capacity);
      pos := pos + 1;
    }
    GoodPrefixIs(bytes, 0, pos);
    cp := PutLast(out, cp, four, i, bytes, k, capacity);
  }

  /** After `pos` letters: `k` full quads are written and `i` letters wait. */
  predicate Decoding(bytes: Bytes, k: nat, i: int, pos: int, four: Bytes, cp: nat, done: Bytes) {
    && 0 <= i < 4 && |four| == 4 && pos == 4 * k + i <= |bytes| && cp == 3 * k
    && Letters(bytes, pos) && Held(four, bytes, 4 * k, i) && Letters(bytes, 4 * k) && done == DecodeFull(bytes, k)
  }

  method DecodeLetter(bytes: Bytes, pos: nat, four: Bytes, i: nat, out: array<Byte>, at: nat, ghost k: nat,
                      ghost capacity: nat)
    returns (quad: Bytes, n: nat, cp: nat, ghost l: nat)
    requires |bytes| < capacity <= out.Length && pos < |bytes| && IsBase64(bytes[pos]) && at <= out.Length
    requires Decoding(bytes, k, i, pos, four, at, out[..at])
    modifies out
    ensures at <= cp <= out.Length && Decoding(bytes, l, n, pos + 1, quad, cp, out[..cp])
    ensures forall h :: cp <= h < out.Length ==> out[h] == old(out[h])
  {
    quad := four[i := bytes[pos]];
    n, cp, l := i + 1, at, k;
    HeldNext(four, bytes, 4 * k, i, quad);
    LettersNext(bytes, pos);
    if n == 4 {
      cp := PutBytes(out, cp, quad, bytes, k, capacity);
      n, l := 0, k + 1;
    }
  }

  method PutLast(out: array<Byte>, at: nat, four: Bytes, i: nat, ghost bytes: Bytes, ghost k: nat, ghost capacity: nat)
    returns (cp: nat)
    requires |four| == 4 && i < 4 && at + i <= capacity <= out.Length
    requires Letters(bytes, 4 * k + i) && GoodPrefix(bytes, 0) == 4 * k + i && Held(four, bytes, 4 * k, i)
    requires out[..at] == DecodeFull(bytes, k)
    modifies out
    ensures at <= cp <= capacity && out[..cp] == Decoded(bytes)
    ensures forall h :: cp <= h < out.Length ==> out[h] == old(out[h])
  {
    cp := at;
    if i != 0 {
      var last := TailBytes(four, i, bytes, k);
      cp := Put(out, cp, last, capacity);
    }
    assert k == (4 * k + i) / 4;
  }

  /** The three bytes of four letters. */
  method Join(four: Bytes, ghost bytes: Bytes, ghost at: nat) returns (three: Bytes)
    requires |four| == 4 && Letters(bytes, at + 4) && Held(four, bytes, at, 4)
    ensures three == Ungroup(bytes, at)
  {
    var a := Find(four[0]);
    var b := Find(four[1]);
    var c := Find(four[2]);
    var d := Find(four[3]);
    three := [First(a, b), Second(b, c), Third(c, d)];
  }

  method PutBytes(out: array<Byte>, at: nat, four: Bytes, ghost bytes: Bytes, ghost k: nat, ghost capacity: nat)
    returns (cp: nat)
    requires |four| == 4 && at + 3 <= capacity <= out.Length && Letters(bytes, 4 * k + 4)
    requires Held(four, bytes, 4 * k, 4) && out[..at] == DecodeFull(bytes, k)
    modifies out
    ensures cp == at + 3 && out[..cp] == DecodeFull(bytes, k + 1)
    ensures forall h :: cp <= h < out.Length ==> out[h] == old(out[h])
  {
    var three := Join(four, bytes, 4 * k);
    cp := Put(out, at, three, capacity);
  }

  /** Missing letters are NUL, which looks up as 64; one byte fewer than there are letters is kept, so 64 never
      shows. */
  method TailBytes(four: Bytes, i: nat, ghost bytes: Bytes, ghost k: nat) returns (last: Bytes)
    requires |four| == 4 && 0 < i < 4 && Letters(bytes, 4 * k + i) && Held(four, bytes, 4 * k, i)
    ensures last == DecodeTail(bytes, k, 4 * k + i)
  {
    var full := four;
    var j := i;
    while j < 4
      invariant i <= j <= 4 && |full| == 4 && (forall h :: 0 <= h < i ==> full[h] == four[h])
      invariant forall h :: i <= h < j ==> full[h] == NUL
    {
      full := full[j := NUL];
      j := j + 1;
    }
    var a := Find(full[0]);
    var b := Find(full[1]);
    var c := Find(full[2]);
    var d := Find(full[3]);
    last := [First(a, b), Second(b, c), Third(c, d)][..i - 1];
  }
}
