/** The table-driven checksum, against division by the reflected polynomial one message bit at a time. */
module Crc32 {

  /** A shift register for division over GF(2): its sum, its shift, its low bit, and adding the polynomial. */
  datatype Register<!T> = Register(sum: (T, T) -> T, half: T -> T, odd: T -> bool, reduce: (T, bool) -> T, zero: T) {

    /** A division step on the register alone. */
    function Shift(h: T): (r: T) {
      reduce(half(h), odd(h))
    }

    /** A division step in which the lowest bit of `c` meets the lowest bit of the register. */
    function Feed(h: T, c: T): (r: T) {
      reduce(half(h), odd(sum(h, c)))
    }

    function Halves(c: T, n: nat): (r: T) {
      if n == 0 then c else half(Halves(c, n - 1))
    }

    function Shifts(h: T, n: nat): (r: T) {
      if n == 0 then h else Shift(Shifts(h, n - 1))
    }

    /** The lowest `n` bits of `c`, lowest first. */
    function Feeds(h: T, c: T, n: nat): (r: T) {
      if n == 0 then h else Feed(Feeds(h, c, n - 1), Halves(c, n - 1))
    }
  }

  /** Shifting and adding the polynomial respect sums. */
  ghost predicate Lawful<T(!new)>(r: Register<T>) {
    && (forall x, y :: r.half(r.sum(x, y)) == r.sum(r.half(x), r.half(y)))
    && (forall x, y :: r.odd(r.sum(x, y)) == (r.odd(x) != r.odd(y)))
    && (forall x, y, o :: r.sum(r.reduce(x, o), y) == r.reduce(r.sum(x, y), o))
    && (forall x :: r.sum(x, r.zero) == x)
  }

  /** Feeding bits into a register is shifting the sum of the two. */
  lemma {:induction false} FeedsShift<T(!new)>(r: Register<T>, h: T, c: T, n: nat)
    requires Lawful(r)
    ensures r.sum(r.Feeds(h, c, n), r.Halves(c, n)) == r.Shifts(r.sum(h, c), n)
  {
    if n > 0 {
      FeedsShift(r, h, c, n - 1);
      var x, y := r.Feeds(h, c, n - 1), r.Halves(c, n - 1);
      assert r.sum(r.Feed(x, y), r.half(y)) == r.Shift(r.sum(x, y));
    }
  }

  /** Bits that have not yet reached the bottom only move down. */
  lemma {:induction false} ShiftsSplit<T(!new)>(r: Register<T>, low: T, high: T, n: nat)
    requires Lawful(r) && forall k :: 0 <= k < n ==> !r.odd(r.Halves(high, k))
    ensures r.Shifts(r.sum(low, high), n) == r.sum(r.Shifts(low, n), r.Halves(high, n))
  {
    if n > 0 {
      ShiftsSplit(r, low, high, n - 1);
      var x, y := r.Shifts(low, n - 1), r.Halves(high, n - 1);
      assert r.Shift(r.sum(x, y)) == r.sum(r.Shift(x), r.half(y));
    }
  }

  /** Once `c` is used up, its bits acted like the low part of the sum, and the high part only moved down. */
  lemma {:induction false} FeedsSplit<T(!new)>(r: Register<T>, h: T, c: T, low: T, high: T, n: nat)
    requires Lawful(r) && r.sum(h, c) == r.sum(low, high) && r.Halves(c, n) == r.zero
    requires forall k :: 0 <= k < n ==> !r.odd(r.Halves(high, k))
    ensures r.Feeds(h, c, n) == r.sum(r.Shifts(low, n), r.Halves(high, n))
  {
    FeedsShift(r, h, c, n);
    ShiftsSplit(r, low, high, n);
  }

  /** The reflected polynomial of section 8 of RFC 1952; an unsigned long has 64 bits. */
  const POLY: bv64 := 0xEDB88320

  const MASK32: bv64 := 0xFFFFFFFF

  const BITS: nat := 8

  function Xor(a: bv64, b: bv64): (r: bv64) {
    a ^ b
  }

  function Half(c: bv64): (r: bv64) {
    c >> 1
  }

  predicate Odd(h: bv64) {
    h & 1 == 1
  }

  function Reduce(h: bv64, odd: bool): (r: bv64) {
    if odd then h ^ POLY else h
  }

  const REG: Register<bv64> := Register(Xor, Half, Odd, Reduce, 0)

  function FeedByte(h: bv64, b: bv8): (r: bv64) {
    REG.Feeds(h, b as bv64, BITS)
  }

  function Flip(h: bv64): (r: bv64) {
    h ^ MASK32
  }

  function Fold<T>(f: (T, bv8) -> T, h: T, key: seq<bv8>): (r: T) {
    if key == [] then h else f(Fold(f, h, key[..|key| - 1]), key[|key| - 1])
  }

  /** A checksum by the byte step `f`, continuing from `last`, with the register flipped on entry and exit. */
  function Checksum<T>(f: (T, bv8) -> T, flip: T -> T, key: seq<bv8>, last: T): (r: T) {
    flip(Fold(f, flip(last), key))
  }

  /** The checksum by long division, one message bit at a time. */
  function Division(key: seq<bv8>, last: bv64): (r: bv64) {
    Checksum(FeedByte, Flip, key, last)
  }

  /** The 256-entry table of the source, sixteen entries a row. */
  function Table(i: bv8): (t: bv64) {
    match i >> 4
    case 0 => (match i & 15
      case 0 => 0x00000000 case 1 => 0x77073096 case 2 => 0xee0e612c case 3 => 0x990951ba
      case 4 => 0x076dc419 case 5 => 0x706af48f case 6 => 0xe963a535 case 7 => 0x9e6495a3
      case 8 => 0x0edb8832 case 9 => 0x79dcb8a4 case 10 => 0xe0d5e91e case 11 => 0x97d2d988
      case 12 => 0x09b64c2b case 13 => 0x7eb17cbd case 14 => 0xe7b82d07 case _ => 0x90bf1d91)
    case 1 => (match i & 15
      case 0 => 0x1db71064 case 1 => 0x6ab020f2 case 2 => 0xf3b97148 case 3 => 0x84be41de
      case 4 => 0x1adad47d case 5 => 0x6ddde4eb case 6 => 0xf4d4b551 case 7 => 0x83d385c7
      case 8 => 0x136c9856 case 9 => 0x646ba8c0 case 10 => 0xfd62f97a case 11 => 0x8a65c9ec
      case 12 => 0x14015c4f case 13 => 0x63066cd9 case 14 => 0xfa0f3d63 case _ => 0x8d080df5)
    case 2 => (match i & 15
      case 0 => 0x3b6e20c8 case 1 => 0x4c69105e case 2 => 0xd56041e4 case 3 => 0xa2677172
      case 4 => 0x3c03e4d1 case 5 => 0x4b04d447 case 6 => 0xd20d85fd case 7 => 0xa50ab56b
      case 8 => 0x35b5a8fa case 9 => 0x42b2986c case 10 => 0xdbbbc9d6 case 11 => 0xacbcf940
      case 12 => 0x32d86ce3 case 13 => 0x45df5c75 case 14 => 0xdcd60dcf case _ => 0xabd13d59)
    case 3 => (match i & 15
      case 0 => 0x26d930ac case 1 => 0x51de003a case 2 => 0xc8d75180 case 3 => 0xbfd06116
      case 4 => 0x21b4f4b5 case 5 => 0x56b3c423 case 6 => 0xcfba9599 case 7 => 0xb8bda50f
      case 8 => 0x2802b89e case 9 => 0x5f058808 case 10 => 0xc60cd9b2 case 11 => 0xb10be924
      case 12 => 0x2f6f7c87 case 13 => 0x58684c11 case 14 => 0xc1611dab case _ => 0xb6662d3d)
    case 4 => (match i & 15
      case 0 => 0x76dc4190 case 1 => 0x01db7106 case 2 => 0x98d220bc case 3 => 0xefd5102a
      case 4 => 0x71b18589 case 5 => 0x06b6b51f case 6 => 0x9fbfe4a5 case 7 => 0xe8b8d433
      case 8 => 0x7807c9a2 case 9 => 0x0f00f934 case 10 => 0x9609a88e case 11 => 0xe10e9818
      case 12 => 0x7f6a0dbb case 13 => 0x086d3d2d case 14 => 0x91646c97 case _ => 0xe6635c01)
    case 5 => (match i & 15
      case 0 => 0x6b6b51f4 case 1 => 0x1c6c6162 case 2 => 0x856530d8 case 3 => 0xf262004e
      case 4 => 0x6c0695ed case 5 => 0x1b01a57b case 6 => 0x8208f4c1 case 7 => 0xf50fc457
      case 8 => 0x65b0d9c6 case 9 => 0x12b7e950 case 10 => 0x8bbeb8ea case 11 => 0xfcb9887c
      case 12 => 0x62dd1ddf case 13 => 0x15da2d49 case 14 => 0x8cd37cf3 case _ => 0xfbd44c65)
    case 6 => (match i & 15
      case 0 => 0x4db26158 case 1 => 0x3ab551ce case 2 => 0xa3bc0074 case 3 => 0xd4bb30e2
      case 4 => 0x4adfa541 case 5 => 0x3dd895d7 case 6 => 0xa4d1c46d case 7 => 0xd3d6f4fb
      case 8 => 0x4369e96a case 9 => 0x346ed9fc case 10 => 0xad678846 case 11 => 0xda60b8d0
      case 12 => 0x44042d73 case 13 => 0x33031de5 case 14 => 0xaa0a4c5f case _ => 0xdd0d7cc9)
    case 7 => (match i & 15
      case 0 => 0x5005713c case 1 => 0x270241aa case 2 => 0xbe0b1010 case 3 => 0xc90c2086
      case 4 => 0x5768b525 case 5 => 0x206f85b3 case 6 => 0xb966d409 case 7 => 0xce61e49f
      case 8 => 0x5edef90e case 9 => 0x29d9c998 case 10 => 0xb0d09822 case 11 => 0xc7d7a8b4
      case 12 => 0x59b33d17 case 13 => 0x2eb40d81 case 14 => 0xb7bd5c3b case _ => 0xc0ba6cad)
    case 8 => (match i & 15
      case 0 => 0xedb88320 case 1 => 0x9abfb3b6 case 2 => 0x03b6e20c case 3 => 0x74b1d29a
      case 4 => 0xead54739 case 5 => 0x9dd277af case 6 => 0x04db2615 case 7 => 0x73dc1683
      case 8 => 0xe3630b12 case 9 => 0x94643b84 case 10 => 0x0d6d6a3e case 11 => 0x7a6a5aa8
      case 12 => 0xe40ecf0b case 13 => 0x9309ff9d case 14 => 0x0a00ae27 case _ => 0x7d079eb1)
    case 9 => (match i & 15
      case 0 => 0xf00f9344 case 1 => 0x8708a3d2 case 2 => 0x1e01f268 case 3 => 0x6906c2fe
      case 4 => 0xf762575d case 5 => 0x806567cb case 6 => 0x196c3671 case 7 => 0x6e6b06e7
      case 8 => 0xfed41b76 case 9 => 0x89d32be0 case 10 => 0x10da7a5a case 11 => 0x67dd4acc
      case 12 => 0xf9b9df6f case 13 => 0x8ebeeff9 case 14 => 0x17b7be43 case _ => 0x60b08ed5)
    case 10 => (match i & 15
      case 0 => 0xd6d6a3e8 case 1 => 0xa1d1937e case 2 => 0x38d8c2c4 case 3 => 0x4fdff252
      case 4 => 0xd1bb67f1 case 5 => 0xa6bc5767 case 6 => 0x3fb506dd case 7 => 0x48b2364b
      case 8 => 0xd80d2bda case 9 => 0xaf0a1b4c case 10 => 0x36034af6 case 11 => 0x41047a60
      case 12 => 0xdf60efc3 case 13 => 0xa867df55 case 14 => 0x316e8eef case _ => 0x4669be79)
    case 11 => (match i & 15
      case 0 => 0xcb61b38c case 1 => 0xbc66831a case 2 => 0x256fd2a0 case 3 => 0x5268e236
      case 4 => 0xcc0c7795 case 5 => 0xbb0b4703 case 6 => 0x220216b9 case 7 => 0x5505262f
      case 8 => 0xc5ba3bbe case 9 => 0xb2bd0b28 case 10 => 0x2bb45a92 case 11 => 0x5cb36a04
      case 12 => 0xc2d7ffa7 case 13 => 0xb5d0cf31 case 14 => 0x2cd99e8b case _ => 0x5bdeae1d)
    case 12 => (match i & 15
      case 0 => 0x9b64c2b0 case 1 => 0xec63f226 case 2 => 0x756aa39c case 3 => 0x026d930a
      case 4 => 0x9c0906a9 case 5 => 0xeb0e363f case 6 => 0x72076785 case 7 => 0x05005713
      case 8 => 0x95bf4a82 case 9 => 0xe2b87a14 case 10 => 0x7bb12bae case 11 => 0x0cb61b38
      case 12 => 0x92d28e9b case 13 => 0xe5d5be0d case 14 => 0x7cdcefb7 case _ => 0x0bdbdf21)
    case 13 => (match i & 15
      case 0 => 0x86d3d2d4 case 1 => 0xf1d4e242 case 2 => 0x68ddb3f8 case 3 => 0x1fda836e
      case 4 => 0x81be16cd case 5 => 0xf6b9265b case 6 => 0x6fb077e1 case 7 => 0x18b74777
      case 8 => 0x88085ae6 case 9 => 0xff0f6a70 case 10 => 0x66063bca case 11 => 0x11010b5c
      case 12 => 0x8f659eff case 13 => 0xf862ae69 case 14 => 0x616bffd3 case _ => 0x166ccf45)
    case 14 => (match i & 15
      case 0 => 0xa00ae278 case 1 => 0xd70dd2ee case 2 => 0x4e048354 case 3 => 0x3903b3c2
      case 4 => 0xa7672661 case 5 => 0xd06016f7 case 6 => 0x4969474d case 7 => 0x3e6e77db
      case 8 => 0xaed16a4a case 9 => 0xd9d65adc case 10 => 0x40df0b66 case 11 => 0x37d83bf0
      case 12 => 0xa9bcae53 case 13 => 0xdebb9ec5 case 14 => 0x47b2cf7f case _ => 0x30b5ffe9)
    case _ => (match i & 15
      case 0 => 0xbdbdf21c case 1 => 0xcabac28a case 2 => 0x53b39330 case 3 => 0x24b4a3a6
      case 4 => 0xbad03605 case 5 => 0xcdd70693 case 6 => 0x54de5729 case 7 => 0x23d967bf
      case 8 => 0xb3667a2e case 9 => 0xc4614ab8 case 10 => 0x5d681b02 case 11 => 0x2a6f2b94
      case 12 => 0xb40bbe37 case 13 => 0xc30c8ea1 case 14 => 0x5a05df1b case _ => 0x2d02ef8d)
  }

  function Index(h: bv64, b: bv8): (i: bv8) {
    ((h ^ b as bv64) & 0xff) as bv8
  }

  function TableStep(h: bv64, b: bv8): (r: bv64) {
    Xor(Table(Index(h, b)), h >> 8)
  }

  /** The checksum by table. */
  method Crc(key: seq<bv8>, last: bv64) returns (hash: bv64)
    ensures hash == Division(key, last)
  {
    hash := Flip(last);
    FoldTable(hash, key);
    hash := FeedAll(TableStep, hash, key);
    hash := Flip(hash);
  }

  /** The source's loop, one `step` a byte. */
  method FeedAll<T>(step: (T, bv8) -> T, start: T, key: seq<bv8>) returns (hash: T)
    ensures hash == Fold(step, start, key)
  {
    hash := start;
    var i := 0;
    while i < |key|
      invariant 0 <= i <= |key| && hash == Fold(step, start, key[..i])
    {
      FoldNext(step, start, key, i);
      hash := step(hash, key[i]);
      i := i + 1;
    }
    assert key[..i] == key;
  }

  lemma {:induction false} FoldNext<T>(f: (T, bv8) -> T, h: T, key: seq<bv8>, i: nat)
    requires i < |key|
    ensures Fold(f, h, key[..i + 1]) == f(Fold(f, h, key[..i]), key[i])
  {
    assert key[..i + 1][..i] == key[..i];
  }

  lemma {:induction false} FoldTable(h: bv64, key: seq<bv8>)
    ensures Fold(TableStep, h, key) == Fold(FeedByte, h, key)
    decreases |key|
  {
    if key != [] {
      var n := |key| - 1;
      FoldTable(h, key[..n]);
      TableStepIsFeedByte(Fold(FeedByte, h, key[..n]), key[n]);
    }
  }

  lemma {:induction false} HalfLaw(x: bv64, y: bv64)
    ensures Half(Xor(x, y)) == Xor(Half(x), Half(y))
  {
  }

  lemma {:induction false} OddLaw(x: bv64, y: bv64)
    ensures Odd(Xor(x, y)) == (Odd(x) != Odd(y))
  {
  }

  lemma {:induction false} ReduceLaw(x: bv64, y: bv64, o: bool)
    ensures Xor(Reduce(x, o), y) == Reduce(Xor(x, y), o)
  {
  }

  lemma {:induction false} RegisterIsLawful()
    ensures Lawful(REG)
  {
    forall x, y ensures Half(Xor(x, y)) == Xor(Half(x), Half(y)) {
      HalfLaw(x, y);
    }
    forall x, y ensures Odd(Xor(x, y)) == (Odd(x) != Odd(y)) {
      OddLaw(x, y);
    }
    forall x, y, o ensures Xor(Reduce(x, o), y) == Reduce(Xor(x, y), o) {
      ReduceLaw(x, y, o);
    }
    assert forall x :: Xor(x, 0) == x;
  }

  function Shift1(h: bv64): (r: bv64) {
    if h & 1 == 1 then (h >> 1) ^ POLY else h >> 1
  }

  function Shift8(h: bv64): (r: bv64) {
    Shift1(Shift1(Shift1(Shift1(Shift1(Shift1(Shift1(Shift1(h))))))))
  }

  lemma {:induction false} TableIsShift8(i: bv8)
    ensures Table(i) == Shift8(i as bv64)
  {
    match i >> 4
    case 0 => TableRow0(i);
    case 1 => TableRow1(i);
    case 2 => TableRow2(i);
    case 3 => TableRow3(i);
    case 4 => TableRow4(i);
    case 5 => TableRow5(i);
    case 6 => TableRow6(i);
    case 7 => TableRow7(i);
    case 8 => TableRow8(i);
    case 9 => TableRow9(i);
    case 10 => TableRow10(i);
    case 11 => TableRow11(i);
    case 12 => TableRow12(i);
    case 13 => TableRow13(i);
    case 14 => TableRow14(i);
    case _ => TableRow15(i);
  }

  lemma {:induction false} TableRow0(i: bv8)
    requires i >> 4 == 0
    ensures Table(i) == Shift8(i as bv64)
  {
  }

  lemma {:induction false} TableRow1(i: bv8)
    requires i >> 4 == 1
    ensures Table(i) == Shift8(i as bv64)
  {
  }

  lemma {:induction false} TableRow2(i: bv8)
    requires i >> 4 == 2
    ensures Table(i) == Shift8(i as bv64)
  {
  }

  lemma {:induction false} TableRow3(i: bv8)
    requires i >> 4 == 3
    ensures Table(i) == Shift8(i as bv64)
  {
  }

  lemma {:induction false} TableRow4(i: bv8)
    requires i >> 4 == 4
    ensures Table(i) == Shift8(i as bv64)
  {
  }

  lemma {:induction false} TableRow5(i: bv8)
    requires i >> 4 == 5
    ensures Table(i) == Shift8(i as bv64)
  {
  }

  lemma {:induction false} TableRow6(i: bv8)
    requires i >> 4 == 6
    ensures Table(i) == Shift8(i as bv64)
  {
  }

  lemma {:induction false} TableRow7(i: bv8)
    requires i >> 4 == 7
    ensures Table(i) == Shift8(i as bv64)
  {
  }

  lemma {:induction false} TableRow8(i: bv8)
    requires i >> 4 == 8
    ensures Table(i) == Shift8(i as bv64)
  {
  }

  lemma {:induction false} TableRow9(i: bv8)
    requires i >> 4 == 9
    ensures Table(i) == Shift8(i as bv64)
  {
  }

  lemma {:induction false} TableRow10(i: bv8)
    requires i >> 4 == 10
    ensures Table(i) == Shift8(i as bv64)
  {
  }

  lemma {:induction false} TableRow11(i: bv8)
    requires i >> 4 == 11
    ensures Table(i) == Shift8(i as bv64)
  {
  }

  lemma {:induction false} TableRow12(i: bv8)
    requires i >> 4 == 12
    ensures Table(i) == Shift8(i as bv64)
  {
  }

  lemma {:induction false} TableRow13(i: bv8)
    requires i >> 4 == 13
    ensures Table(i) == Shift8(i as bv64)
  {
  }

  lemma {:induction false} TableRow14(i: bv8)
    requires i >> 4 == 14
    ensures Table(i) == Shift8(i as bv64)
  {
  }

  lemma {:induction false} TableRow15(i: bv8)
    requires i >> 4 == 15
    ensures Table(i) == Shift8(i as bv64)
  {
  }

  lemma {:induction false} Shifts8<T>(r: Register<T>, h: T)
    ensures r.Shifts(h, 8) == r.Shift(r.Shift(r.Shift(r.Shift(r.Shift(r.Shift(r.Shift(r.Shift(h))))))))
  {
    assert r.Shifts(h, 0) == h;
    assert r.Shifts(h, 2) == r.Shift(r.Shifts(h, 1)) == r.Shift(r.Shift(h));
    assert r.Shifts(h, 4) == r.Shift(r.Shifts(h, 3)) == r.Shift(r.Shift(r.Shifts(h, 2)));
    assert r.Shifts(h, 6) == r.Shift(r.Shifts(h, 5)) == r.Shift(r.Shift(r.Shifts(h, 4)));
    assert r.Shifts(h, 8) == r.Shift(r.Shifts(h, 7)) == r.Shift(r.Shift(r.Shifts(h, 6)));
  }

  function Eight<T>(f: T -> T, h: T): (r: T) {
    f(f(f(f(f(f(f(f(h))))))))
  }

  lemma {:induction false} ShiftsEight<T(!new)>(r: Register<T>, f: T -> T, h: T)
    requires forall x :: r.Shift(x) == f(x)
    ensures r.Shifts(h, 8) == Eight(f, h)
  {
    Shifts8(r, h);
  }

  lemma {:induction false} RegisterShift(x: bv64)
    ensures REG.Shift(x) == Shift1(x)
  {
  }

  lemma {:induction false} EightShifts(h: bv64)
    ensures Eight(Shift1, h) == Shift8(h)
  {
  }

  lemma {:induction false} RegisterShifts(h: bv64)
    ensures REG.Shifts(h, BITS) == Eight(Shift1, h)
  {
    forall x ensures REG.Shift(x) == Shift1(x) {
      RegisterShift(x);
    }
    ShiftsEight(REG, Shift1, h);
  }

  lemma {:induction false} TableIsShifts(i: bv8)
    ensures Table(i) == REG.Shifts(i as bv64, BITS)
  {
    TableIsShift8(i);
    RegisterShifts(i as bv64);
    EightShifts(i as bv64);
  }

  lemma {:induction false} Halves8<T>(r: Register<T>, c: T)
    ensures r.Halves(c, 0) == c && r.Halves(c, 1) == r.half(c) && r.Halves(c, 2) == r.half(r.half(c))
    ensures r.Halves(c, 3) == r.half(r.Halves(c, 2)) && r.Halves(c, 4) == r.half(r.half(r.Halves(c, 2)))
    ensures r.Halves(c, 5) == r.half(r.Halves(c, 4)) && r.Halves(c, 6) == r.half(r.half(r.Halves(c, 4)))
    ensures r.Halves(c, 7) == r.half(r.Halves(c, 6)) && r.Halves(c, 8) == r.half(r.half(r.Halves(c, 6)))
  {
    assert r.Halves(c, 2) == r.half(r.Halves(c, 1));
    assert r.Halves(c, 4) == r.half(r.Halves(c, 3));
    assert r.Halves(c, 6) == r.half(r.Halves(c, 5));
    assert r.Halves(c, 8) == r.half(r.Halves(c, 7));
  }

  lemma {:induction false} HalvesOf(c: bv64)
    ensures REG.Halves(c, BITS) == c >> 8
  {
    Halves8(REG, c);
  }

  lemma {:induction false} HalvesEven(c: bv64, k: nat)
    requires c & 0xff == 0 && k < BITS
    ensures !REG.odd(REG.Halves(c, k))
  {
    Halves8(REG, c);
  }

  lemma {:induction false} LowAndHigh(x: bv64)
    ensures x == (x & 0xff) ^ (x & 0xFFFFFFFFFFFFFF00)
    ensures x & 0xFFFFFFFFFFFFFF00 & 0xff == 0 && x & 0xff <= 0xff
  {
  }

  lemma {:induction false} HighUnchanged(h: bv64, c: bv64)
    requires c <= 0xff
    ensures ((h ^ c) & 0xFFFFFFFFFFFFFF00) >> 8 == h >> 8
  {
  }

  /** A step split at the low byte: `t` is what the table gives for it, `rest` the high part moved down. */
  ghost predicate Split<T(!new)>(r: Register<T>, h: T, c: T, low: T, high: T, t: T, rest: T, n: nat) {
    && Lawful(r)
    && r.sum(h, c) == r.sum(low, high)
    && r.Halves(c, n) == r.zero
    && (forall k :: 0 <= k < n ==> !r.odd(r.Halves(high, k)))
    && t == r.Shifts(low, n)
    && rest == r.Halves(high, n)
  }

  lemma {:induction false} SplitIsSum(x: bv64, low: bv64, high: bv64)
    requires low == x & 0xff && high == x & 0xFFFFFFFFFFFFFF00
    ensures x == Xor(low, high) && high & 0xff == 0 && low <= 0xff
  {
    LowAndHigh(x);
  }

  lemma {:induction false} RegisterSum(x: bv64, y: bv64, z: bv64)
    requires z == Xor(x, y)
    ensures REG.sum(x, y) == z
  {
  }

  lemma {:induction false} SumSplits(h: bv64, c: bv64, low: bv64, high: bv64, x: bv64)
    requires x == Xor(h, c) && low == x & 0xff && high == x & 0xFFFFFFFFFFFFFF00
    ensures REG.sum(h, c) == x == REG.sum(low, high) && high & 0xff == 0 && low <= 0xff
  {
    SplitIsSum(x, low, high);
    RegisterSum(h, c, x);
    RegisterSum(low, high, x);
  }

  lemma {:induction false} ByteSplits(h: bv64, c: bv64, low: bv64, high: bv64, t: bv64, rest: bv64)
    requires c <= 0xff && low == (h ^ c) & 0xff && high == (h ^ c) & 0xFFFFFFFFFFFFFF00
    requires t == REG.Shifts(low, BITS) && rest == high >> 8
    ensures Split(REG, h, c, low, high, t, rest, BITS)
  {
    RegisterIsLawful();
    SumSplits(h, c, low, high, h ^ c);
    HalvesOf(c);
    HalvesOf(high);
    forall k | 0 <= k < BITS ensures !REG.odd(REG.Halves(high, k)) {
      HalvesEven(high, k);
    }
  }

  lemma {:induction false} FeedsFromSplit<T(!new)>(r: Register<T>, h: T, c: T, low: T, high: T, t: T, rest: T,
      n: nat, f: T)
    requires Split(r, h, c, low, high, t, rest, n) && f == r.Feeds(h, c, n)
    ensures f == r.sum(t, rest)
  {
    FeedsSplit(r, h, c, low, high, n);
  }

  lemma {:induction false} FeedsAre(h: bv64, c: bv64, low: bv64, high: bv64, t: bv64, rest: bv64, f: bv64)
    requires c <= 0xff && low == (h ^ c) & 0xff && high == (h ^ c) & 0xFFFFFFFFFFFFFF00
    requires t == REG.Shifts(low, BITS) && rest == high >> 8
    requires f == REG.Feeds(h, c, BITS)
    ensures f == REG.sum(t, rest)
  {
    ByteSplits(h, c, low, high, t, rest);
    FeedsFromSplit(REG, h, c, low, high, t, rest, BITS, f);
  }

  lemma {:induction false} IndexIsLowByte(h: bv64, b: bv8, low: bv64)
    requires low == Index(h, b) as bv64
    ensures low == (h ^ b as bv64) & 0xff
  {
  }

  lemma {:induction false} FeedByteShifts(h: bv64, b: bv8, c: bv64, low: bv64, high: bv64, u: bv64, rest: bv64, f: bv64)
    requires c == b as bv64 && low == (h ^ c) & 0xff && high == (h ^ c) & 0xFFFFFFFFFFFFFF00
    requires u == REG.Shifts(low, BITS) && rest == h >> 8 && f == FeedByte(h, b)
    ensures f == Xor(u, rest)
  {
    HighUnchanged(h, c);
    FeedsAre(h, c, low, high, u, rest, f);
  }

  /** One table lookup does the work of eight bit steps. */
  lemma {:induction false} TableStepIsFeedByte(h: bv64, b: bv8)
    ensures TableStep(h, b) == FeedByte(h, b)
  {
    var i, c := Index(h, b), b as bv64;
    var low := i as bv64;
    IndexIsLowByte(h, b, low);
    TableIsShifts(i);
    FeedByteShifts(h, b, c, low, (h ^ c) & 0xFFFFFFFFFFFFFF00, Table(i), h >> 8, FeedByte(h, b));
  }

  lemma {:induction false} FoldOfConcat<T>(f: (T, bv8) -> T, h: T, a: seq<bv8>, b: seq<bv8>)
    ensures Fold(f, h, a + b) == Fold(f, Fold(f, h, a), b)
    decreases |b|
  {
    if b == [] {
      assert a + b == a;
    } else {
      var n := |b| - 1;
      assert (a + b)[..|a| + n] == a + b[..n];
      FoldOfConcat(f, h, a, b[..n]);
    }
  }

  lemma {:induction false} ChecksumContinues<T(!new)>(f: (T, bv8) -> T, flip: T -> T, a: seq<bv8>, b: seq<bv8>, last: T)
    requires forall x :: flip(flip(x)) == x
    ensures Checksum(f, flip, b, Checksum(f, flip, a, last)) == Checksum(f, flip, a + b, last)
  {
    FoldOfConcat(f, flip(last), a, b);
  }

  /** Checksums continue: the checksum of `b` from that of `a` is the checksum of both. */
  lemma {:induction false} CrcContinues(a: seq<bv8>, b: seq<bv8>, last: bv64)
    ensures Division(b, Division(a, last)) == Division(a + b, last)
  {
    assert forall x :: Flip(Flip(x)) == x;
    ChecksumContinues(FeedByte, Flip, a, b, last);
  }

  /** Division loses nothing: on the values `small` admits, a shift can be undone. */
  ghost predicate Reversible<T(!new)>(r: Register<T>, small: T -> bool) {
    && (forall x :: small(x) ==> small(r.Shift(x)))
    && (forall x, y :: small(x) && small(y) && r.Shift(x) == r.Shift(y) ==> x == y)
  }

  lemma {:induction false} ShiftsInjective<T(!new)>(r: Register<T>, small: T -> bool, x: T, y: T, n: nat)
    requires Reversible(r, small) && small(x) && small(y)
    ensures small(r.Shifts(x, n)) && small(r.Shifts(y, n))
    ensures r.Shifts(x, n) == r.Shifts(y, n) ==> x == y
  {
    if n > 0 {
      ShiftsInjective(r, small, x, y, n - 1);
    }
  }

  predicate Small(h: bv64) {
    h <= MASK32
  }

  lemma {:induction false} ShiftSmall(x: bv64)
    requires Small(x)
    ensures Small(REG.Shift(x))
  {
  }

  /** The polynomial's top bit tells which way the last bit went. */
  lemma {:induction false} ShiftInjective(x: bv64, y: bv64)
    requires Small(x) && Small(y) && REG.Shift(x) == REG.Shift(y)
    ensures x == y
  {
  }

  lemma {:induction false} RegisterIsReversible()
    ensures Reversible(REG, Small)
  {
    forall x | Small(x) ensures Small(REG.Shift(x)) {
      ShiftSmall(x);
    }
    forall x, y | Small(x) && Small(y) && REG.Shift(x) == REG.Shift(y) ensures x == y {
      ShiftInjective(x, y);
    }
  }

  /** Two feeds of used-up bits whose sums with the register are small. */
  ghost predicate Undoable<T(!new)>(r: Register<T>, small: T -> bool, g: T, h: T, c: T, d: T, n: nat) {
    && Lawful(r) && Reversible(r, small)
    && r.Halves(c, n) == r.zero && r.Halves(d, n) == r.zero
    && small(r.sum(g, c)) && small(r.sum(h, d))
  }

  lemma {:induction false} FeedsReversible<T(!new)>(r: Register<T>, small: T -> bool, g: T, h: T, c: T, d: T, n: nat,
                                 p: T, q: T, u: T, v: T)
    requires Undoable(r, small, g, h, c, d, n) && p == r.Feeds(g, c, n) && q == r.Feeds(h, d, n)
    requires u == r.sum(g, c) && v == r.sum(h, d)
    ensures small(p) && (p == q ==> u == v)
  {
    FeedsShift(r, g, c, n);
    FeedsShift(r, h, d, n);
    ShiftsInjective(r, small, u, v, n);
  }

  lemma {:induction false} SumSmall(h: bv64, c: bv64)
    requires Small(h) && c <= 0xff
    ensures Small(REG.sum(h, c))
  {
  }

  lemma {:induction false} BytesUndoable(g: bv64, h: bv64, c: bv64, d: bv64)
    requires Small(g) && Small(h) && c <= 0xff && d <= 0xff
    ensures Undoable(REG, Small, g, h, c, d, BITS)
  {
    RegisterIsLawful();
    RegisterIsReversible();
    HalvesOf(c);
    HalvesOf(d);
    SumSmall(g, c);
    SumSmall(h, d);
  }

  lemma {:induction false} FeedBytesReversible(g: bv64, h: bv64, c: bv64, d: bv64, p: bv64, q: bv64, u: bv64, v: bv64)
    requires Small(g) && Small(h) && c <= 0xff && d <= 0xff
    requires p == REG.Feeds(g, c, BITS) && q == REG.Feeds(h, d, BITS) && u == REG.sum(g, c) && v == REG.sum(h, d)
    ensures Small(p) && (p == q ==> u == v)
  {
    BytesUndoable(g, h, c, d);
    FeedsReversible(REG, Small, g, h, c, d, BITS, p, q, u, v);
  }

  /** A byte step stays small and can be undone, both for the register and for the byte. */
  ghost predicate Detects<T(!new)>(f: (T, bv8) -> T, small: T -> bool) {
    && (forall h, b :: small(h) ==> small(f(h, b)))
    && (forall g, h, b :: small(g) && small(h) && f(g, b) == f(h, b) ==> g == h)
    && (forall h, x, y :: small(h) && f(h, x) == f(h, y) ==> x == y)
  }

  lemma {:induction false} FeedByteDetects()
    ensures Detects(FeedByte, Small)
  {
    forall h, b | Small(h) ensures Small(FeedByte(h, b)) {
      FeedByteSmall(h, b, FeedByte(h, b));
    }
    forall g, h, b | Small(g) && Small(h) && FeedByte(g, b) == FeedByte(h, b) ensures g == h {
      FeedByteUndo(g, h, b, b, FeedByte(g, b));
    }
    forall h, x, y | Small(h) && FeedByte(h, x) == FeedByte(h, y) ensures x == y {
      FeedByteUndo(h, h, x, y, FeedByte(h, x));
    }
  }

  lemma {:induction false} FeedByteSmall(h: bv64, b: bv8, p: bv64)
    requires Small(h) && p == FeedByte(h, b)
    ensures Small(p)
  {
    var c := b as bv64;
    FeedBytesUndo(h, h, b, b, c, c, p, p, h ^ c, h ^ c);
  }

  lemma {:induction false} FeedByteUndo(g: bv64, h: bv64, x: bv8, y: bv8, p: bv64)
    requires Small(g) && Small(h) && p == FeedByte(g, x) && p == FeedByte(h, y)
    ensures (x == y ==> g == h) && (g == h ==> x == y)
  {
    var c, d := x as bv64, y as bv64;
    FeedBytesUndo(g, h, x, y, c, d, p, p, g ^ c, h ^ d);
    SumUndo(g, h, x, y);
  }

  lemma {:induction false} FeedBytesUndo(g: bv64, h: bv64, x: bv8, y: bv8, c: bv64, d: bv64, p: bv64, q: bv64,
      u: bv64, v: bv64)
    requires Small(g) && Small(h) && c == x as bv64 && d == y as bv64 && u == g ^ c && v == h ^ d
    requires p == FeedByte(g, x) && q == FeedByte(h, y)
    ensures Small(p) && (p == q ==> u == v)
  {
    FeedBytesReversible(g, h, c, d, p, q, u, v);
  }

  lemma {:induction false} SumUndo(g: bv64, h: bv64, x: bv8, y: bv8)
    requires g ^ x as bv64 == h ^ y as bv64
    ensures (x == y ==> g == h) && (g == h ==> x == y)
  {
  }

  lemma {:induction false} FoldReversible<T(!new)>(f: (T, bv8) -> T, small: T -> bool, g: T, h: T, key: seq<bv8>)
    requires Detects(f, small) && small(g) && small(h)
    ensures small(Fold(f, g, key)) && small(Fold(f, h, key))
    ensures Fold(f, g, key) == Fold(f, h, key) ==> g == h
    decreases |key|
  {
    if key != [] {
      var n := |key| - 1;
      FoldReversible(f, small, g, h, key[..n]);
      DetectsStep(f, small, Fold(f, g, key[..n]), Fold(f, h, key[..n]), key[n]);
    }
  }

  lemma {:induction false} DetectsStep<T(!new)>(f: (T, bv8) -> T, small: T -> bool, p: T, q: T, b: bv8)
    requires Detects(f, small) && small(p) && small(q)
    ensures small(f(p, b)) && small(f(q, b)) && (f(p, b) == f(q, b) ==> p == q)
  {
  }

  lemma {:induction false} FoldDetects<T(!new)>(f: (T, bv8) -> T, small: T -> bool, h: T, a: seq<bv8>, x: bv8,
      y: bv8, b: seq<bv8>)
    requires Detects(f, small) && small(h) && x != y
    ensures Fold(f, h, a + [x] + b) != Fold(f, h, a + [y] + b)
  {
    var g := Fold(f, h, a);
    FoldReversible(f, small, h, h, a);
    FoldOfConcat(f, h, a + [x], b);
    FoldOfConcat(f, h, a + [y], b);
    FoldOfConcat(f, h, a, [x]);
    FoldOfConcat(f, h, a, [y]);
    FoldOfOne(f, g, x);
    FoldOfOne(f, g, y);
    FoldReversible(f, small, f(g, x), f(g, y), b);
  }

  lemma {:induction false} FoldOfOne<T>(f: (T, bv8) -> T, h: T, x: bv8)
    ensures Fold(f, h, [x]) == f(h, x)
  {
    assert [x][..0] == [];
  }

  /** The checksum of a 32-bit start value fits 32 bits, and any change of a single byte changes it. */
  lemma {:induction false} CrcDetectsByteError(a: seq<bv8>, x: bv8, y: bv8, b: seq<bv8>, last: bv64)
    requires last <= MASK32
    ensures Division(a + [x] + b, last) <= MASK32
    ensures x != y ==> Division(a + [x] + b, last) != Division(a + [y] + b, last)
  {
    FeedByteDetects();
    FlipSmall(last);
    FoldReversible(FeedByte, Small, Flip(last), Flip(last), a + [x] + b);
    FlipSmall(Fold(FeedByte, Flip(last), a + [x] + b));
    if x != y {
      FoldDetects(FeedByte, Small, Flip(last), a, x, y, b);
      FlipInjective(Fold(FeedByte, Flip(last), a + [x] + b), Fold(FeedByte, Flip(last), a + [y] + b));
    }
  }

  lemma {:induction false} FlipSmall(h: bv64)
    requires Small(h)
    ensures Small(Flip(h))
  {
  }

  lemma {:induction false} FlipInjective(g: bv64, h: bv64)
    requires g != h
    ensures Flip(g) != Flip(h)
  {
  }

  // ---------------------------------------------------------------- the check value

  const DIGITS: seq<bv8> := [0x31, 0x32, 0x33, 0x34, 0x35, 0x36, 0x37, 0x38, 0x39]

  lemma {:induction false} Digit1()
    ensures TableStep(0xFFFFFFFF, 0x31) == 0x7C231048
  {
  }

  lemma {:induction false} Digit2()
    ensures TableStep(0x7C231048, 0x32) == 0xB0ACBB32
  {
  }

  lemma {:induction false} Digit3()
    ensures TableStep(0xB0ACBB32, 0x33) == 0x77B79C2D
  {
  }

  lemma {:induction false} Digit4()
    ensures TableStep(0x77B79C2D, 0x34) == 0x641C1F5C
  {
  }

  lemma {:induction false} Digit5()
    ensures TableStep(0x641C1F5C, 0x35) == 0x340AC5E3
  {
  }

  lemma {:induction false} Digit6()
    ensures TableStep(0x340AC5E3, 0x36) == 0xF68D2C9E
  {
  }

  lemma {:induction false} Digit7()
    ensures TableStep(0xF68D2C9E, 0x37) == 0xAFFC9660
  {
  }

  lemma {:induction false} Digit8()
    ensures TableStep(0xAFFC9660, 0x38) == 0x651F2550
  {
  }

  lemma {:induction false} Digit9()
    ensures TableStep(0x651F2550, 0x39) == 0x340BC6D9
  {
  }

  lemma {:induction false} FoldOne(f: (bv64, bv8) -> bv64, start: bv64, key: seq<bv8>, b: bv8, h: bv64, n: bv64)
    requires Fold(f, start, key) == h && f(h, b) == n
    ensures Fold(f, start, key + [b]) == n
  {
    assert (key + [b])[..|key|] == key;
  }

  lemma {:induction false} DigitsFolded(f: (bv64, bv8) -> bv64, start: bv64)
    requires start == 0xFFFFFFFF
    requires f(0xFFFFFFFF, 0x31) == 0x7C231048
    requires f(0x7C231048, 0x32) == 0xB0ACBB32
    requires f(0xB0ACBB32, 0x33) == 0x77B79C2D
    requires f(0x77B79C2D, 0x34) == 0x641C1F5C
    requires f(0x641C1F5C, 0x35) == 0x340AC5E3
    requires f(0x340AC5E3, 0x36) == 0xF68D2C9E
    requires f(0xF68D2C9E, 0x37) == 0xAFFC9660
    requires f(0xAFFC9660, 0x38) == 0x651F2550
    requires f(0x651F2550, 0x39) == 0x340BC6D9
    ensures Fold(f, start, DIGITS) == 0x340BC6D9
  {
    var k0: seq<bv8> := [];
    var k1 := k0 + [0x31];
    FoldOne(f, start, k0, 0x31, 0xFFFFFFFF, 0x7C231048);
    var k2 := k1 + [0x32];
    FoldOne(f, start, k1, 0x32, 0x7C231048, 0xB0ACBB32);
    var k3 := k2 + [0x33];
    FoldOne(f, start, k2, 0x33, 0xB0ACBB32, 0x77B79C2D);
    var k4 := k3 + [0x34];
    FoldOne(f, start, k3, 0x34, 0x77B79C2D, 0x641C1F5C);
    var k5 := k4 + [0x35];
    FoldOne(f, start, k4, 0x35, 0x641C1F5C, 0x340AC5E3);
    var k6 := k5 + [0x36];
    FoldOne(f, start, k5, 0x36, 0x340AC5E3, 0xF68D2C9E);
    var k7 := k6 + [0x37];
    FoldOne(f, start, k6, 0x37, 0xF68D2C9E, 0xAFFC9660);
    var k8 := k7 + [0x38];
    FoldOne(f, start, k7, 0x38, 0xAFFC9660, 0x651F2550);
    var k9 := k8 + [0x39];
    FoldOne(f, start, k8, 0x39, 0x651F2550, 0x340BC6D9);
    assert k9 == DIGITS;
  }

  /** The digits 1 to 9 have the checksum 0xCBF43926, the usual check value of this CRC. */
  lemma {:induction false} CheckValue()
    ensures Division(DIGITS, 0) == 0xCBF43926
  {
    Digit1();
    Digit2();
    Digit3();
    Digit4();
    Digit5();
    Digit6();
    Digit7();
    Digit8();
    Digit9();
    DigitsFolded(TableStep, Flip(0));
    FoldTable(Flip(0), DIGITS);
  }
}
