/** The in-place stemmer: one buffer, three offsets, scanning loops and a switch per step. */
module Stemming {
  import opened Porter

  class Stemmer {
    var b: array<char>
    var k0: int
    var k: int
    var j: int
    /** The byte in front of the buffer, which `b[k - 1]` and `b[j]` reach when the word starts the buffer. */
    var before: char

    ghost predicate Valid()
      reads this
    {
      0 <= k0 <= k < b.Length
    }

    ghost function Word(): (w: string)
      requires Valid()
      reads this, b
      ensures |w| == k - k0 + 1
    {
      b[k0..k + 1]
    }

    /** `j` marks a stem of the current word, possibly the empty one. */
    ghost predicate Marked()
      reads this
    {
      k0 - 1 <= j <= k
    }

    ghost function StemLen(): (n: nat)
      requires Marked()
      reads this
    {
      j + 1 - k0
    }

    /** Same buffer and start; nothing in front of the word or behind its old end has changed; the end did not move
        up. */
    twostate predicate Framed()
      reads this, b
    {
      && b == old(b) && k0 == old(k0) && before == old(before)
      && old(Valid()) && Valid() && k <= old(k)
      && forall i :: 0 <= i < k0 || old(k) < i < b.Length ==> b[i] == old(b[i])
    }

    constructor (p: array<char>, i: nat, e: nat, before: char)
      requires i <= e < p.Length
      ensures b == p && k0 == i && k == e && this.before == before
    {
      b, k0, k, j, this.before := p, i, e, e, before;
    }

    function At(i: int): (c: char)
      requires Valid() && k0 - 1 <= i <= k
      reads this, b
    {
      if i >= 0 then b[i] else before
    }

    predicate ConsAt(i: int, ghost top: int)
      requires 0 <= k0 <= i <= top < b.Length
      reads this, b
      ensures ConsAt(i, top) == Cons(b[k0..top + 1], i - k0)
      decreases i
    {
      match b[i]
      case 'a' => false
      case 'e' => false
      case 'i' => false
      case 'o' => false
      case 'u' => false
      case 'y' => if i == k0 then true else !ConsAt(i - 1, top)
      case _ => true
    }

    /** m(): skip consonants, then count vowel runs that a consonant ends. */
    method StemMeasure(ghost top: int) returns (n: nat)
      requires Valid() && k0 - 1 <= j <= top < b.Length && k <= top
      ensures n == Measure(b[k0..top + 1], j + 1 - k0)
    {
      ghost var w := b[k0..top + 1];
      n := 0;
      var i := k0;
      while true
        invariant k0 <= i <= j + 1 && Measure(w, i - k0) == 0 && (i > k0 ==> Cons(w, i - 1 - k0))
        decreases j - i
      {
        if i > j {
          return n;
        }
        if !ConsAt(i, top) {
          break;
        }
        i := i + 1;
      }
      i := i + 1;
      while true
        invariant k0 < i <= j + 1 && n == Measure(w, i - k0) && !Cons(w, i - 1 - k0)
        decreases j - i
      {
        while true
          invariant k0 < i <= j + 1 && n == Measure(w, i - k0) && !Cons(w, i - 1 - k0)
          decreases j - i
        {
          if i > j {
            return n;
          }
          if ConsAt(i, top) {
            break;
          }
          i := i + 1;
        }
        i, n := i + 1, n + 1;
        while true
          invariant k0 < i <= j + 1 && n == Measure(w, i - k0) && Cons(w, i - 1 - k0)
          decreases j - i
        {
          if i > j {
            return n;
          }
          if !ConsAt(i, top) {
            break;
          }
          i := i + 1;
        }
        i := i + 1;
      }
    }

    method VowelInStem() returns (r: bool)
      requires Valid() && Marked()
      ensures r == HasVowel(Word(), StemLen())
    {
      var i := k0;
      while i <= j
        invariant k0 <= i <= j + 1
        invariant forall h :: 0 <= h < i - k0 ==> Cons(Word(), h)
      {
        if !ConsAt(i, k) {
          assert !Cons(Word(), i - k0);
          return true;
        }
        i := i + 1;
      }
      return false;
    }

    predicate DoubleAt(i: int)
      requires Valid() && k0 <= i <= k
      reads this, b
      ensures DoubleAt(i) == DoubleCons(Word(), i + 1 - k0)
    {
      i >= k0 + 1 && b[i] == b[i - 1] && ConsAt(i, k)
    }

    predicate ConsVowelConsAt(i: int)
      requires Valid() && k0 - 1 <= i <= k
      reads this, b
      ensures ConsVowelConsAt(i) == ConsVowelCons(Word(), i + 1 - k0)
    {
      i >= k0 + 2 && ConsAt(i, k) && !ConsAt(i - 1, k) && ConsAt(i - 2, k) && b[i] != 'w' && b[i] != 'x' && b[i] != 'y'
    }

    /** Does the word end with `s`? If so `j` marks what stands in front. */
    method Ends(s: string) returns (r: bool)
      requires Valid() && s != ""
      modifies this`j
      ensures r == EndsWith(Word(), s)
      ensures j == if r then k - |s| else old(j)
    {
      ghost var w := Word();
      LastAgrees(w, s);
      if s[|s| - 1] != b[k] {
        return false;
      }
      if |s| > k - k0 + 1 {
        return false;
      }
      EndsAlikeAt(w, s, |s|);
      if b[k - |s| + 1..k + 1] != s {
        assert b[k - |s| + 1..k + 1] == w[|w| - |s|..];
        return false;
      }
      j := k - |s|;
      return true;
    }

    /** Replaces everything behind the marked stem. */
    method SetTo(s: string)
      requires Valid() && Marked() && k0 <= j + |s| < b.Length
      modifies this`k, b
      ensures Valid() && k == j + |s|
      ensures Word() == old(Word()[..StemLen()]) + s
      ensures forall i :: 0 <= i <= j || j + |s| < i < b.Length ==> b[i] == old(b[i])
    {
      forall i | 0 <= i < |s| {
        b[j + 1 + i] := s[i];
      }
      k := j + |s|;
    }

    /** r(): rewrites if the stem measures more than zero. */
    method Rewrite(s: string)
      requires Valid() && Marked() && j + |s| <= k
      modifies this`k, b
      ensures Framed()
      ensures Word() == if Measure(old(Word()), old(StemLen())) > 0 then old(Word()[..StemLen()]) + s else old(Word())
    {
      var m := StemMeasure(k);
      if m > 0 {
        MeasureNeedsTwo(Word(), StemLen());
        SetTo(s);
      }
    }

    /** One line of a switch in steps 2 and 3: if the word ends with `s`, try to rewrite it to `t` and be done. */
    method Try(s: string, t: string) returns (hit: bool)
      requires Valid() && s != "" && |t| <= |s|
      modifies this`j, this`k, b
      ensures Framed()
      ensures hit == EndsWith(old(Word()), s)
      ensures Word() == if hit then Apply(old(Word()), Rule(s, t, false), 0) else old(Word())
    {
      hit := Ends(s);
      if hit {
        Rewrite(t);
      }
    }

    /** Moves the end down by `n` letters. */
    method Drop(n: nat)
      requires Valid() && k0 <= k - n
      modifies this`k
      ensures Framed() && Word() == But(old(Word()), n) && k == old(k) - n
    {
      k := k - n;
    }

    /** The plural endings other than -sses. */
    method DropS()
      requires Valid() && k >= k0 + 2 && b[k] == 's'
      modifies this`j, this`k, b
      ensures Framed() && Word() == WithoutS(old(Word()))
    {
      ghost var w := Word();
      var ies := Ends("ies");
      if ies {
        SetTo("i");
      } else {
        assert b[k - 1] == w[|w| - 2];
        if At(k - 1) != 's' {
          Drop(1);
        }
      }
    }

    method Step1aInPlace()
      requires Valid() && k >= k0 + 2
      modifies this`j, this`k, b
      ensures Framed() && Word() == Step1a(old(Word()))
    {
      if b[k] == 's' {
        var sses := Ends("sses");
        if sses {
          Drop(2);
        } else {
          DropS();
        }
      }
    }

    /** `s` at the end of a stem gets an e behind it. */
    method RestoreE(s: string) returns (hit: bool)
      requires Valid() && s != "" && k + 1 < b.Length
      modifies this`j, this`k, b
      ensures Valid() && b == old(b) && k0 == old(k0) && before == old(before)
      ensures hit == EndsWith(old(Word()), s)
      ensures hit ==> k == old(k) + 1 && Word() == old(Word()) + "e"
      ensures forall i :: 0 <= i < k0 || old(k) + 1 < i < b.Length ==> b[i] == old(b[i])
      ensures !hit ==> k == old(k) && j == old(j) && b[..] == old(b[..])
    {
      hit := Ends(s);
      if hit {
        SuffixSplits(Word(), s);
        assert Word()[..StemLen()] + (s + "e") == (Word()[..StemLen()] + s) + "e";
        SetTo(s + "e");
      }
    }

    /** Undoes a doubled consonant other than l, s and z, or restores an e after a short syllable. */
    method RepairEnd()
      requires Valid() && j == k && k + 1 < b.Length
      modifies this`k, b
      ensures Valid() && k <= old(k) + 1
      ensures forall i :: 0 <= i < k0 || old(k) + 1 < i < b.Length ==> b[i] == old(b[i])
      ensures var w := old(Word());
              Word() == if DoubleCons(w, |w|) then
                          (if Last(w) == 'l' || Last(w) == 's' || Last(w) == 'z' then w else But(w, 1))
                        else if Measure(w, |w|) == 1 && ConsVowelCons(w, |w|) then w + "e"
                        else w
    {
      if DoubleAt(k) {
        k := k - 1;
        var c := b[k];
        if c == 'l' || c == 's' || c == 'z' {
          k := k + 1;
        }
      } else {
        var m := StemMeasure(k);
        if m == 1 && ConsVowelConsAt(k) {
          assert Word()[..StemLen()] == Word();
          SetTo("e");
        }
      }
    }

    /** What follows the removal of -ed or -ing; `k` is already at the end of the stem. */
    method Repair()
      requires Valid() && j == k && k + 1 < b.Length
      modifies this`j, this`k, b
      ensures Valid() && b == old(b) && k0 == old(k0) && before == old(before) && k <= old(k) + 1
      ensures forall i :: 0 <= i < k0 || old(k) + 1 < i < b.Length ==> b[i] == old(b[i])
      ensures Word() == Repaired(old(Word()))
    {
      var hit := RestoreE("at");
      if !hit {
        hit := RestoreE("bl");
      }
      if !hit {
        hit := RestoreE("iz");
      }
      if !hit {
        RepairEnd();
      }
    }

    /** Cuts the word back to the marked stem if that holds a vowel. */
    method CutAndRepair()
      requires Valid() && k0 - 1 <= j < k
      modifies this`j, this`k, b
      ensures Framed()
      ensures Word() == WithoutVerbEnding(old(Word()), old(k - j))
    {
      var vowel := VowelInStem();
      if vowel {
        ghost var w, n := Word(), k - j;
        k := j;
        assert Word() == But(w, n);
        Repair();
      }
    }

    method FindVerbEnding() returns (n: nat)
      requires Valid()
      modifies this`j
      ensures n == (if EndsWith(Word(), "ed") then 2 else if EndsWith(Word(), "ing") then 3 else 0)
      ensures n > 0 ==> j == k - n
      ensures n <= k - k0 + 1
    {
      var ed := Ends("ed");
      if ed {
        return 2;
      }
      var ing := Ends("ing");
      return if ing then 3 else 0;
    }

    method CutVerbEnding()
      requires Valid()
      modifies this`j, this`k, b
      ensures Framed() && Word() == WithoutEdIng(old(Word()))
    {
      var n := FindVerbEnding();
      if n > 0 {
        CutAndRepair();
      }
    }

    method Step1bInPlace()
      requires Valid()
      modifies this`j, this`k, b
      ensures Framed() && Word() == Step1b(old(Word()))
    {
      var eed := Ends("eed");
      if eed {
        DropE();
      } else {
        CutVerbEnding();
      }
    }

    method DropE()
      requires Valid() && k0 - 1 <= j < k
      modifies this`k
      ensures Framed()
      ensures Word() == if Measure(old(Word()), old(StemLen())) > 0 then But(old(Word()), 1) else old(Word())
    {
      var m := StemMeasure(k);
      if m > 0 {
        MeasureNeedsTwo(Word(), StemLen());
        Drop(1);
      }
    }

    method Step1cInPlace()
      requires Valid()
      modifies this`j, b
      ensures Framed() && Word() == Step1c(old(Word()))
    {
      var y := Ends("y");
      if y {
        var vowel := VowelInStem();
        if vowel {
          b[k] := 'i';
        }
      }
    }

    /** The tests of one case of a switch, in order, up to the first hit. */
    method TryInOrder(rs: Rules)
      requires Valid() && Chainable(rs) && NoLookBehind(rs)
      modifies this`j, this`k, b
      ensures Framed()
      ensures (FirstMatches(rs, old(Word())); Word() == Chosen(old(Word()), First(rs, old(Word())), 0))
      decreases rs
    {
      match rs
      case Nil =>
      case Then(x, rest) =>
        var hit := Try(x.suffix, x.to);
        if !hit {
          assert b[..] == old(b[..]);
          TryInOrder(rest);
        }
    }

    method Step2InPlace()
      requires Valid()
      modifies this`j, this`k, b
      ensures Framed() && Word() == Step2(old(Word()))
    {
      var c := At(k - 1);
      Step2Dispatch(Word(), c);
      Chainable2(c);
      TryInOrder(Case2(c));
    }

    method Step3InPlace()
      requires Valid()
      modifies this`j, this`k, b
      ensures Framed() && Word() == Step3(old(Word()))
    {
      var c := b[k];
      Step3Dispatch(Word(), c);
      Chainable3(c);
      TryInOrder(Case3(c));
    }

    /** The tests of one case of step 4: stops with `j` at the stem of the suffix that may be taken off. */
    method FindSuffix(rs: Rules) returns (hit: bool)
      requires Valid() && Chainable(rs)
      modifies this`j
      ensures var r := First(rs, Word());
              if hit then r.Some? && |r.value.suffix| <= |Word()| && j == k - |r.value.suffix|
              else r.Some? ==> r.value.afterST && |r.value.suffix| <= |Word()| && !AfterST(k - |r.value.suffix|)
      ensures hit && First(rs, Word()).value.afterST ==> AfterST(j)
      decreases rs
    {
      match rs
      case Nil => hit := false;
      case Then(x, rest) =>
        var e := Ends(x.suffix);
        if e && (!x.afterST || AfterST(j)) {
          return true;
        }
        if e {
          LastAgrees(Word(), x.suffix);
          OtherLastMisses(rest, Word(), Last(Word()));
        }
        hit := FindSuffix(rest);
    }

    predicate AfterST(i: int)
      requires Valid() && k0 - 1 <= i <= k
      reads this, b
    {
      At(i) == 's' || At(i) == 't'
    }

    /** Finds a suffix and cuts it off if the stem measures more than one. */
    method CutSuffix(rs: Rules)
      requires Valid() && Chainable(rs) && NoReplacement(rs)
      modifies this`j, this`k
      ensures Framed()
      ensures (FirstMatches(rs, old(Word())); Word() == Chosen(old(Word()), First(rs, old(Word())), 1))
    {
      ghost var w := Word();
      FirstMatches(rs, w);
      FirstHasNoReplacement(rs, w);
      ghost var r := First(rs, w);
      var hit := FindSuffix(rs);
      if hit {
        CutMarked(w, r.value);
      } else if r.Some? {
        CutResult(w, r.value, false);
      }
    }

    /** Takes off the suffix behind `j` if the stem in front of it has measure over 1. */
    method CutMarked(ghost w: string, ghost x: Rule)
      requires Valid() && w == Word() && x.to == "" && EndsWith(w, x.suffix) && j == k - |x.suffix|
      requires x.afterST && |w| > |x.suffix| ==> STBefore(w, |w| - |x.suffix|)
      modifies this`k
      ensures Framed() && Word() == Apply(w, x, 1)
    {
      var m := StemMeasure(k);
      if m > 1 {
        MeasureNeedsTwo(w, StemLen());
      }
      CutResult(w, x, m > 1);
      if m > 1 {
        Drop(k - j);
      }
    }

    method Step4InPlace()
      requires Valid()
      modifies this`j, this`k
      ensures Framed() && Word() == Step4(old(Word()))
    {
      var c := At(k - 1);
      Step4Dispatch(Word(), c);
      Chainable4(c);
      CutSuffix(Case4(c));
    }

    /** A final e goes, if the stem that `j` marks is long enough. */
    method DropFinalE(ghost w: string)
      requires Valid() && w == Word() && j == k
      modifies this`k
      ensures Framed() && Word() == WithoutFinalE(w) && k >= old(k) - 1
    {
      if b[k] == 'e' {
        var a := StemMeasure(k);
        if a > 1 || (a == 1 && !ConsVowelConsAt(k - 1)) {
          MeasureNeedsTwo(w, |w|);
          Drop(1);
        }
      }
    }

    /** A final ll becomes l, if the stem that `j` marks, which is the word as it came, is long enough. */
    method UndoubleL(ghost w: string)
      requires Valid() && k <= j < b.Length && w == b[k0..j + 1]
      modifies this`k
      ensures Framed() && Word() == WithSingleL(old(Word()), Measure(w, |w|))
    {
      if b[k] == 'l' && DoubleAt(k) {
        var a := StemMeasure(j);
        if a > 1 {
          Drop(1);
        }
      }
    }

    method Step5InPlace()
      requires Valid()
      modifies this`j, this`k
      ensures Framed() && Word() == Step5(old(Word()))
    {
      ghost var w := Word();
      j := k;
      DropFinalE(w);
      UndoubleL(w);
    }

    method Step1InPlace(ghost w: string, ghost v: string)
      requires Valid() && k >= k0 + 2 && w == Word() && IsStep1(w, v)
      modifies this`j, this`k, b
      ensures Framed() && Word() == v
    {
      assert v == Step1(w);
      Step1aInPlace();
      Step1bInPlace();
      Step1cInPlace();
    }

    method Steps2To5InPlace(ghost w: string, ghost v: string)
      requires Valid() && w == Word() && IsSteps2To5(w, v)
      modifies this`j, this`k, b
      ensures Framed() && Word() == v
    {
      assert v == Steps2To5(w);
      Step2InPlace();
      Step3InPlace();
      Step4InPlace();
      Step5InPlace();
    }

    /** stem(): the steps in order; words of one or two letters are left alone. */
    method Run(ghost w: string, ghost v: string)
      requires Valid() && w == Word() && IsStem(w, v)
      modifies this`j, this`k, b
      ensures Framed() && Word() == v
    {
      ghost var x := Parts(w, v);
      if k <= k0 + 1 {
        return;
      }
      Step1InPlace(w, x);
      Steps2To5InPlace(x, v);
    }
  }

  // `v` is what the steps make of `w`, said so that the steps are not looked into where they are only passed on.

  ghost predicate IsStep1(w: string, v: string) {
    forall u :: u == w && |u| >= 3 ==> v == Step1(u)
  }

  ghost predicate IsSteps2To5(w: string, v: string) {
    forall u :: u == w && u != "" ==> v == Steps2To5(u)
  }

  ghost predicate IsStem(w: string, v: string) {
    forall u :: u == w ==> v == Stem(u)
  }

  lemma {:induction false} Parts(w: string, v: string) returns (x: string)
    requires IsStem(w, v)
    ensures |w| <= 2 ==> v == w
    ensures |w| > 2 ==> x != "" && IsStep1(w, x) && IsSteps2To5(x, v)
  {
    assert v == Stem(w);
    x := if |w| > 2 then Step1(w) else w;
  }

  lemma {:induction false} IsStemShortened(w: string, v: string)
    requires IsStem(w, v) && w != ""
    ensures Shortened(v, w)
  {
    assert v == Stem(w);
  }

  /** Sets a stemmer up on p[i..j] and runs it. */
  method StemWord(p: array<char>, i: nat, j: nat, before: char, ghost w: string, ghost v: string) returns (k: int)
    requires i <= j < p.Length && w == p[i..j + 1] && IsStem(w, v)
    modifies p
    ensures i <= k <= j && p[i..k + 1] == v
    ensures forall h :: 0 <= h <= i || j < h < p.Length ==> p[h] == old(p[h])
  {
    IsStemShortened(w, v);
    var s := new Stemmer(p, i, j, before);
    s.Run(w, v);
    k := s.k;
    assert p[i] == v[0] == w[0];
  }

  /** Stems p[i..j] in place and gives the new end. `before` stands for the byte in front of `p`; the result does not
      depend on it, nor on p[i - 1]. */
  method StemInPlace(p: array<char>, i: nat, j: nat, before: char) returns (k: int)
    requires i <= j < p.Length
    modifies p
    ensures i <= k <= j
    ensures p[i..k + 1] == Stem(old(p[i..j + 1]))
    ensures forall h :: 0 <= h <= i || j < h < p.Length ==> p[h] == old(p[h])
  {
    ghost var w := p[i..j + 1];
    k := StemWord(p, i, j, before, w, Stem(w));
  }
}
