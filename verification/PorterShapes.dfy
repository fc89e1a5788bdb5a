/** The steps of the algorithm said by the shape of the word: a stem and a suffix, and what comes out. */
module PorterShapes {
  import opened Collections
  import opened Porter

  // ---------------------------------------------------------------- letters and measure

  /** A vowel letter is never a consonant, y is one at the start and behind a vowel, every other letter is one. */
  lemma {:induction false} Letters(w: string, i: nat)
    requires i < |w|
    ensures w[i] in {'a', 'e', 'i', 'o', 'u'} ==> !Cons(w, i)
    ensures w[i] == 'y' && i == 0 ==> Cons(w, i)
    ensures w[i] !in {'a', 'e', 'i', 'o', 'u', 'y'} ==> Cons(w, i)
  {
  }

  /** In a run of y from `a` on, consonants and vowels alternate; the first is a consonant at the start of the word and
      behind a vowel letter. */
  lemma {:induction false} RunOfY(w: string, a: nat, i: nat)
    requires a <= i < |w| && (forall h :: a <= h <= i ==> w[h] == 'y') && (a > 0 ==> w[a - 1] != 'y')
    ensures Cons(w, i) <==> (((i - a) % 2 == 0) <==> (a == 0 || w[a - 1] in {'a', 'e', 'i', 'o', 'u'}))
    decreases i
  {
    if i > a {
      RunOfY(w, a, i - 1);
    }
  }

  predicate Boundary(w: string, i: nat)
    requires 0 < i < |w|
  {
    !Cons(w, i - 1) && Cons(w, i)
  }

  /** The letters among the first `n` that are consonants behind a vowel. */
  ghost function Boundaries(w: string, n: nat): (s: set<nat>)
    requires n <= |w|
  {
    set i: nat | 0 < i < n && Boundary(w, i)
  }

  /** The measure is the number of vowel-to-consonant boundaries. */
  lemma {:induction false} MeasureCounts(w: string, n: nat)
    requires n <= |w|
    ensures Measure(w, n) == |Boundaries(w, n)|
  {
    if n < 2 {
      assert Boundaries(w, n) == {};
    } else {
      MeasureCounts(w, n - 1);
      var last := if !Cons(w, n - 2) && Cons(w, n - 1) then {n - 1} else {};
      assert Boundaries(w, n) == Boundaries(w, n - 1) + last;
    }
  }

  // ---------------------------------------------------------------- suffixes

  lemma {:induction false} EndsIff(w: string, s: string)
    ensures EndsWith(w, s) <==> |s| <= |w| && w[|w| - |s|..] == s
  {
    if |s| <= |w| {
      EndsAlikeAt(w, s, |s|);
      if w[|w| - |s|..] == s {
        assert forall i :: |w| - |s| <= i < |w| ==> w[i] == w[|w| - |s|..][i - |w| + |s|];
      }
    }
  }

  lemma {:induction false} EndsOwn(v: string, s: string)
    ensures EndsWith(v + s, s) && But(v + s, |s|) == v
  {
    EndsIff(v + s, s);
  }

  /** A suffix no longer than `s` is one of `v + s` exactly when it is one of `s`. */
  lemma {:induction false} EndsWithin(v: string, s: string, t: string)
    requires |t| <= |s|
    ensures EndsWith(v + s, t) <==> EndsWith(s, t)
  {
    EndsIff(v + s, t);
    EndsIff(s, t);
    assert (v + s)[|v + s| - |t|..] == s[|s| - |t|..];
  }

  lemma {:induction false} ConsOfPrefix(v: string, s: string, i: nat)
    requires i < |v|
    ensures Cons(v + s, i) == Cons(v, i)
  {
    if i > 0 {
      ConsOfPrefix(v, s, i - 1);
    }
  }

  /** What is said of the first letters of a word does not depend on the rest. */
  lemma {:induction false} PrefixMeasure(v: string, s: string, n: nat)
    requires n <= |v|
    ensures Measure(v + s, n) == Measure(v, n)
  {
    if n >= 2 {
      PrefixMeasure(v, s, n - 1);
      ConsOfPrefix(v, s, n - 1);
      ConsOfPrefix(v, s, n - 2);
    }
  }

  lemma {:induction false} PrefixVowel(v: string, s: string)
    ensures HasVowel(v + s, |v|) <==> HasVowel(v, |v|)
  {
    forall i | 0 <= i < |v| ensures Cons(v + s, i) == Cons(v, i) {
      ConsOfPrefix(v, s, i);
    }
  }

  // ---------------------------------------------------------------- steps 2, 3 and 4

  predicate InRules(rs: Rules, x: Rule) {
    match rs
    case Nil => false
    case Then(y, rest) => x == y || InRules(rest, x)
  }

  /** `v` is `w` with the longest suffix that a rule of the list names rewritten, if the stem measures more than `least`
      and the rule's condition on the letter in front holds; and `w` itself otherwise. */
  ghost predicate LongestRewritten(rs: Rules, w: string, least: nat, v: string) {
    || (v == w && forall y :: InRules(rs, y) ==> !EndsWith(w, y.suffix))
    || exists x, u: string ::
         && InRules(rs, x) && w == u + x.suffix
         && (forall y :: InRules(rs, y) && EndsWith(w, y.suffix) ==> |y.suffix| <= |x.suffix|)
         && v == if Measure(u, |u|) > least && (x.afterST ==> u != "" && u[|u| - 1] in {'s', 't'}) then u + x.to else w
  }

  lemma {:induction false} LongestIs(rs: Rules, w: string)
    ensures var r := Longest(rs, w);
            && (r.None? ==> forall y :: InRules(rs, y) ==> !EndsWith(w, y.suffix))
            && (r.Some? ==> InRules(rs, r.value) && EndsWith(w, r.value.suffix))
            && (r.Some? ==> forall y :: InRules(rs, y) && EndsWith(w, y.suffix) ==> |y.suffix| <= |r.value.suffix|)
  {
    if rs.Then? {
      LongestIs(rs.rest, w);
    }
  }

  lemma {:induction false} ScanRewrites(rs: Rules, w: string, least: nat)
    ensures LongestRewritten(rs, w, least, Scan(rs, w, least))
  {
    LongestIs(rs, w);
    LongestMatches(rs, w);
    var r := Longest(rs, w);
    if r.Some? {
      var x := r.value;
      var u := w[..|w| - |x.suffix|];
      SuffixSplits(w, x.suffix);
      PrefixMeasure(u, x.suffix, |u|);
      RewrittenBy(rs, w, least, Scan(rs, w, least), x, u);
    }
  }

  lemma {:induction false} RewrittenBy(rs: Rules, w: string, least: nat, v: string, x: Rule, u: string)
    requires InRules(rs, x) && w == u + x.suffix
    requires forall y :: InRules(rs, y) && EndsWith(w, y.suffix) ==> |y.suffix| <= |x.suffix|
    requires v == if Measure(u, |u|) > least && (x.afterST ==> u != "" && u[|u| - 1] in {'s', 't'}) then u + x.to else w
    ensures LongestRewritten(rs, w, least, v)
  {
  }

  /** Steps 2 to 4 rewrite the longest suffix of their lists. */
  lemma {:induction false} StepsRewrite(w: string)
    ensures LongestRewritten(Rules2(), w, 0, Step2(w))
    ensures LongestRewritten(Rules3(), w, 0, Step3(w))
    ensures LongestRewritten(Rules4(), w, 1, Step4(w))
  {
    ScanRewrites(Rules2(), w, 0);
    ScanRewrites(Rules3(), w, 0);
    ScanRewrites(Rules4(), w, 1);
  }

  // ---------------------------------------------------------------- step 1a

  lemma {:induction false} Step1aShapes(v: string)
    ensures Step1a(v + "sses") == v + "ss"
    ensures Step1a(v + "ies") == v + "i"
    ensures Step1a(v + "ss") == v + "ss"
  {
    Sses(v);
    Ies(v);
    Ss(v);
  }

  lemma {:induction false} Sses(v: string)
    ensures Step1a(v + "sses") == v + "ss"
  {
    EndsOwn(v, "sses");
    assert But(v + "sses", 2) == v + "ss";
  }

  lemma {:induction false} Ies(v: string)
    ensures Step1a(v + "ies") == v + "i"
  {
    EndsOwn(v, "ies");
    LetterApart(v + "ies", "sses", 3);
  }

  lemma {:induction false} Ss(v: string)
    ensures Step1a(v + "ss") == v + "ss"
  {
    LetterApart(v + "ss", "sses", 2);
    LetterApart(v + "ss", "ies", 2);
  }

  /** A word does not end with `t` when a letter near the end is another one. */
  lemma {:induction false} LetterApart(w: string, t: string, d: nat)
    requires 0 < d <= |w| && d <= |t| && w[|w| - d] != t[|t| - d]
    ensures !EndsWith(w, t)
  {
    if |t| <= |w| {
      EndsAlikeAt(w, t, |t|);
    }
  }

  lemma {:induction false} EndsOneMore(u: string, t: string, c: char)
    ensures EndsWith(u + [c], t + [c]) <==> EndsWith(u, t)
  {
    EndsIff(u + [c], t + [c]);
    EndsIff(u, t);
    if |t| <= |u| {
      assert (u + [c])[|u| - |t|..] == u[|u| - |t|..] + [c];
      assert (t + [c])[..|t|] == t && (u[|u| - |t|..] + [c])[..|t|] == u[|u| - |t|..];
    }
  }

  /** A single s goes, except in -ies and -sses. */
  lemma {:induction false} Step1aPlain(u: string)
    requires u != "" && Last(u) != 's' && !EndsWith(u, "ie") && !EndsWith(u, "sse")
    ensures Step1a(u + "s") == u
  {
    assert "sse" + ['s'] == "sses" && "ie" + ['s'] == "ies" && u + ['s'] == u + "s";
    EndsOneMore(u, "sse", 's');
    EndsOneMore(u, "ie", 's');
    assert But(u + "s", 1) == u;
  }

  lemma {:induction false} Step1aStays(w: string)
    requires |w| >= 2 && Last(w) != 's'
    ensures Step1a(w) == w
  {
  }

  // ---------------------------------------------------------------- step 1b

  lemma {:induction false} Step1bEed(v: string)
    ensures Step1b(v + "eed") == if Measure(v, |v|) > 0 then v + "ee" else v + "eed"
  {
    EndsOwn(v, "eed");
    PrefixMeasure(v, "eed", |v|);
    assert But(v + "eed", 1) == v + "ee";
  }

  /** -ed and -ing go when a vowel is left in front of them, and the rest is repaired; -eed is another matter. */
  lemma {:induction false} Step1bEnding(v: string, s: string)
    requires s == "ing" || (s == "ed" && !EndsWith(v, "e"))
    ensures Step1b(v + s) == if HasVowel(v, |v|) then Repaired(v) else v + s
  {
    EndsOwn(v, s);
    PrefixVowel(v, s);
    if s == "ing" {
      EndsWithin(v, "ing", "eed");
      EndsWithin(v, "ing", "ed");
    } else {
      assert "e" + "ed" == "eed";
      EndsBehind(v, "e", "ed");
    }
  }

  lemma {:induction false} EndsBehind(v: string, t: string, s: string)
    ensures EndsWith(v + s, t + s) <==> EndsWith(v, t)
  {
    EndsIff(v + s, t + s);
    EndsIff(v, t);
    if |t| <= |v| {
      assert (v + s)[|v| - |t|..] == v[|v| - |t|..] + s;
      assert (t + s)[..|t|] == t && (v[|v| - |t|..] + s)[..|t|] == v[|v| - |t|..];
    }
  }

  lemma {:induction false} EedIsEd(w: string)
    ensures EndsWith(w, "eed") ==> EndsWith(w, "ed")
  {
    if EndsWith(w, "eed") {
      SuffixSplits(w, "eed");
      EndsWithin(w[..|w| - 3], "eed", "ed");
    }
  }

  lemma {:induction false} Step1bStays(w: string)
    requires !EndsWith(w, "ed") && !EndsWith(w, "ing")
    ensures Step1b(w) == w
  {
    EedIsEd(w);
  }

  lemma {:induction false} VowelInside(v: string, i: nat)
    requires i < |v| && v[i] in {'a', 'e', 'i', 'o', 'u'}
    ensures HasVowel(v, |v|)
  {
    assert !Cons(v, i);
  }

  /** -at, -bl and -iz get their e back. */
  lemma {:induction false} Step1bE(x: string, s: string)
    requires s == "ed" || s == "ing"
    ensures Step1b(x + "at" + s) == x + "ate"
    ensures Step1b(x + "iz" + s) == x + "ize"
    ensures HasVowel(x, |x|) ==> Step1b(x + "bl" + s) == x + "ble"
  {
    OneE(x, "at", s);
    OneE(x, "iz", s);
    OneE(x, "bl", s);
    VowelInside(x + "at", |x|);
    VowelInside(x + "iz", |x|);
    if HasVowel(x, |x|) {
      VowelStays(x, "bl");
    }
    assert x + "at" + "e" == x + "ate" && x + "iz" + "e" == x + "ize" && x + "bl" + "e" == x + "ble";
  }

  lemma {:induction false} VowelStays(x: string, t: string)
    requires HasVowel(x, |x|)
    ensures HasVowel(x + t, |x + t|)
  {
    var i :| 0 <= i < |x| && !Cons(x, i);
    ConsOfPrefix(x, t, i);
  }

  lemma {:induction false} OneE(x: string, t: string, s: string)
    requires (s == "ed" || s == "ing") && (t == "at" || t == "iz" || t == "bl")
    ensures HasVowel(x + t, |x + t|) ==> Step1b(x + t + s) == x + t + "e"
  {
    EndsOwn(x, t);
    EndsWithin(x, t, "e");
    Step1bEnding(x + t, s);
  }

  /** A doubled consonant other than l, s and z is undone. */
  lemma {:induction false} Step1bDouble(x: string, c: char, s: string)
    requires (s == "ed" || s == "ing") && HasVowel(x, |x|) && c !in {'a', 'e', 'i', 'o', 'u', 'y'}
    ensures Step1b(x + [c, c] + s) == if c in {'l', 's', 'z'} then x + [c, c] else x + [c]
  {
    var v := x + [c, c];
    VowelStays(x, [c, c]);
    EndsWithin(x, [c, c], "e");
    EndsWithin(x, [c, c], "at");
    EndsWithin(x, [c, c], "bl");
    EndsWithin(x, [c, c], "iz");
    EndsIff([c, c], "e");
    EndsIff([c, c], "at");
    EndsIff([c, c], "bl");
    EndsIff([c, c], "iz");
    assert [c, c][0] == [c, c][1] == c && [c, c][0..] == [c, c] && [c, c][1..] == [c];
    assert "at"[0] != "at"[1] && "bl"[0] != "bl"[1] && "iz"[0] != "iz"[1] && "e"[0] == 'e';
    Step1bEnding(v, s);
    assert v[|v| - 1] == v[|v| - 2] == c;
    assert But(v, 1) == x + [c];
  }

  /** A short stem that ends consonant, vowel, consonant gets an e; any other one stays as it is. */
  lemma {:induction false} Step1bShort(v: string, s: string)
    requires (s == "ing" || (s == "ed" && !EndsWith(v, "e"))) && HasVowel(v, |v|)
    requires !EndsWith(v, "at") && !EndsWith(v, "bl") && !EndsWith(v, "iz")
    requires |v| >= 2 && Cons(v, |v| - 1) ==> v[|v| - 1] != v[|v| - 2]
    ensures var n := |v|;
            Step1b(v + s) ==
              if n >= 3 && Measure(v, n) == 1 && Cons(v, n - 3) && !Cons(v, n - 2) && Cons(v, n - 1)
                 && v[n - 1] !in {'w', 'x', 'y'}
              then v + "e" else v
  {
    Step1bEnding(v, s);
  }

  // ---------------------------------------------------------------- steps 1c and 5

  lemma {:induction false} Step1cShapes(v: string)
    ensures Step1c(v + "y") == if HasVowel(v, |v|) then v + "i" else v + "y"
    ensures v != "" && Last(v) != 'y' ==> Step1c(v) == v
  {
    EndsOwn(v, "y");
    PrefixVowel(v, "y");
    LastAgrees(v, "y");
  }

  lemma {:induction false} EndsDouble(u: string)
    requires u != ""
    ensures DoubleCons(u, |u|) && Last(u) == 'l' <==> EndsWith(u, "ll")
  {
    EndsIff(u, "ll");
    if |u| >= 2 {
      assert u[|u| - 2..][0] == u[|u| - 2] && u[|u| - 2..][1] == u[|u| - 1];
      assert u[|u| - 2] == u[|u| - 1] == 'l' ==> u[|u| - 2..] == "ll";
    }
  }

  /** A final e goes when the stem measures more than one, or one and does not end in a short syllable; after that, and
      without an e, ll becomes l when the word measures more than one. */
  lemma {:induction false} Step5Shapes(v: string)
    requires v != ""
    ensures var m, n := Measure(v, |v|), |v|;
            var short := n >= 3 && Cons(v, n - 3) && !Cons(v, n - 2) && Cons(v, n - 1)
                         && v[n - 1] !in {'w', 'x', 'y'};
            Step5(v + "e") == if m > 1 && EndsWith(v, "ll") then But(v, 1)
                              else if m > 1 || (m == 1 && !short) then v
                              else v + "e"
    ensures Last(v) != 'e' ==>
              Step5(v) == if Measure(v, |v|) > 1 && EndsWith(v, "ll") then But(v, 1) else v
  {
    Step5E(v);
    EndsDouble(v);
  }

  lemma {:induction false} Step5E(v: string)
    requires v != ""
    ensures var m := Measure(v, |v|);
            Step5(v + "e") == if m > 1 && EndsWith(v, "ll") then But(v, 1)
                              else if m > 1 || (m == 1 && !ConsVowelCons(v, |v|)) then v
                              else v + "e"
  {
    var w := v + "e";
    PrefixMeasure(v, "e", |v|);
    assert Measure(w, |w|) == Measure(v, |v|);
    PrefixShort(v, "e");
    assert But(w, 1) == v;
    EndsDouble(v);
  }

  lemma {:induction false} PrefixShort(v: string, s: string)
    ensures ConsVowelCons(v + s, |v|) <==> ConsVowelCons(v, |v|)
  {
    if |v| >= 3 {
      ConsOfPrefix(v, s, |v| - 1);
      ConsOfPrefix(v, s, |v| - 2);
      ConsOfPrefix(v, s, |v| - 3);
    }
  }

  // ---------------------------------------------------------------- one word all the way

  /** -ational becomes -ate behind any stem that measures something. */
  lemma {:induction false} Ational(v: string)
    ensures Step2(v + "ational") == if Measure(v, |v|) > 0 then v + "ate" else v + "ational"
  {
    var w := v + "ational";
    EndsOwn(v, "ational");
    PrefixMeasure(v, "ational", |v|);
    assert "ational"[5] == 'a';
    assert w[|w| - 2] == 'a';
    Step2Dispatch(w, 'a');
    FirstMatches(Case2('a'), w);
  }

  /** The steps and their order; words of one or two letters stay. */
  lemma {:induction false} StemInSteps(w: string, a: string, d: string)
    requires |w| > 2 ==> a == Step1c(Step1b(Step1a(w)))
    requires |w| > 2 ==> d == Step4(Step3(Step2(a)))
    ensures |w| <= 2 ==> Stem(w) == w
    ensures |w| > 2 ==> d != "" && Stem(w) == Step5(d)
  {
    if |w| > 2 {
      FirstSteps(w);
      LastSteps(a);
    }
  }

  lemma {:induction false} FirstSteps(w: string)
    requires |w| > 2
    ensures Step1(w) == Step1c(Step1b(Step1a(w))) && Step1(w) != ""
  {
  }

  lemma {:induction false} LastSteps(a: string)
    requires a != ""
    ensures Step4(Step3(Step2(a))) != "" && Steps2To5(a) == Step5(Step4(Step3(Step2(a))))
  {
  }
}
