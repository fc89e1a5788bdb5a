/** The suffix-stripping algorithm on words: letters, measure, rule tables and the steps. */
module Porter {
  import opened Collections

  predicate VowelLetter(c: char) {
    c == 'a' || c == 'e' || c == 'i' || c == 'o' || c == 'u'
  }

  /** Letter `i` is a consonant; a y is one at the start and after a vowel. */
  predicate Cons(w: string, i: nat)
    requires i < |w|
  {
    if VowelLetter(w[i]) then false
    else if w[i] == 'y' then i == 0 || !Cons(w, i - 1)
    else true
  }

  /** The number of places in the first `n` letters where a vowel is followed by a consonant. */
  function Measure(w: string, n: nat): (m: nat)
    requires n <= |w|
  {
    if n < 2 then 0 else Measure(w, n - 1) + if !Cons(w, n - 2) && Cons(w, n - 1) then 1 else 0
  }

  predicate HasVowel(w: string, n: nat)
    requires n <= |w|
  {
    exists i :: 0 <= i < n && !Cons(w, i)
  }

  /** The first `n` letters end in a double consonant. */
  predicate DoubleCons(w: string, n: nat)
    requires n <= |w|
  {
    2 <= n && w[n - 1] == w[n - 2] && Cons(w, n - 1)
  }

  /** The first `n` letters end consonant, vowel, consonant, the last one not w, x or y. */
  predicate ConsVowelCons(w: string, n: nat)
    requires n <= |w|
  {
    3 <= n && Cons(w, n - 1) && !Cons(w, n - 2) && Cons(w, n - 3)
    && w[n - 1] != 'w' && w[n - 1] != 'x' && w[n - 1] != 'y'
  }

  /** The last `n` letters agree. */
  predicate EndsAlike(w: string, s: string, n: nat)
    requires n <= |w| && n <= |s|
  {
    n == 0 || (w[|w| - n] == s[|s| - n] && EndsAlike(w, s, n - 1))
  }

  predicate EndsWith(w: string, s: string) {
    |s| <= |w| && EndsAlike(w, s, |s|)
  }

  lemma {:induction false} EndsAlikeAt(w: string, s: string, n: nat)
    requires n <= |w| && n <= |s|
    ensures EndsAlike(w, s, n) <==> forall i :: |w| - n <= i < |w| ==> w[i] == s[i - |w| + |s|]
  {
    if n > 0 {
      EndsAlikeAt(w, s, n - 1);
    }
  }

  lemma {:induction false} LastAgrees(w: string, s: string)
    requires s != ""
    ensures EndsWith(w, s) ==> w[|w| - 1] == s[|s| - 1]
  {
    if EndsWith(w, s) {
      EndsAlikeAt(w, s, |s|);
    }
  }

  lemma {:induction false} SuffixSplits(w: string, s: string)
    requires EndsWith(w, s)
    ensures w == w[..|w| - |s|] + s
  {
    EndsAlikeAt(w, s, |s|);
  }

  function Last(w: string): (c: char)
    requires w != ""
  {
    w[|w| - 1]
  }

  function But(w: string, n: nat): (v: string)
    requires n <= |w|
  {
    w[..|w| - n]
  }

  /** A rewriting rule; `afterST` asks for an s or t in front of the suffix. */
  datatype Rule = Rule(suffix: string, to: string, afterST: bool)

  datatype Rules = Nil | Then(rule: Rule, rest: Rules)

  function Append(a: Rules, b: Rules): (r: Rules) {
    match a
    case Nil => b
    case Then(x, rest) => Then(x, Append(rest, b))
  }

  /** The rule whose suffix is the longest one that `w` ends with. */
  function Longest(rs: Rules, w: string): (r: Option<Rule>) {
    match rs
    case Nil => None
    case Then(x, rest) =>
      var best := Longest(rest, w);
      if EndsWith(w, x.suffix) && (best.None? || |x.suffix| > |best.value.suffix|) then Some(x) else best
  }

  /** The first rule in the list whose suffix `w` ends with. */
  function First(rs: Rules, w: string): (r: Option<Rule>) {
    match rs
    case Nil => None
    case Then(x, rest) => if EndsWith(w, x.suffix) then Some(x) else First(rest, w)
  }

  /** Rewrites when the stem in front of the suffix measures more than `least`. */
  function Apply(w: string, x: Rule, least: nat): (v: string)
    requires EndsWith(w, x.suffix)
  {
    var n := |w| - |x.suffix|;
    if Measure(w, n) > least && (x.afterST ==> STBefore(w, n)) then w[..n] + x.to else w
  }

  function Chosen(w: string, r: Option<Rule>, least: nat): (v: string)
    requires r.Some? ==> EndsWith(w, r.value.suffix)
  {
    if r.None? then w else Apply(w, r.value, least)
  }

  lemma {:induction false} LongestMatches(rs: Rules, w: string)
    ensures var r := Longest(rs, w); r.Some? ==> EndsWith(w, r.value.suffix)
  {
    if rs.Then? {
      LongestMatches(rs.rest, w);
    }
  }

  lemma {:induction false} FirstMatches(rs: Rules, w: string)
    ensures var r := First(rs, w); r.Some? ==> EndsWith(w, r.value.suffix)
  {
    if rs.Then? {
      FirstMatches(rs.rest, w);
    }
  }

  /** A step that scans its whole rule table for the longest match. */
  function Scan(rs: Rules, w: string, least: nat): (v: string) {
    LongestMatches(rs, w);
    Chosen(w, Longest(rs, w), least)
  }

  function R(suffix: string, to: string, rest: Rules): (r: Rules) {
    Then(Rule(suffix, to, false), rest)
  }

  /** The rules of step 2, by the last letter but one of the suffix. */
  function Case2(c: char): (r: Rules) {
    match c
    case 'a' => R("ational", "ate", R("tional", "tion", Nil))
    case 'c' => R("enci", "ence", R("anci", "ance", Nil))
    case 'e' => R("izer", "ize", Nil)
    case 'l' => R("bli", "ble", R("alli", "al", R("entli", "ent", R("eli", "e", R("ousli", "ous", Nil)))))
    case 'o' => R("ization", "ize", R("ation", "ate", R("ator", "ate", Nil)))
    case 's' => R("alism", "al", R("iveness", "ive", R("fulness", "ful", R("ousness", "ous", Nil))))
    case 't' => R("aliti", "al", R("iviti", "ive", R("biliti", "ble", Nil)))
    case 'g' => R("logi", "log", Nil)
    case _ => Nil
  }

  /** The rules of step 3, by the last letter of the suffix. */
  function Case3(c: char): (r: Rules) {
    match c
    case 'e' => R("icate", "ic", R("ative", "", R("alize", "al", Nil)))
    case 'i' => R("iciti", "ic", Nil)
    case 'l' => R("ical", "ic", R("ful", "", Nil))
    case 's' => R("ness", "", Nil)
    case _ => Nil
  }

  /** The suffixes of step 4, by the last letter but one. */
  function Case4(c: char): (r: Rules) {
    match c
    case 'a' => R("al", "", Nil)
    case 'c' => R("ance", "", R("ence", "", Nil))
    case 'e' => R("er", "", Nil)
    case 'i' => R("ic", "", Nil)
    case 'l' => R("able", "", R("ible", "", Nil))
    case 'n' => R("ant", "", R("ement", "", R("ment", "", R("ent", "", Nil))))
    case 'o' => Then(Rule("ion", "", true), R("ou", "", Nil))
    case 's' => R("ism", "", Nil)
    case 't' => R("ate", "", R("iti", "", Nil))
    case 'u' => R("ous", "", Nil)
    case 'v' => R("ive", "", Nil)
    case 'z' => R("ize", "", Nil)
    case _ => Nil
  }

  /** The rules a switch reaches, for the letters `cs` in order. */
  function All(f: char -> Rules, cs: string): (r: Rules) {
    if cs == "" then Nil else Append(f(cs[0]), All(f, cs[1..]))
  }

  const LETTERS2: string := "acelostg"
  const LETTERS3: string := "eils"
  const LETTERS4: string := "aceilnostuvz"

  /** Step 2 in the order of Porter 1980; -bli for -abli and the last rule are the marked departures. */
  function Rules2(): (r: Rules) {
    R("ational", "ate", R("tional", "tion", R("enci", "ence", R("anci", "ance", R("izer", "ize",
    R("bli", "ble", R("alli", "al", R("entli", "ent", R("eli", "e", R("ousli", "ous", R("ization", "ize",
    R("ation", "ate", R("ator", "ate", R("alism", "al", R("iveness", "ive", R("fulness", "ful",
    R("ousness", "ous", R("aliti", "al", R("iviti", "ive", R("biliti", "ble", R("logi", "log",
    Nil)))))))))))))))))))))
  }

  /** Step 3. */
  function Rules3(): (r: Rules) {
    R("icate", "ic", R("ative", "", R("alize", "al", R("iciti", "ic", R("ical", "ic", R("ful", "",
    R("ness", "", Nil)))))))
  }

  /** Step 4: what goes, and -ion only behind an s or a t. */
  function Rules4(): (r: Rules) {
    R("al", "", R("ance", "", R("ence", "", R("er", "", R("ic", "", R("able", "", R("ible", "", R("ant", "",
    R("ement", "", R("ment", "", R("ent", "", Then(Rule("ion", "", true), R("ou", "", R("ism", "",
    R("ate", "", R("iti", "", R("ous", "", R("ive", "", R("ize", "", Nil)))))))))))))))))))
  }

  /** The rules that the switches reach are those of the lists. */
  lemma {:induction false} AllStep(f: char -> Rules, c: char, cs: string, tail: string, rest: Rules, all: Rules)
    requires |cs| == |tail| + 1 && cs[0] == c && cs[1..] == tail && All(f, tail) == rest && Append(f(c), rest) == all
    ensures All(f, cs) == all
  {
  }

  lemma {:induction false} AllIs2Tail(r5: Rules)
    requires r5 ==
      R("alism", "al", R("iveness", "ive", R("fulness", "ful", R("ousness", "ous", R("aliti", "al",
      R("iviti", "ive", R("biliti", "ble", R("logi", "log", Nil))))))))
    ensures All(Case2, "stg") == r5
  {
    var r8: Rules := Nil;
    assert All(Case2, "") == r8;
    var r7 := R("logi", "log", r8);
    AllStep(Case2, 'g', "g", "", r8, r7);
    var r6 := R("aliti", "al", R("iviti", "ive", R("biliti", "ble", r7)));
    AllStep(Case2, 't', "tg", "g", r7, r6);
    assert r5 == R("alism", "al", R("iveness", "ive", R("fulness", "ful", R("ousness", "ous", r6))));
    AllStep(Case2, 's', "stg", "tg", r6, r5);
  }

  lemma {:induction false} AllIs2()
    ensures All(Case2, LETTERS2) == Rules2()
  {
    var r5 :=
      R("alism", "al", R("iveness", "ive", R("fulness", "ful", R("ousness", "ous", R("aliti", "al",
      R("iviti", "ive", R("biliti", "ble", R("logi", "log", Nil))))))));
    AllIs2Tail(r5);
    var r4 := R("ization", "ize", R("ation", "ate", R("ator", "ate", r5)));
    AllStep(Case2, 'o', "ostg", "stg", r5, r4);
    var r3 := R("bli", "ble", R("alli", "al", R("entli", "ent", R("eli", "e", R("ousli", "ous", r4)))));
    AllStep(Case2, 'l', "lostg", "ostg", r4, r3);
    var r2 := R("izer", "ize", r3);
    AllStep(Case2, 'e', "elostg", "lostg", r3, r2);
    var r1 := R("enci", "ence", R("anci", "ance", r2));
    AllStep(Case2, 'c', "celostg", "elostg", r2, r1);
    var r0 := R("ational", "ate", R("tional", "tion", r1));
    AllStep(Case2, 'a', "acelostg", "celostg", r1, r0);
  }

  lemma {:induction false} AllIs3()
    ensures All(Case3, LETTERS3) == Rules3()
  {
    var r4: Rules := Nil;
    assert All(Case3, "") == r4;
    var r3 := R("ness", "", r4);
    AllStep(Case3, 's', "s", "", r4, r3);
    var r2 := R("ical", "ic", R("ful", "", r3));
    AllStep(Case3, 'l', "ls", "s", r3, r2);
    var r1 := R("iciti", "ic", r2);
    AllStep(Case3, 'i', "ils", "ls", r2, r1);
    var r0 := R("icate", "ic", R("ative", "", R("alize", "al", r1)));
    AllStep(Case3, 'e', "eils", "ils", r1, r0);
  }

  lemma {:induction false} AllIs4Tail(r6: Rules)
    requires r6 ==
      Then(Rule("ion", "", true), R("ou", "", R("ism", "", R("ate", "", R("iti", "", R("ous", "", R("ive", "",
      R("ize", "", Nil))))))))
    ensures All(Case4, "ostuvz") == r6
  {
    var r12: Rules := Nil;
    assert All(Case4, "") == r12;
    var r11 := R("ize", "", r12);
    AllStep(Case4, 'z', "z", "", r12, r11);
    var r10 := R("ive", "", r11);
    AllStep(Case4, 'v', "vz", "z", r11, r10);
    var r9 := R("ous", "", r10);
    AllStep(Case4, 'u', "uvz", "vz", r10, r9);
    var r8 := R("ate", "", R("iti", "", r9));
    AllStep(Case4, 't', "tuvz", "uvz", r9, r8);
    var r7 := R("ism", "", r8);
    AllStep(Case4, 's', "stuvz", "tuvz", r8, r7);
    assert r6 == Then(Rule("ion", "", true), R("ou", "", r7));
    AllStep(Case4, 'o', "ostuvz", "stuvz", r7, r6);
  }

  lemma {:induction false} AllIs4Mid(r3: Rules, r6: Rules)
    requires All(Case4, "ostuvz") == r6
    requires r3 ==
      R("ic", "", R("able", "", R("ible", "", R("ant", "", R("ement", "", R("ment", "", R("ent", "", r6)))))))
    ensures All(Case4, "ilnostuvz") == r3
  {
    var r5 := R("ant", "", R("ement", "", R("ment", "", R("ent", "", r6))));
    AllStep(Case4, 'n', "nostuvz", "ostuvz", r6, r5);
    var r4 := R("able", "", R("ible", "", r5));
    AllStep(Case4, 'l', "lnostuvz", "nostuvz", r5, r4);
    assert r3 == R("ic", "", r4);
    AllStep(Case4, 'i', "ilnostuvz", "lnostuvz", r4, r3);
  }

  lemma {:induction false} AllIs4()
    ensures All(Case4, LETTERS4) == Rules4()
  {
    var r6 :=
      Then(Rule("ion", "", true), R("ou", "", R("ism", "", R("ate", "", R("iti", "", R("ous", "", R("ive", "",
      R("ize", "", Nil))))))));
    AllIs4Tail(r6);
    var r3 := R("ic", "", R("able", "", R("ible", "", R("ant", "", R("ement", "", R("ment", "", R("ent", "", r6)))))));
    AllIs4Mid(r3, r6);
    var r2 := R("er", "", r3);
    AllStep(Case4, 'e', "eilnostuvz", "ilnostuvz", r3, r2);
    var r1 := R("ance", "", R("ence", "", r2));
    AllStep(Case4, 'c', "ceilnostuvz", "eilnostuvz", r2, r1);
    var r0 := R("al", "", r1);
    AllStep(Case4, 'a', "aceilnostuvz", "ceilnostuvz", r1, r0);
  }

  /** Every suffix has `c` as its `d`-th letter from the end. */
  predicate Keyed(rs: Rules, c: char, d: nat)
    requires d > 0
  {
    match rs
    case Nil => true
    case Then(x, rest) => |x.suffix| >= d && x.suffix[|x.suffix| - d] == c && Keyed(rest, c, d)
  }

  /** No suffix in `rs` that is at least as long ends with `s`. */
  predicate Shadowed(rs: Rules, s: string) {
    match rs
    case Nil => true
    case Then(x, rest) => !(|x.suffix| >= |s| && EndsWith(x.suffix, s)) && Shadowed(rest, s)
  }

  /** Whenever two suffixes can match the same word, the longer one is tested first. */
  predicate LongFirst(rs: Rules) {
    match rs
    case Nil => true
    case Then(x, rest) => Shadowed(rest, x.suffix) && LongFirst(rest)
  }

  lemma {:induction false} KeyedHits(rs: Rules, c: char, d: nat, w: string)
    requires d > 0 && Keyed(rs, c, d)
    ensures First(rs, w).Some? || Longest(rs, w).Some? ==> |w| >= d && w[|w| - d] == c
  {
    if rs.Then? {
      KeyedHits(rs.rest, c, d, w);
      if EndsWith(w, rs.rule.suffix) {
        EndsAlikeAt(w, rs.rule.suffix, |rs.rule.suffix|);
      }
    }
  }

  lemma {:induction false} SuffixOfSuffix(w: string, s: string, t: string)
    requires EndsWith(w, s) && EndsWith(w, t) && |s| <= |t|
    ensures EndsWith(t, s)
  {
    EndsAlikeAt(w, s, |s|);
    EndsAlikeAt(w, t, |t|);
    forall i | |t| - |s| <= i < |t| ensures t[i] == s[i - |t| + |s|] {
      assert w[i + |w| - |t|] == t[i];
    }
    EndsAlikeAt(t, s, |s|);
  }

  lemma {:induction false} ShadowedIsShorter(rs: Rules, w: string, s: string)
    requires Shadowed(rs, s) && EndsWith(w, s)
    ensures var r := Longest(rs, w); r.Some? ==> |r.value.suffix| < |s|
  {
    if rs.Then? {
      ShadowedIsShorter(rs.rest, w, s);
      var t := rs.rule.suffix;
      if EndsWith(w, t) && |s| <= |t| {
        SuffixOfSuffix(w, s, t);
      }
    }
  }

  lemma {:induction false} FirstIsLongest(rs: Rules, w: string)
    requires LongFirst(rs)
    ensures First(rs, w) == Longest(rs, w)
  {
    if rs.Then? {
      FirstIsLongest(rs.rest, w);
      if EndsWith(w, rs.rule.suffix) {
        ShadowedIsShorter(rs.rest, w, rs.rule.suffix);
      }
    }
  }

  lemma {:induction false} LongestOfAppend(a: Rules, b: Rules, w: string)
    ensures Longest(a, w).None? ==> Longest(Append(a, b), w) == Longest(b, w)
    ensures Longest(b, w).None? ==> Longest(Append(a, b), w) == Longest(a, w)
  {
    if a.Then? {
      LongestOfAppend(a.rest, b, w);
    }
  }

  /** What a switch on the `d`-th letter from the end needs: one table per letter, keyed by it, long suffixes first. */
  ghost predicate Dispatch(f: char -> Rules, cs: string, d: nat) {
    && d > 0
    && (forall c :: Keyed(f(c), c, d) && LongFirst(f(c)))
    && (forall c :: c !in cs ==> f(c) == Nil)
    && (forall i, j :: 0 <= i < j < |cs| ==> cs[i] != cs[j])
  }

  lemma {:induction false} LongestByLetter(f: char -> Rules, cs: string, d: nat, w: string)
    requires d > 0 && (forall c :: Keyed(f(c), c, d)) && forall i, j :: 0 <= i < j < |cs| ==> cs[i] != cs[j]
    ensures Longest(All(f, cs), w) == if |w| >= d && w[|w| - d] in cs then Longest(f(w[|w| - d]), w) else None
    decreases cs
  {
    if cs != "" {
      var c := cs[0];
      LongestByLetter(f, cs[1..], d, w);
      LongestOfAppend(f(c), All(f, cs[1..]), w);
      KeyedHits(f(c), c, d, w);
    }
  }

  /** Testing only the suffixes of one letter, in order, finds what a scan of the whole table finds. */
  lemma {:induction false} DispatchIsScan(f: char -> Rules, cs: string, d: nat, w: string, c: char)
    requires Dispatch(f, cs, d) && (|w| >= d ==> c == w[|w| - d])
    ensures First(f(c), w) == Longest(All(f, cs), w)
  {
    LongestByLetter(f, cs, d, w);
    FirstIsLongest(f(c), w);
    KeyedHits(f(c), c, d, w);
  }

  lemma {:induction false} Rules2A()
    ensures Keyed(Case2('a'), 'a', 2) && LongFirst(Case2('a'))
  {
    var r2 := R("tional", "tion", Nil);
    assert Keyed(r2, 'a', 2) && LongFirst(r2);
    var r1 := R("ational", "ate", r2);
    assert Keyed(r1, 'a', 2) && LongFirst(r1);
  }

  lemma {:induction false} Rules2C()
    ensures Keyed(Case2('c'), 'c', 2) && LongFirst(Case2('c'))
  {
    var r2 := R("anci", "ance", Nil);
    assert Keyed(r2, 'c', 2) && LongFirst(r2);
    var r1 := R("enci", "ence", r2);
    assert Keyed(r1, 'c', 2) && LongFirst(r1);
  }

  lemma {:induction false} Rules2L()
    ensures Keyed(Case2('l'), 'l', 2) && LongFirst(Case2('l'))
  {
    var r5 := R("ousli", "ous", Nil);
    assert Keyed(r5, 'l', 2) && LongFirst(r5);
    var r4 := R("eli", "e", r5);
    assert Keyed(r4, 'l', 2) && LongFirst(r4);
    var r3 := R("entli", "ent", r4);
    assert Keyed(r3, 'l', 2) && LongFirst(r3);
    var r2 := R("alli", "al", r3);
    assert Keyed(r2, 'l', 2) && LongFirst(r2);
    var r1 := R("bli", "ble", r2);
    assert Keyed(r1, 'l', 2) && LongFirst(r1);
  }

  lemma {:induction false} Rules2O()
    ensures Keyed(Case2('o'), 'o', 2) && LongFirst(Case2('o'))
  {
    var r3 := R("ator", "ate", Nil);
    assert Keyed(r3, 'o', 2) && LongFirst(r3);
    var r2 := R("ation", "ate", r3);
    assert Keyed(r2, 'o', 2) && LongFirst(r2);
    var r1 := R("ization", "ize", r2);
    assert Keyed(r1, 'o', 2) && LongFirst(r1);
  }

  lemma {:induction false} Rules2S()
    ensures Keyed(Case2('s'), 's', 2) && LongFirst(Case2('s'))
  {
    var r4 := R("ousness", "ous", Nil);
    assert Keyed(r4, 's', 2) && LongFirst(r4);
    var r3 := R("fulness", "ful", r4);
    assert Keyed(r3, 's', 2) && LongFirst(r3);
    var r2 := R("iveness", "ive", r3);
    assert Keyed(r2, 's', 2) && LongFirst(r2);
    var r1 := R("alism", "al", r2);
    assert Keyed(r1, 's', 2) && LongFirst(r1);
  }

  lemma {:induction false} Rules2T()
    ensures Keyed(Case2('t'), 't', 2) && LongFirst(Case2('t'))
  {
    var r3 := R("biliti", "ble", Nil);
    assert Keyed(r3, 't', 2) && LongFirst(r3);
    assert !EndsAlike("biliti", "iviti", 4);
    var r2 := R("iviti", "ive", r3);
    assert Keyed(r2, 't', 2) && LongFirst(r2);
    var r1 := R("aliti", "al", r2);
    assert Keyed(r1, 't', 2) && LongFirst(r1);
  }

  lemma {:induction false} Letter2(c: char)
    ensures Keyed(Case2(c), c, 2) && LongFirst(Case2(c))
  {
    match c
    case 'a' => Rules2A();
    case 'c' => Rules2C();
    case 'l' => Rules2L();
    case 'o' => Rules2O();
    case 's' => Rules2S();
    case 't' => Rules2T();
    case _ =>
  }

  lemma {:induction false} Table2Dispatches()
    ensures Dispatch(Case2, LETTERS2, 2)
  {
    forall c ensures Keyed(Case2(c), c, 2) && LongFirst(Case2(c)) {
      Letter2(c);
    }
  }

  lemma {:induction false} Rules3E()
    ensures Keyed(Case3('e'), 'e', 1) && LongFirst(Case3('e'))
  {
    var r3 := R("alize", "al", Nil);
    assert Keyed(r3, 'e', 1) && LongFirst(r3);
    assert !EndsAlike("alize", "ative", 4);
    var r2 := R("ative", "", r3);
    assert Keyed(r2, 'e', 1) && LongFirst(r2);
    var r1 := R("icate", "ic", r2);
    assert Keyed(r1, 'e', 1) && LongFirst(r1);
  }

  lemma {:induction false} Rules3L()
    ensures Keyed(Case3('l'), 'l', 1) && LongFirst(Case3('l'))
  {
    var r2 := R("ful", "", Nil);
    assert Keyed(r2, 'l', 1) && LongFirst(r2);
    var r1 := R("ical", "ic", r2);
    assert Keyed(r1, 'l', 1) && LongFirst(r1);
  }

  lemma {:induction false} Letter3(c: char)
    ensures Keyed(Case3(c), c, 1) && LongFirst(Case3(c))
  {
    match c
    case 'e' => Rules3E();
    case 'l' => Rules3L();
    case _ =>
  }

  lemma {:induction false} Table3Dispatches()
    ensures Dispatch(Case3, LETTERS3, 1)
  {
    forall c ensures Keyed(Case3(c), c, 1) && LongFirst(Case3(c)) {
      Letter3(c);
    }
  }

  lemma {:induction false} Rules4C()
    ensures Keyed(Case4('c'), 'c', 2) && LongFirst(Case4('c'))
  {
    var r2 := R("ence", "", Nil);
    assert Keyed(r2, 'c', 2) && LongFirst(r2);
    var r1 := R("ance", "", r2);
    assert Keyed(r1, 'c', 2) && LongFirst(r1);
  }

  lemma {:induction false} Rules4L()
    ensures Keyed(Case4('l'), 'l', 2) && LongFirst(Case4('l'))
  {
    var r2 := R("ible", "", Nil);
    assert Keyed(r2, 'l', 2) && LongFirst(r2);
    var r1 := R("able", "", r2);
    assert Keyed(r1, 'l', 2) && LongFirst(r1);
  }

  lemma {:induction false} Rules4N()
    ensures Keyed(Case4('n'), 'n', 2) && LongFirst(Case4('n'))
  {
    var r4 := R("ent", "", Nil);
    assert Keyed(r4, 'n', 2) && LongFirst(r4);
    var r3 := R("ment", "", r4);
    assert Keyed(r3, 'n', 2) && LongFirst(r3);
    var r2 := R("ement", "", r3);
    assert Keyed(r2, 'n', 2) && LongFirst(r2);
    var r1 := R("ant", "", r2);
    assert Keyed(r1, 'n', 2) && LongFirst(r1);
  }

  lemma {:induction false} Rules4O()
    ensures Keyed(Case4('o'), 'o', 2) && LongFirst(Case4('o'))
  {
    var r2 := R("ou", "", Nil);
    assert Keyed(r2, 'o', 2) && LongFirst(r2);
    var r1 := Then(Rule("ion", "", true), r2);
    assert Keyed(r1, 'o', 2) && LongFirst(r1);
  }

  lemma {:induction false} Rules4T()
    ensures Keyed(Case4('t'), 't', 2) && LongFirst(Case4('t'))
  {
    var r2 := R("iti", "", Nil);
    assert Keyed(r2, 't', 2) && LongFirst(r2);
    var r1 := R("ate", "", r2);
    assert Keyed(r1, 't', 2) && LongFirst(r1);
  }

  lemma {:induction false} Letter4(c: char)
    ensures Keyed(Case4(c), c, 2) && LongFirst(Case4(c))
  {
    match c
    case 'c' => Rules4C();
    case 'l' => Rules4L();
    case 'n' => Rules4N();
    case 'o' => Rules4O();
    case 't' => Rules4T();
    case _ =>
  }

  lemma {:induction false} Table4Dispatches()
    ensures Dispatch(Case4, LETTERS4, 2)
  {
    forall c ensures Keyed(Case4(c), c, 2) && LongFirst(Case4(c)) {
      Letter4(c);
    }
    Letters4Distinct();
    forall c | c !in LETTERS4 ensures Case4(c) == Nil {
      Letters4Cover(c);
    }
  }

  lemma {:induction false} Letters4Distinct()
    ensures forall i, j :: 0 <= i < j < |LETTERS4| ==> LETTERS4[i] != LETTERS4[j]
  {
    var s := LETTERS4;
    assert s[0] == 'a' && s[1] == 'c' && s[2] == 'e' && s[3] == 'i' && s[4] == 'l' && s[5] == 'n';
    assert s[6] == 'o' && s[7] == 's' && s[8] == 't' && s[9] == 'u' && s[10] == 'v' && s[11] == 'z';
    assert forall i :: 0 <= i < 11 ==> s[i] < s[i + 1];
    assert forall i, j :: 0 <= i < j < |s| ==> s[i] != s[j];
  }

  lemma {:induction false} Letters4Cover(c: char)
    requires c !in LETTERS4
    ensures Case4(c) == Nil
  {
    var s := LETTERS4;
    assert s[0] == 'a' && s[1] == 'c' && s[2] == 'e' && s[3] == 'i' && s[4] == 'l' && s[5] == 'n';
    assert s[6] == 'o' && s[7] == 's' && s[8] == 't' && s[9] == 'u' && s[10] == 'v' && s[11] == 'z';
  }

  /** Plurals. */
  function WithoutS(w: string): (v: string)
    requires |w| >= 2
  {
    if EndsWith(w, "ies") then But(w, 3) + "i"
    else if w[|w| - 2] != 's' then But(w, 1)
    else w
  }

  function Step1a(w: string): (v: string)
    requires |w| >= 2
  {
    if Last(w) != 's' then w
    else if EndsWith(w, "sses") then But(w, 2)
    else WithoutS(w)
  }

  /** -eed, -ed and -ing. */
  function Step1b(w: string): (v: string) {
    if EndsWith(w, "eed") then (if Measure(w, |w| - 3) > 0 then But(w, 1) else w) else WithoutEdIng(w)
  }

  function WithoutEdIng(w: string): (v: string) {
    if EndsWith(w, "ed") then WithoutVerbEnding(w, 2)
    else if EndsWith(w, "ing") then WithoutVerbEnding(w, 3)
    else w
  }

  /** Takes off the last `n` letters if a vowel is left in front of them. */
  function WithoutVerbEnding(w: string, n: nat): (v: string)
    requires n <= |w|
  {
    if HasVowel(w, |w| - n) then Repaired(But(w, n)) else w
  }

  /** What is left after -ed or -ing: an e comes back, or a doubled consonant is undone. */
  function Repaired(v: string): (u: string) {
    if EndsWith(v, "at") || EndsWith(v, "bl") || EndsWith(v, "iz") then v + "e"
    else if DoubleCons(v, |v|) then (if Last(v) == 'l' || Last(v) == 's' || Last(v) == 'z' then v else But(v, 1))
    else if Measure(v, |v|) == 1 && ConsVowelCons(v, |v|) then v + "e"
    else v
  }

  function Step1c(w: string): (v: string) {
    if EndsWith(w, "y") && HasVowel(w, |w| - 1) then But(w, 1) + "i" else w
  }

  function Step2(w: string): (v: string) {
    Scan(Rules2(), w, 0)
  }

  function Step3(w: string): (v: string) {
    Scan(Rules3(), w, 0)
  }

  function Step4(w: string): (v: string) {
    Scan(Rules4(), w, 1)
  }

  /** A final e, and then a doubled l; both look at the measure of the whole word. */
  function WithoutFinalE(w: string): (u: string)
    requires w != ""
    ensures u != ""
  {
    var m := Measure(w, |w|);
    if Last(w) == 'e' && (m > 1 || (m == 1 && !ConsVowelCons(w, |w| - 1))) then
      MeasureNeedsTwo(w, |w|);
      But(w, 1)
    else w
  }

  /** ll to l, where the word as it came had measure `m`. */
  function WithSingleL(u: string, m: nat): (v: string)
    requires u != ""
  {
    if DoubleCons(u, |u|) && Last(u) == 'l' && m > 1 then But(u, 1) else u
  }

  function Step5(w: string): (v: string)
    requires w != ""
  {
    WithSingleL(WithoutFinalE(w), Measure(w, |w|))
  }

  /** Nonempty, not longer, same first letter. */
  predicate Shortened(v: string, w: string) {
    0 < |v| <= |w| && v[0] == w[0]
  }

  predicate NotLonger(rs: Rules) {
    match rs
    case Nil => true
    case Then(x, rest) => |x.to| <= |x.suffix| && NotLonger(rest)
  }

  lemma {:induction false} NotLongerAppend(a: Rules, b: Rules)
    requires NotLonger(a) && NotLonger(b)
    ensures NotLonger(Append(a, b))
  {
    if a.Then? {
      NotLongerAppend(a.rest, b);
    }
  }

  lemma {:induction false} NotLongerAll(f: char -> Rules, cs: string)
    requires forall c :: NotLonger(f(c))
    ensures NotLonger(All(f, cs))
    decreases cs
  {
    if cs != "" {
      NotLongerAll(f, cs[1..]);
      NotLongerAppend(f(cs[0]), All(f, cs[1..]));
    }
  }

  lemma {:induction false} LongestNotLonger(rs: Rules, w: string)
    requires NotLonger(rs)
    ensures var r := Longest(rs, w); r.Some? ==> |r.value.to| <= |r.value.suffix|
  {
    if rs.Then? {
      LongestNotLonger(rs.rest, w);
    }
  }

  lemma {:induction false} MeasureNeedsTwo(w: string, n: nat)
    requires n <= |w| && Measure(w, n) > 0
    ensures n >= 2
  {
  }

  lemma {:induction false} ScanShortens(rs: Rules, w: string, least: nat)
    requires w != "" && NotLonger(rs)
    ensures Shortened(Scan(rs, w, least), w)
  {
    LongestMatches(rs, w);
    LongestNotLonger(rs, w);
    var r := Longest(rs, w);
    if r.Some? && Measure(w, |w| - |r.value.suffix|) > least {
      MeasureNeedsTwo(w, |w| - |r.value.suffix|);
    }
  }

  lemma {:induction false} NotLonger2(c: char)
    ensures NotLonger(Case2(c))
  {
    match c
    case 'l' =>
      assert NotLonger(R("entli", "ent", R("eli", "e", R("ousli", "ous", Nil)))) by {
        assert NotLonger(R("eli", "e", R("ousli", "ous", Nil)));
      }
    case 's' => assert NotLonger(R("fulness", "ful", R("ousness", "ous", Nil)));
    case _ =>
  }

  lemma {:induction false} NotLonger4(c: char)
    ensures NotLonger(Case4(c))
  {
    match c
    case 'n' => assert NotLonger(R("ment", "", R("ent", "", Nil)));
    case _ =>
  }

  lemma {:induction false} Steps234Shorten(w: string)
    requires w != ""
    ensures Shortened(Step2(w), w) && Shortened(Step3(w), w) && Shortened(Step4(w), w)
  {
    forall c ensures NotLonger(Case2(c)) && NotLonger(Case4(c)) {
      NotLonger2(c);
      NotLonger4(c);
    }
    assert forall c :: NotLonger(Case3(c));
    NotLongerAll(Case2, LETTERS2);
    NotLongerAll(Case3, LETTERS3);
    NotLongerAll(Case4, LETTERS4);
    AllIs2();
    AllIs3();
    AllIs4();
    ScanShortens(Rules2(), w, 0);
    ScanShortens(Rules3(), w, 0);
    ScanShortens(Rules4(), w, 1);
  }

  lemma {:induction false} Step1aShortens(w: string)
    requires |w| >= 3
    ensures Shortened(Step1a(w), w)
  {
    EndsAlikeAt(w, "ies", if |w| >= 3 && EndsWith(w, "ies") then 3 else 0);
    assert EndsWith(w, "ies") ==> w[|w| - 3] == "ies"[0] == 'i';
  }

  lemma {:induction false} Step1bShortens(w: string)
    requires w != ""
    ensures Shortened(Step1b(w), w)
  {
  }

  lemma {:induction false} Step1cShortens(w: string)
    requires w != ""
    ensures Shortened(Step1c(w), w)
  {
  }

  lemma {:induction false} Step5Shortens(w: string)
    requires w != ""
    ensures Shortened(Step5(w), w)
  {
    if Measure(w, |w|) > 0 {
      MeasureNeedsTwo(w, |w|);
    }
  }

  function Step1(w: string): (v: string)
    requires |w| >= 3
    ensures Shortened(v, w)
  {
    Step1aShortens(w);
    Step1bShortens(Step1a(w));
    Step1cShortens(Step1b(Step1a(w)));
    Step1c(Step1b(Step1a(w)))
  }

  function Steps2To5(w: string): (v: string)
    requires w != ""
    ensures Shortened(v, w)
  {
    Steps234Shorten(w);
    Steps234Shorten(Step2(w));
    Steps234Shorten(Step3(Step2(w)));
    Step5Shortens(Step4(Step3(Step2(w))));
    Step5(Step4(Step3(Step2(w))))
  }

  /** The whole algorithm; words of one or two letters stay as they are. */
  function Stem(w: string): (v: string)
    ensures w != "" ==> Shortened(v, w)
  {
    if |w| <= 2 then w else Steps2To5(Step1(w))
  }

  /** Rules a chain of tests can run through: nonempty suffixes, no rewriting to something longer, and behind a rule
      that also looks at the letter in front only suffixes with another last letter. */
  predicate Chainable(rs: Rules) {
    match rs
    case Nil => true
    case Then(x, rest) =>
      && x.suffix != "" && |x.to| <= |x.suffix|
      && (x.afterST ==> OtherLast(rest, Last(x.suffix))) && Chainable(rest)
  }

  predicate NoLookBehind(rs: Rules) {
    match rs
    case Nil => true
    case Then(x, rest) => !x.afterST && NoLookBehind(rest)
  }

  predicate NoReplacement(rs: Rules) {
    match rs
    case Nil => true
    case Then(x, rest) => x.to == "" && NoReplacement(rest)
  }

  lemma {:induction false} FirstHasNoReplacement(rs: Rules, w: string)
    requires NoReplacement(rs)
    ensures var r := First(rs, w); r.Some? ==> r.value.to == ""
  {
    if rs.Then? {
      FirstHasNoReplacement(rs.rest, w);
    }
  }

  predicate OtherLast(rs: Rules, c: char) {
    match rs
    case Nil => true
    case Then(x, rest) => x.suffix != "" && Last(x.suffix) != c && OtherLast(rest, c)
  }

  lemma {:induction false} OtherLastMisses(rs: Rules, w: string, c: char)
    requires OtherLast(rs, c) && w != "" && Last(w) == c
    ensures First(rs, w).None?
  {
    if rs.Then? {
      OtherLastMisses(rs.rest, w, c);
      LastAgrees(w, rs.rule.suffix);
    }
  }

  lemma {:induction false} Chainable2(c: char)
    ensures Chainable(Case2(c)) && NoLookBehind(Case2(c))
  {
    match c
    case 'l' =>
      assert Chainable(R("entli", "ent", R("eli", "e", R("ousli", "ous", Nil)))) by {
        assert Chainable(R("eli", "e", R("ousli", "ous", Nil)));
      }
    case 's' => assert Chainable(R("fulness", "ful", R("ousness", "ous", Nil)));
    case _ =>
  }

  lemma {:induction false} Chainable3(c: char)
    ensures Chainable(Case3(c)) && NoLookBehind(Case3(c))
  {
  }

  lemma {:induction false} Chainable4(c: char)
    ensures Chainable(Case4(c)) && NoReplacement(Case4(c))
  {
    match c
    case 'n' => assert Chainable(R("ment", "", R("ent", "", Nil))) && NoReplacement(R("ment", "", R("ent", "", Nil)));
    case _ =>
  }

  predicate STBefore(w: string, n: nat)
    requires n <= |w|
  {
    n > 0 && (w[n - 1] == 's' || w[n - 1] == 't')
  }

  /** When a suffix rule of step 4 takes effect; on an empty stem the letter in front does not matter. */
  lemma {:induction false} CutResult(w: string, x: Rule, cut: bool)
    requires EndsWith(w, x.suffix) && x.to == ""
    requires var n := |w| - |x.suffix|;
             cut == (Measure(w, n) > 1 && (x.afterST ==> STBefore(w, n)))
    ensures Apply(w, x, 1) == if cut then But(w, |x.suffix|) else w
  {
  }

  /** Step 2's switch on the last letter but one finds what the scan of all its rules finds, whatever letter is seen
      in front of a one-letter word. */
  lemma {:induction false} Step2Dispatch(w: string, c: char)
    requires |w| >= 2 ==> c == w[|w| - 2]
    ensures (FirstMatches(Case2(c), w); Step2(w) == Chosen(w, First(Case2(c), w), 0))
  {
    Table2Dispatches();
    AllIs2();
    DispatchIsScan(Case2, LETTERS2, 2, w, c);
  }

  lemma {:induction false} Step3Dispatch(w: string, c: char)
    requires w != "" ==> c == Last(w)
    ensures (FirstMatches(Case3(c), w); Step3(w) == Chosen(w, First(Case3(c), w), 0))
  {
    Table3Dispatches();
    AllIs3();
    DispatchIsScan(Case3, LETTERS3, 1, w, c);
  }

  lemma {:induction false} Step4Dispatch(w: string, c: char)
    requires |w| >= 2 ==> c == w[|w| - 2]
    ensures (FirstMatches(Case4(c), w); Step4(w) == Chosen(w, First(Case4(c), w), 1))
  {
    Table4Dispatches();
    AllIs4();
    DispatchIsScan(Case4, LETTERS4, 2, w, c);
  }
}
