/** Byte strings the way the C library sees them: NUL-limited views and first occurrences. */
module Text {

  /** A C `char`, seen as one of 256 values. */
  type Byte = c: char | c as int < 256 witness '\0'

  type Bytes = seq<Byte>

  const NUL: Byte := '\0'

  /** Index of the first NUL at or after `from`, or the end of `s` (where the terminator sits). */
  function StrEnd(s: string, from: nat): (e: nat)
    requires from <= |s|
    ensures from <= e <= |s|
    ensures NUL !in s[from..e]
    ensures e < |s| ==> s[e] == NUL
    decreases |s| - from
  {
    if from == |s| || s[from] == NUL then from else StrEnd(s, from + 1)
  }

  /** `p` occurs in `s` at index `i`. */
  predicate OccursAt(s: string, p: string, i: int) {
    0 <= i && i + |p| <= |s| && forall k :: 0 <= k < |p| ==> s[i + k] == p[k]
  }

  /** `i` is the least index at or after `from` where `p` occurs. */
  ghost predicate FirstAt(s: string, p: string, from: int, i: int) {
    from <= i && OccursAt(s, p, i) && forall h :: from <= h < i ==> !OccursAt(s, p, h)
  }

  ghost predicate Absent(s: string, p: string, from: int) {
    forall h :: from <= h ==> !OccursAt(s, p, h)
  }

  /** First occurrence of `p` at or after `from`; -1 when there is none. */
  function IndexFrom(s: string, p: string, from: nat): (i: int)
    ensures i == -1 || from <= i <= |s| - |p|
    decreases |s| - from
  {
    if from + |p| > |s| then -1
    else if OccursAt(s, p, from) then from
    else IndexFrom(s, p, from + 1)
  }

  lemma {:induction false} IndexFromFinds(s: string, p: string, from: nat)
    ensures var i := IndexFrom(s, p, from);
            if i == -1 then Absent(s, p, from) else FirstAt(s, p, from, i)
    decreases |s| - from
  {
    if from + |p| <= |s| && !OccursAt(s, p, from) {
      IndexFromFinds(s, p, from + 1);
    }
  }

  lemma {:induction false} FirstIsIndexFrom(s: string, p: string, from: nat, i: int)
    requires FirstAt(s, p, from, i)
    ensures IndexFrom(s, p, from) == i
  {
    IndexFromFinds(s, p, from);
  }

  lemma {:induction false} AbsentIsMinusOne(s: string, p: string, from: nat)
    requires Absent(s, p, from)
    ensures IndexFrom(s, p, from) == -1
  {
    IndexFromFinds(s, p, from);
  }

  /** `strstr` started at offset `from` of a terminated buffer holding `s`. */
  function StrStr(s: string, p: string, from: nat): (i: int)
    requires from <= |s|
    ensures i == -1 || from <= i <= |s| - |p|
  {
    IndexFrom(s[..StrEnd(s, from)], p, from)
  }
}
