/** Small vocabulary shared by the models: optional values and duplicate-free sequences. */
module Collections {
  datatype Option<T> = None | Some(value: T)

  predicate NoDup<T(==)>(s: seq<T>) {
    forall i, j :: 0 <= i < j < |s| ==> s[i] != s[j]
  }

  /** `s` without its element at `i`. */
  function Without<T>(s: seq<T>, i: nat): (r: seq<T>)
    requires i < |s|
    ensures |r| == |s| - 1 && forall k :: 0 <= k < |r| ==> r[k] == if k < i then s[k] else s[k + 1]
  {
    s[..i] + s[i + 1..]
  }

  lemma {:induction false} NoDupPush<T>(s: seq<T>, x: T)
    requires NoDup(s) && x !in s
    ensures NoDup(s + [x])
  {
  }

  /** The element is gone and all the others are still there. */
  lemma {:induction false} NoDupWithout<T>(s: seq<T>, i: nat)
    requires NoDup(s) && i < |s|
    ensures NoDup(Without(s, i)) && s[i] !in Without(s, i)
    ensures forall x :: x in s && x != s[i] ==> x in Without(s, i)
  {
    forall x | x in s && x != s[i] ensures x in Without(s, i) {
      StillIn(s, i, x);
    }
  }

  lemma {:induction false} StillIn<T>(s: seq<T>, i: nat, x: T)
    requires i < |s| && x in s && x != s[i]
    ensures x in Without(s, i)
  {
    var h :| 0 <= h < |s| && s[h] == x;
    assert Without(s, i)[if h < i then h else h - 1] == x;
  }
}
