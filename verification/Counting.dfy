/** Counting the tasks that are at given points of their programs. */
module Counting {

  ghost function Count<T>(s: seq<T>, f: T -> bool): nat {
    if s == [] then 0 else (if f(s[0]) then 1 else 0) + Count(s[1..], f)
  }

  lemma {:induction false} CountUpdate<T>(s: seq<T>, i: nat, v: T, f: T -> bool)
    requires i < |s|
    ensures Count(s[i := v], f) == Count(s, f) - (if f(s[i]) then 1 else 0) + (if f(v) then 1 else 0)
  {
    if i == 0 {
      assert s[i := v][1..] == s[1..];
    } else {
      assert s[i := v][1..] == s[1..][i - 1 := v];
      CountUpdate(s[1..], i - 1, v, f);
    }
  }

  lemma {:induction false} CountSome<T>(s: seq<T>, i: nat, f: T -> bool)
    requires i < |s| && f(s[i])
    ensures Count(s, f) >= 1
  {
    if i > 0 {
      CountSome(s[1..], i - 1, f);
    }
  }

  lemma {:induction false} CountTwo<T>(s: seq<T>, i: nat, j: nat, f: T -> bool)
    requires i < j < |s| && f(s[i]) && f(s[j])
    ensures Count(s, f) >= 2
  {
    if i == 0 {
      CountSome(s[1..], j - 1, f);
    } else {
      CountTwo(s[1..], i - 1, j - 1, f);
    }
  }

  lemma {:induction false} CountNone<T>(s: seq<T>, f: T -> bool)
    requires forall i :: 0 <= i < |s| ==> !f(s[i])
    ensures Count(s, f) == 0
  {
    if s != [] {
      CountNone(s[1..], f);
    }
  }
}
