/** Sequences as lists of objects: places, repetition, and taking one element out. */
module Lists {

  /** The object at place i, null outside the list. */
  function At(q: seq<object>, i: int): object? {
    if 0 <= i < |q| then q[i] else null
  }

  predicate Distinct<T(==)>(q: seq<T>) {
    forall i, j :: 0 <= i < j < |q| ==> q[i] != q[j]
  }

  /** s with its first t taken out, the rest in order. */
  function Without<T(==)>(s: seq<T>, t: T): (r: seq<T>) {
    if s == [] then [] else if s[0] == t then s[1..] else [s[0]] + Without(s[1..], t)
  }

  lemma {:induction false} WithoutAt<T>(s: seq<T>, t: T) returns (i: nat)
    requires t in s
    ensures i < |s| && s[i] == t && t !in s[..i]
    ensures Without(s, t) == s[..i] + s[i + 1..]
    decreases |s|
  {
    if s[0] == t {
      i := 0;
    } else {
      var k := WithoutAt(s[1..], t);
      i := k + 1;
      assert s[..i] == [s[0]] + s[1..][..k];
    }
  }

  lemma {:induction false} WithoutFirst<T>(s: seq<T>, i: nat)
    requires i < |s| && s[i] !in s[..i]
    ensures Without(s, s[i]) == s[..i] + s[i + 1..]
    decreases |s|
  {
    if i > 0 {
      assert s[..i] == [s[0]] + s[1..][..i - 1];
      WithoutFirst(s[1..], i - 1);
    }
  }

  lemma DistinctBefore<T>(s: seq<T>, i: nat)
    requires Distinct(s) && i < |s|
    ensures s[i] !in s[..i]
  {
  }

  lemma {:induction false} StaysIn<T>(s: seq<T>, t: T, u: T)
    requires u in s && u != t
    ensures u in Without(s, t)
    decreases |s|
  {
    if s[0] == u {
      assert s[0] != t ==> ([s[0]] + Without(s[1..], t))[0] == u;
    } else if s[0] != t {
      StaysIn(s[1..], t, u);
    }
  }
}
