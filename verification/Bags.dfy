/** Permutations of sequences, as equal multisets. */
module Bags {

  function Map<T, U>(f: T -> U, s: seq<T>): (r: seq<U>)
    ensures |r| == |s| && forall i :: 0 <= i < |s| ==> r[i] == f(s[i])
  {
    seq(|s|, i requires 0 <= i < |s| => f(s[i]))
  }

  /** The last element of `a` sits somewhere in every permutation of `a`, and taking it out of both leaves
      permutations. */
  lemma {:induction false} FindLast<T>(a: seq<T>, b: seq<T>) returns (k: nat)
    requires a != [] && multiset(a) == multiset(b)
    ensures k < |b| && b[k] == a[|a| - 1]
    ensures multiset(b[..k] + b[k + 1..]) == multiset(a[..|a| - 1])
  {
    var n := |a| - 1;
    assert a == a[..n] + [a[n]];
    assert a[n] in multiset(b);
    k :| 0 <= k < |b| && b[k] == a[n];
    TakeOut(b, k);
    assert multiset(a) == multiset(a[..n]) + multiset{a[n]};
    assert multiset(a[..n]) == multiset(a) - multiset{a[n]};
  }

  lemma {:induction false} TakeOut<T>(b: seq<T>, k: nat)
    requires k < |b|
    ensures multiset(b[..k] + b[k + 1..]) == multiset(b) - multiset{b[k]}
  {
    assert b == b[..k] + [b[k]] + b[k + 1..];
    assert multiset(b[..k] + b[k + 1..]) == multiset(b[..k]) + multiset(b[k + 1..]);
    assert multiset(b) == multiset(b[..k]) + multiset{b[k]} + multiset(b[k + 1..]);
  }

  /** Mapping keeps permutations. */
  lemma {:induction false} MapPermutation<T, U>(f: T -> U, a: seq<T>, b: seq<T>)
    requires multiset(a) == multiset(b)
    ensures multiset(Map(f, a)) == multiset(Map(f, b))
    decreases |a|
  {
    if a == [] {
      assert |multiset(b)| == 0;
    } else {
      var n := |a| - 1;
      var k := FindLast(a, b);
      MapPermutation(f, a[..n], b[..k] + b[k + 1..]);
      var fa, fb := Map(f, a), Map(f, b);
      assert fa == Map(f, a[..n]) + [f(a[n])];
      assert Map(f, b[..k] + b[k + 1..]) == fb[..k] + fb[k + 1..];
      TakeOut(fb, k);
      assert multiset(fb) == multiset(fb[..k] + fb[k + 1..]) + multiset{fb[k]};
    }
  }

  // ------------------------------------------------------------------ enumerating a finite set

  ghost function Enum<T(!new)>(s: set<T>): (r: seq<T>)
    ensures multiset(r) == multiset(s)
    decreases |s|
  {
    if s == {} then []
    else
      var x :| x in s;
      Enum(s - {x}) + [x]
  }

  lemma {:induction false} EnumHas<T(!new)>(s: set<T>)
    ensures forall x :: x in Enum(s) <==> x in s
    ensures |Enum(s)| == |s|
  {
    forall x ensures x in Enum(s) <==> x in s {
      assert x in multiset(Enum(s)) <==> x in multiset(s);
    }
    assert |multiset(Enum(s))| == |multiset(s)|;
  }

  lemma {:induction false} EnumAdd<T(!new)>(s: set<T>, x: T)
    requires x !in s
    ensures multiset(Enum(s + {x})) == multiset(Enum(s) + [x])
  {
    assert multiset(s + {x}) == multiset(s) + multiset{x};
  }
}
