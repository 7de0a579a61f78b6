/** Real vectors and matrices. */
module Vectors {
  function DotUpTo(a: seq<real>, b: seq<real>, n: nat): real
    requires n <= |a| == |b|
  {
    if n == 0 then 0.0 else DotUpTo(a, b, n - 1) + a[n - 1] * b[n - 1]
  }

  function Dot(a: seq<real>, b: seq<real>): real
    requires |a| == |b|
  {
    DotUpTo(a, b, |a|)
  }

  // ------------------------------------------------------------------ what makes it the inner product

  lemma {:induction false} SymmetricUpTo(a: seq<real>, b: seq<real>, n: nat)
    requires n <= |a| == |b|
    ensures DotUpTo(a, b, n) == DotUpTo(b, a, n)
  {
    if n > 0 {
      SymmetricUpTo(a, b, n - 1);
    }
  }

  lemma {:induction false} LinearUpTo(a: seq<real>, b: seq<real>, s: real, t: real, sum: seq<real>, c: seq<real>, n: nat)
    requires n <= |a| == |b| == |sum| == |c| && forall i :: 0 <= i < |a| ==> sum[i] == s * a[i] + t * b[i]
    ensures DotUpTo(sum, c, n) == s * DotUpTo(a, c, n) + t * DotUpTo(b, c, n)
  {
    if n > 0 {
      LinearUpTo(a, b, s, t, sum, c, n - 1);
      var x, y, z := a[n - 1], b[n - 1], c[n - 1];
      assert (s * x + t * y) * z == s * (x * z) + t * (y * z);
    }
  }

  lemma {:induction false} UnitUpTo(a: seq<real>, i: nat, u: seq<real>, n: nat)
    requires n <= |a| == |u| && i < |a| && u[i] == 1.0 && forall j :: 0 <= j < |u| && j != i ==> u[j] == 0.0
    ensures DotUpTo(a, u, n) == if i < n then a[i] else 0.0
  {
    if n > 0 {
      UnitUpTo(a, i, u, n - 1);
    }
  }

  lemma {:induction false} DotSymmetric(a: seq<real>, b: seq<real>)
    requires |a| == |b|
    ensures Dot(a, b) == Dot(b, a)
  {
    SymmetricUpTo(a, b, |a|);
  }

  /** Linear in either argument. */
  lemma {:induction false} DotLinear(a: seq<real>, b: seq<real>, s: real, t: real, sum: seq<real>, c: seq<real>)
    requires |a| == |b| == |sum| == |c| && forall i :: 0 <= i < |a| ==> sum[i] == s * a[i] + t * b[i]
    ensures Dot(sum, c) == s * Dot(a, c) + t * Dot(b, c)
    ensures Dot(c, sum) == s * Dot(c, a) + t * Dot(c, b)
  {
    LinearUpTo(a, b, s, t, sum, c, |a|);
    DotSymmetric(sum, c);
    DotSymmetric(a, c);
    DotSymmetric(b, c);
  }

  /** Against the `i`-th unit vector it is component `i`: with linearity, this leaves no other product. */
  lemma {:induction false} DotUnit(a: seq<real>, i: nat, u: seq<real>)
    requires |a| == |u| && i < |a| && u[i] == 1.0 && forall j :: 0 <= j < |u| && j != i ==> u[j] == 0.0
    ensures Dot(a, u) == a[i] && Dot(u, a) == a[i]
  {
    UnitUpTo(a, i, u, |a|);
    DotSymmetric(a, u);
  }

  ghost function Times(x: real, y: real): real {
    x * y
  }

  lemma {:induction false} TimesPositive(x: real, y: real)
    requires x > 0.0 && y > 0.0
    ensures Times(x, y) > 0.0
  {
  }

  lemma {:induction false} TimesOfMinus(x: real)
    ensures Times(-x, -x) == Times(x, x) && Times(0.0, 0.0) == 0.0
  {
  }

  lemma {:induction false} SquareSign(x: real)
    ensures Times(x, x) >= 0.0 && (Times(x, x) == 0.0 <==> x == 0.0)
  {
    hide *;
    TimesOfMinus(x);
    if x > 0.0 {
      TimesPositive(x, x);
    } else if x < 0.0 {
      TimesPositive(-x, -x);
    }
  }

  /** A vector's square is zero for the zero vector only, and otherwise positive. */
  lemma {:induction false} SquareUpTo(a: seq<real>, n: nat)
    requires n <= |a|
    ensures DotUpTo(a, a, n) >= 0.0
    ensures DotUpTo(a, a, n) == 0.0 <==> forall i :: 0 <= i < n ==> a[i] == 0.0
  {
    if n > 0 {
      SquareUpTo(a, n - 1);
      assert DotUpTo(a, a, n) == DotUpTo(a, a, n - 1) + Times(a[n - 1], a[n - 1]);
      SquareSign(a[n - 1]);
      hide *;
    }
  }

  /** A matrix has a width even without rows. */
  datatype Matrix = Matrix(cols: nat, rows: seq<seq<real>>) {
    ghost predicate Shaped() {
      forall i :: 0 <= i < |rows| ==> |rows[i]| == cols
    }
  }
}
