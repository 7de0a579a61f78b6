/** Certified truncation of a facet's weighted mean: what a prefix in score order can be trusted for, before and
    after the rest is read, and the loop that answers every facet within its budget. */
module CertifiedTruncation {
  import opened Wrappers
  import opened Exponential
  import opened Evaluators
  import opened Dequantization

  /** The rows of a facet by descending score, with bounds on its values. */
  datatype Facet = Facet(scores: seq<real>, values: seq<real>, lo: real, hi: real)

  ghost predicate Valid(f: Facet) {
    && |f.scores| == |f.values|
    && (forall i, j :: 0 <= i < j < |f.scores| ==> f.scores[i] >= f.scores[j])
    && (forall i :: 0 <= i < |f.values| ==> f.lo <= f.values[i] <= f.hi)
  }

  function Size(f: Facet): nat {
    |f.scores|
  }

  /** `exp((s - m) / t)` with the facet's best score as `m`. */
  function WeightsOf(e: real -> real, f: Facet, t: real): (w: seq<real>)
    requires t > 0.0
    ensures |w| == |f.scores|
  {
    seq(|f.scores|, i requires 0 <= i < |f.scores| => e((f.scores[i] - f.scores[0]) / t))
  }

  function Cum(e: real -> real, f: Facet, t: real, b: nat): real
    requires t > 0.0 && b <= Size(f)
  {
    SumTo(WeightsOf(e, f, t), b)
  }

  function CumValues(e: real -> real, f: Facet, t: real, b: nat): real
    requires t > 0.0 && b <= Size(f) == |f.values|
  {
    SumTo(Products(WeightsOf(e, f, t), f.values), b)
  }

  /** The weights are positive and do not increase. */
  lemma {:induction false} WeightsFall(e: real -> real, f: Facet, t: real)
    requires IsExp(e) && t > 0.0 && Valid(f)
    ensures forall i :: 0 <= i < Size(f) ==> WeightsOf(e, f, t)[i] > 0.0
    ensures forall i, j :: 0 <= i < j < Size(f) ==> WeightsOf(e, f, t)[i] >= WeightsOf(e, f, t)[j]
  {
    var w := WeightsOf(e, f, t);
    forall i | 0 <= i < Size(f) ensures w[i] > 0.0 {
      assert Positive(e, (f.scores[i] - f.scores[0]) / t);
    }
    forall i, j | 0 <= i < j < Size(f) ensures w[i] >= w[j] {
      DivideMonotone(f.scores[j] - f.scores[0], f.scores[i] - f.scores[0], t);
      Monotone(e, (f.scores[j] - f.scores[0]) / t, (f.scores[i] - f.scores[0]) / t);
    }
  }

  // ------------------------------------------------------------------ the two estimates

  /** Every unread row weighs at most the last row that was read. */
  function TailHat(e: real -> real, f: Facet, t: real, b: nat): real
    requires t > 0.0 && 1 <= b <= Size(f)
  {
    (Size(f) - b) as real * WeightsOf(e, f, t)[b - 1]
  }

  /** The omitted fraction as it is bounded before the tail is read. */
  function DeltaPre(e: real -> real, f: Facet, t: real, b: nat): real
    requires IsExp(e) && t > 0.0 && Valid(f) && 1 <= b <= Size(f)
  {
    CumPositive(e, f, t, b);
    TailHat(e, f, t, b) / (Cum(e, f, t, b) + TailHat(e, f, t, b))
  }

  /** The omitted fraction, known after the tail is read. */
  function DeltaTrue(e: real -> real, f: Facet, t: real, b: nat): real
    requires IsExp(e) && t > 0.0 && Valid(f) && 1 <= b <= Size(f)
  {
    CumPositive(e, f, t, Size(f));
    1.0 - Cum(e, f, t, b) / Cum(e, f, t, Size(f))
  }

  lemma {:induction false} CumPositive(e: real -> real, f: Facet, t: real, b: nat)
    requires IsExp(e) && t > 0.0 && Valid(f) && 1 <= b <= Size(f)
    ensures Cum(e, f, t, b) > 0.0 && TailHat(e, f, t, b) >= 0.0
  {
    hide IsExp, WeightsOf;
    WeightsFall(e, f, t);
    SumOfPositive(WeightsOf(e, f, t), b);
    assert (Size(f) - b) as real * WeightsOf(e, f, t)[b - 1] >= 0.0;
  }

  lemma {:induction false} SumOfPositive(w: seq<real>, b: nat)
    requires b <= |w| && forall i :: 0 <= i < |w| ==> w[i] > 0.0
    ensures SumTo(w, b) >= 0.0 && (b >= 1 ==> SumTo(w, b) > 0.0)
  {
    if b > 0 {
      SumOfPositive(w, b - 1);
    }
  }

  /** The rest of a sum of falling weights is at most the count times the last one read. */
  lemma {:induction false} RestBelow(w: seq<real>, b: nat, n: nat)
    requires 1 <= b <= n <= |w| && forall i, j :: 0 <= i < j < |w| ==> w[i] >= w[j]
    ensures SumTo(w, n) - SumTo(w, b) <= (n - b) as real * w[b - 1]
    decreases n
  {
    if n > b {
      RestBelow(w, b, n - 1);
      assert w[n - 1] <= w[b - 1];
      assert (n - b) as real * w[b - 1] == (n - 1 - b) as real * w[b - 1] + w[b - 1];
    }
  }

  lemma {:induction false} SumGrows(w: seq<real>, b: nat, n: nat)
    requires b <= n <= |w| && forall i :: 0 <= i < |w| ==> w[i] > 0.0
    ensures SumTo(w, b) <= SumTo(w, n)
    decreases n
  {
    if n > b {
      SumGrows(w, b, n - 1);
    }
  }

  /** The estimate made before the tail is read dominates the true omitted fraction, at every prefix. */
  lemma {:induction false} PreDominatesTrue(e: real -> real, f: Facet, t: real, b: nat)
    requires IsExp(e) && t > 0.0 && Valid(f) && 1 <= b <= Size(f)
    ensures 0.0 <= DeltaTrue(e, f, t, b) <= DeltaPre(e, f, t, b) <= 1.0
  {
    hide IsExp, WeightsOf, SumTo;
    var w := WeightsOf(e, f, t);
    WeightsFall(e, f, t);
    CumPositive(e, f, t, b);
    CumPositive(e, f, t, Size(f));
    RestBelow(w, b, Size(f));
    SumGrows(w, b, Size(f));
    Fractions(Cum(e, f, t, b), Cum(e, f, t, Size(f)) - Cum(e, f, t, b), TailHat(e, f, t, b));
  }

  lemma {:induction false} Fractions(c: real, x: real, y: real)
    requires c > 0.0 && 0.0 <= x <= y
    ensures 0.0 <= 1.0 - c / (c + x) <= y / (c + y) <= 1.0
  {
    var a, q := 1.0 - c / (c + x), y / (c + y);
    assert (c / (c + x)) * (c + x) == c;
    assert a * (c + x) == x by {
      assert a * (c + x) == (c + x) - (c / (c + x)) * (c + x);
    }
    assert q * (c + y) == y;
    AtMostOne(a, x, c + x);
    AtMostOne(q, y, c + y);
    assert a * (c + y) == a * (c + x) + a * (y - x);
    assert a * (y - x) <= y - x;
    CancelPositive(a, q, c + y);
  }

  lemma {:induction false} AtMostOne(a: real, x: real, z: real)
    requires z > 0.0 && 0.0 <= x <= z && a * z == x
    ensures 0.0 <= a <= 1.0
  {
  }

  lemma {:induction false} CancelPositive(a: real, b: real, z: real)
    requires z > 0.0 && a * z <= b * z
    ensures a <= b
  {
    if a > b {
      TimesMore(a, b, a - b, z);
    }
  }

  lemma {:induction false} TimesMore(a: real, b: real, d: real, z: real)
    requires z > 0.0 && d > 0.0 && d == a - b
    ensures a * z > b * z
  {
    assert d * z > 0.0;
    assert d * z == a * z - b * z;
  }

  /** At the full size nothing is omitted, so some prefix always meets a non-negative budget. */
  lemma {:induction false} FullSizeMeets(e: real -> real, f: Facet, t: real)
    requires IsExp(e) && t > 0.0 && Valid(f) && Size(f) >= 1
    ensures DeltaPre(e, f, t, Size(f)) == 0.0 && DeltaTrue(e, f, t, Size(f)) == 0.0
  {
    CumPositive(e, f, t, Size(f));
    hide Cum, IsExp, WeightsOf;
    SelfQuotient(Cum(e, f, t, Size(f)));
    assert TailHat(e, f, t, Size(f)) == 0.0;
  }

  lemma {:induction false} SelfQuotient(z: real)
    requires z > 0.0
    ensures z / z == 1.0
  {
  }

  // ------------------------------------------------------------------ the error of a truncated mean

  /** The mean over the best `b` rows. */
  function MeanOf(e: real -> real, f: Facet, t: real, b: nat): real
    requires IsExp(e) && t > 0.0 && Valid(f) && 1 <= b <= Size(f)
  {
    CumPositive(e, f, t, b);
    CumValues(e, f, t, b) / Cum(e, f, t, b)
  }

  ghost predicate Within(lo: real, hi: real, mass: real, sum: real) {
    lo * mass <= sum <= hi * mass
  }

  lemma {:induction false} NothingWithin(lo: real, hi: real)
    ensures Within(lo, hi, 0.0, 0.0)
  {
  }

  /** The values of rows `a` to `b` weigh between the bounds. */
  lemma {:induction false} Between(w: seq<real>, v: seq<real>, lo: real, hi: real, a: nat, b: nat)
    requires a <= b <= |w| == |v| && forall i :: 0 <= i < |w| ==> w[i] > 0.0
    requires forall i :: 0 <= i < |v| ==> lo <= v[i] <= hi
    ensures Within(lo, hi, SumTo(w, b) - SumTo(w, a), SumTo(Products(w, v), b) - SumTo(Products(w, v), a))
    decreases b
  {
    hide Products, SumTo, Within;
    if b > a {
      Between(w, v, lo, hi, a, b - 1);
      LastProduct(w, v, b);
      Weighed(w[b - 1], v[b - 1], lo, hi, SumTo(w, b - 1) - SumTo(w, a), SumTo(w, b) - SumTo(w, a),
              SumTo(Products(w, v), b - 1) - SumTo(Products(w, v), a), SumTo(Products(w, v), b) - SumTo(Products(w, v), a));
    } else {
      NothingWithin(lo, hi);
    }
  }

  lemma {:induction false} LastProduct(w: seq<real>, v: seq<real>, b: nat)
    requires 1 <= b <= |w| == |v|
    ensures SumTo(Products(w, v), b) == SumTo(Products(w, v), b - 1) + w[b - 1] * v[b - 1]
    ensures SumTo(w, b) == SumTo(w, b - 1) + w[b - 1]
  {
  }

  /** One more row. */
  lemma {:induction false} Weighed(w: real, v: real, lo: real, hi: real, mass: real, mass': real, sum: real, sum': real)
    requires w > 0.0 && lo <= v <= hi && Within(lo, hi, mass, sum)
    requires mass' == mass + w && sum' == sum + w * v
    ensures Within(lo, hi, mass', sum')
  {
    assert lo * mass' == lo * mass + lo * w && hi * mass' == hi * mass + hi * w;
    assert lo * w <= w * v <= hi * w;
  }

  /** The mean over a prefix differs from the mean over all rows by at most the omitted fraction of the range. */
  lemma {:induction false} TruncationError(e: real -> real, f: Facet, t: real, b: nat)
    requires IsExp(e) && t > 0.0 && Valid(f) && 1 <= b <= Size(f)
    ensures Abs(MeanOf(e, f, t, b) - MeanOf(e, f, t, Size(f))) <= DeltaTrue(e, f, t, b) * (f.hi - f.lo)
  {
    hide IsExp, WeightsOf, SumTo, Products, Abs, Valid, DeltaTrue;
    PartsBetween(e, f, t, b);
    MeansApart(Cum(e, f, t, b), CumValues(e, f, t, b), Cum(e, f, t, Size(f)) - Cum(e, f, t, b),
               CumValues(e, f, t, Size(f)) - CumValues(e, f, t, b), f.lo, f.hi,
               Cum(e, f, t, Size(f)), CumValues(e, f, t, Size(f)));
    DeltaIs(e, f, t, b);
  }

  lemma {:induction false} DeltaIs(e: real -> real, f: Facet, t: real, b: nat)
    requires IsExp(e) && t > 0.0 && Valid(f) && 1 <= b <= Size(f) && Cum(e, f, t, Size(f)) > 0.0
    ensures DeltaTrue(e, f, t, b) == 1.0 - Cum(e, f, t, b) / Cum(e, f, t, Size(f))
  {
  }

  /** What was read and what was left out both lie between the bounds. */
  lemma {:induction false} PartsBetween(e: real -> real, f: Facet, t: real, b: nat)
    requires IsExp(e) && t > 0.0 && Valid(f) && 1 <= b <= Size(f)
    ensures |f.values| == Size(f) && 0.0 < Cum(e, f, t, b) <= Cum(e, f, t, Size(f))
    ensures f.lo * Cum(e, f, t, b) <= CumValues(e, f, t, b) <= f.hi * Cum(e, f, t, b)
    ensures
      var x := Cum(e, f, t, Size(f)) - Cum(e, f, t, b);
      f.lo * x <= CumValues(e, f, t, Size(f)) - CumValues(e, f, t, b) <= f.hi * x
  {
    hide IsExp, WeightsOf, SumTo, Products;
    var w := WeightsOf(e, f, t);
    WeightsFall(e, f, t);
    CumPositive(e, f, t, b);
    SumGrows(w, b, Size(f));
    SumFromZero(w, Products(w, f.values));
    Between(w, f.values, f.lo, f.hi, 0, b);
    Between(w, f.values, f.lo, f.hi, b, Size(f));
  }

  lemma {:induction false} SumFromZero(w: seq<real>, u: seq<real>)
    ensures SumTo(w, 0) == 0.0 && SumTo(u, 0) == 0.0
  {
  }

  lemma {:induction false} MeansApart(c: real, u: real, x: real, y: real, lo: real, hi: real, z: real, v: real)
    requires c > 0.0 && x >= 0.0 && lo * c <= u <= hi * c && lo * x <= y <= hi * x && z == c + x && v == u + y
    ensures Abs(u / c - v / z) <= (1.0 - c / z) * (hi - lo)
  {
    hide Abs;
    var a, b, w := u / c, v / z, (hi - lo) * x;
    var spread, gap := (1.0 - c / z) * (hi - lo), a - b;
    assert a * c == u && b * z == v;
    Omitted(c, x, z, lo, hi, spread, w);
    ALies(a, c, lo, hi, u);
    GapTimes(a, b, c, x, y, z, lo, hi, gap, w);
    Divide(gap, spread, z, w);
  }

  /** The omitted part of the whole, over the range. */
  lemma {:induction false} Omitted(c: real, x: real, z: real, lo: real, hi: real, spread: real, w: real)
    requires z > 0.0 && z == c + x && spread == (1.0 - c / z) * (hi - lo) && w == (hi - lo) * x
    ensures spread * z == w
  {
    var q := c / z;
    var k := 1.0 - q;
    assert q * z == c;
    assert k * z == x;
    assert (k * (hi - lo)) * z == (k * z) * (hi - lo);
  }

  lemma {:induction false} GapTimes(a: real, b: real, c: real, x: real, y: real, z: real, lo: real, hi: real,
                                    gap: real, w: real)
    requires lo <= a <= hi && x >= 0.0 && lo * x <= y <= hi * x && z == c + x && b * z == a * c + y
    requires gap == a - b && w == (hi - lo) * x
    ensures -w <= gap * z <= w
  {
    var ax, lx, hx := a * x, lo * x, hi * x;
    TimesMonotone(lo, a, x);
    TimesMonotone(a, hi, x);
    GapIs(hi, lo, x, hi - lo);
    assert w == hx - lx && lx <= ax <= hx;
    GapIs(a, b, z, gap);
    SumTimes(a, c, x, z);
    assert gap * z == ax - y;
  }

  lemma {:induction false} SumTimes(a: real, c: real, x: real, z: real)
    requires z == c + x
    ensures a * z == a * c + a * x
  {
  }

  lemma {:induction false} GapIs(a: real, b: real, z: real, gap: real)
    requires gap == a - b
    ensures gap * z == a * z - b * z
  {
  }

  lemma {:induction false} ALies(a: real, c: real, lo: real, hi: real, u: real)
    requires c > 0.0 && a * c == u && lo * c <= u <= hi * c
    ensures lo <= a <= hi
  {
    CancelPositive(lo, a, c);
    CancelPositive(a, hi, c);
  }

  lemma {:induction false} Divide(d: real, r: real, z: real, w: real)
    requires z > 0.0 && r * z == w && -w <= d * z <= w
    ensures Abs(d) <= r
  {
    hide Abs;
    var s := -r;
    assert s * z == -w;
    CancelPositive(s, d, z);
    CancelPositive(d, r, z);
    AtMostEither(d, r);
  }

  lemma {:induction false} AtMostEither(d: real, r: real)
    requires -r <= d <= r
    ensures Abs(d) <= r
  {
  }

  // ------------------------------------------------------------------ the same without the anchor

  /** The sum of `exp(score / t)` over the first `b` rows. */
  ghost function RawMass(e: real -> real, f: Facet, t: real, b: nat): real
    requires t > 0.0 && b <= |f.scores|
  {
    if b == 0 then 0.0 else RawMass(e, f, t, b - 1) + e(f.scores[b - 1] / t)
  }

  /** The same with every row's value as a factor. */
  ghost function RawSum(e: real -> real, f: Facet, t: real, b: nat): real
    requires t > 0.0 && b <= |f.scores| == |f.values|
  {
    if b == 0 then 0.0 else RawSum(e, f, t, b - 1) + e(f.scores[b - 1] / t) * f.values[b - 1]
  }

  ghost function Times(a: real, b: real): real {
    a * b
  }

  lemma {:induction false} Unanchored(e: real -> real, f: Facet, t: real, i: nat)
    requires IsExp(e) && t > 0.0 && i < |f.scores|
    ensures Times(WeightsOf(e, f, t)[i], e(f.scores[0] / t)) == e(f.scores[i] / t)
  {
    var a, b := f.scores[i] - f.scores[0], f.scores[0];
    assert a / t + b / t == f.scores[i] / t;
    assert SumLaw(e, a / t, b / t);
  }

  lemma {:induction false} RawSums(e: real -> real, f: Facet, t: real, b: nat)
    requires IsExp(e) && t > 0.0 && b <= |f.scores| == |f.values| && b >= 1
    ensures RawMass(e, f, t, b) == Times(Cum(e, f, t, b), e(f.scores[0] / t))
    ensures RawSum(e, f, t, b) == Times(CumValues(e, f, t, b), e(f.scores[0] / t))
  {
    hide IsExp, WeightsOf, Cum, CumValues, RawMass, RawSum, Times;
    MassAdds(e, f, t, b);
    ValueAdds(e, f, t, b);
    Unanchored(e, f, t, b - 1);
    OneMoreRow(Cum(e, f, t, b - 1), CumValues(e, f, t, b - 1), WeightsOf(e, f, t)[b - 1], f.values[b - 1],
               e(f.scores[0] / t));
    if b > 1 {
      RawSums(e, f, t, b - 1);
    }
  }

  lemma {:induction false} MassAdds(e: real -> real, f: Facet, t: real, b: nat)
    requires t > 0.0 && 1 <= b <= |f.scores|
    ensures Cum(e, f, t, b) == Cum(e, f, t, b - 1) + WeightsOf(e, f, t)[b - 1]
    ensures RawMass(e, f, t, b) == RawMass(e, f, t, b - 1) + e(f.scores[b - 1] / t)
    ensures b == 1 ==> Cum(e, f, t, 0) == RawMass(e, f, t, 0) == 0.0
  {
    hide WeightsOf;
  }

  lemma {:induction false} ValueAdds(e: real -> real, f: Facet, t: real, b: nat)
    requires t > 0.0 && 1 <= b <= |f.scores| == |f.values|
    ensures CumValues(e, f, t, b) == CumValues(e, f, t, b - 1) + Times(WeightsOf(e, f, t)[b - 1], f.values[b - 1])
    ensures RawSum(e, f, t, b) == RawSum(e, f, t, b - 1) + Times(e(f.scores[b - 1] / t), f.values[b - 1])
    ensures b == 1 ==> CumValues(e, f, t, 0) == RawSum(e, f, t, 0) == 0.0
  {
    hide WeightsOf, SumTo, Products, RawMass, Cum;
    LastProduct(WeightsOf(e, f, t), f.values, b);
    SumFromZero(WeightsOf(e, f, t), Products(WeightsOf(e, f, t), f.values));
  }

  lemma {:induction false} OneMoreRow(c: real, u: real, w: real, v: real, k: real)
    ensures Times(c + w, k) == Times(c, k) + Times(w, k)
    ensures Times(u + Times(w, v), k) == Times(u, k) + Times(Times(w, k), v)
    ensures Times(0.0, k) == 0.0
  {
    assert (w * k) * v == (w * v) * k;
  }

  /** As often as rows are left, the mass of the last row read. */
  ghost function RawTail(e: real -> real, f: Facet, t: real, b: nat): real
    requires t > 0.0 && 1 <= b <= |f.scores|
  {
    (|f.scores| - b) as real * e(f.scores[b - 1] / t)
  }

  /** The mean over a prefix is the softmax mean of its rows. */
  lemma {:induction false} MeanIs(e: real -> real, f: Facet, t: real, b: nat)
    requires IsExp(e) && t > 0.0 && Valid(f) && 1 <= b <= Size(f)
    ensures RawMass(e, f, t, b) > 0.0
    ensures MeanOf(e, f, t, b) == RawSum(e, f, t, b) / RawMass(e, f, t, b)
  {
    RawSums(e, f, t, b);
    FactorPositive(e, f.scores[0] / t);
    CumPositive(e, f, t, b);
    hide Cum, CumValues, RawSum, RawMass, Times, IsExp, TailHat;
    SameRatio(CumValues(e, f, t, b), Cum(e, f, t, b), e(f.scores[0] / t), RawSum(e, f, t, b), RawMass(e, f, t, b));
  }

  /** The true fraction is the mass left out over the whole mass. */
  lemma {:induction false} DeltaTrueIs(e: real -> real, f: Facet, t: real, b: nat)
    requires IsExp(e) && t > 0.0 && Valid(f) && 1 <= b <= Size(f)
    ensures
      var mass, whole := RawMass(e, f, t, b), RawMass(e, f, t, |f.scores|);
      whole > 0.0 && DeltaTrue(e, f, t, b) == (whole - mass) / whole
  {
    RawSums(e, f, t, b);
    RawSums(e, f, t, Size(f));
    FactorPositive(e, f.scores[0] / t);
    CumPositive(e, f, t, Size(f));
    hide Cum, CumValues, RawSum, RawMass, Times, IsExp, TailHat;
    LeftOver(Cum(e, f, t, b), Cum(e, f, t, Size(f)), e(f.scores[0] / t), RawMass(e, f, t, b), RawMass(e, f, t, Size(f)));
  }

  /** The estimate made before reading takes every row that is left to weigh as much as the last one read. */
  lemma {:induction false} DeltaPreIs(e: real -> real, f: Facet, t: real, b: nat)
    requires IsExp(e) && t > 0.0 && Valid(f) && 1 <= b <= Size(f)
    ensures
      var mass, tail := RawMass(e, f, t, b), RawTail(e, f, t, b);
      mass + tail > 0.0 && DeltaPre(e, f, t, b) == tail / (mass + tail)
  {
    RawSums(e, f, t, b);
    FactorPositive(e, f.scores[0] / t);
    CumPositive(e, f, t, b);
    RawTailIs(e, f, t, b);
    hide Cum, CumValues, RawSum, RawMass, Times, IsExp, TailHat, RawTail;
    TailScaled(Cum(e, f, t, b), TailHat(e, f, t, b), e(f.scores[0] / t), RawMass(e, f, t, b), RawTail(e, f, t, b));
  }

  lemma {:induction false} RawTailIs(e: real -> real, f: Facet, t: real, b: nat)
    requires IsExp(e) && t > 0.0 && 1 <= b <= |f.scores|
    ensures RawTail(e, f, t, b) == Times(TailHat(e, f, t, b), e(f.scores[0] / t))
  {
    Unanchored(e, f, t, b - 1);
    hide IsExp, WeightsOf;
    TailIs((Size(f) - b) as real, WeightsOf(e, f, t)[b - 1], e(f.scores[b - 1] / t), e(f.scores[0] / t));
  }

  lemma {:induction false} TailIs(rest: real, w: real, last: real, k: real)
    requires last == Times(w, k)
    ensures Times(rest, last) == Times(Times(rest, w), k)
  {
    assert (rest * w) * k == rest * (w * k);
  }

  lemma {:induction false} SameRatio(u: real, c: real, k: real, sum: real, mass: real)
    requires c > 0.0 && k > 0.0 && sum == Times(u, k) && mass == Times(c, k)
    ensures mass > 0.0 && u / c == sum / mass
  {
    var q := u / c;
    assert q * c == u;
    assert q * mass == (q * c) * k;
    QuotientIs(q, sum, mass);
  }

  lemma {:induction false} LeftOver(c: real, z: real, k: real, mass: real, whole: real)
    requires z > 0.0 && k > 0.0 && mass == Times(c, k) && whole == Times(z, k)
    ensures whole > 0.0 && 1.0 - c / z == (whole - mass) / whole
  {
    var q := c / z;
    assert q * z == c;
    assert q * whole == (q * z) * k;
    assert (1.0 - q) * whole == whole - q * whole;
    QuotientIs(1.0 - q, whole - mass, whole);
  }

  lemma {:induction false} QuotientIs(q: real, a: real, z: real)
    requires z > 0.0 && q * z == a
    ensures q == a / z
  {
  }

  lemma {:induction false} TailScaled(c: real, tail: real, k: real, mass: real, rawTail: real)
    requires c > 0.0 && tail >= 0.0 && k > 0.0 && mass == Times(c, k) && rawTail == Times(tail, k)
    ensures mass + rawTail > 0.0 && tail / (c + tail) == rawTail / (mass + rawTail)
  {
    assert Times(c + tail, k) == mass + rawTail;
    SameRatio(tail, c + tail, k, rawTail, mass + rawTail);
  }

  lemma {:induction false} FactorPositive(e: real -> real, x: real)
    requires IsExp(e)
    ensures e(x) > 0.0
  {
    assert Positive(e, x);
  }

  // ------------------------------------------------------------------ the smallest certified prefix

  /** The prefix meets the budget by the estimate made before, or by the true fraction. */
  ghost predicate MeetsPre(e: real -> real, f: Facet, t: real, beta: real, b: nat)
    requires IsExp(e) && t > 0.0 && Valid(f) && 1 <= b <= Size(f)
  {
    DeltaPre(e, f, t, b) * (f.hi - f.lo) <= beta
  }

  ghost predicate MeetsTrue(e: real -> real, f: Facet, t: real, beta: real, b: nat)
    requires IsExp(e) && t > 0.0 && Valid(f) && 1 <= b <= Size(f)
  {
    DeltaTrue(e, f, t, b) * (f.hi - f.lo) <= beta
  }

  lemma {:induction false} FullSizeCertified(e: real -> real, f: Facet, t: real, beta: real)
    requires IsExp(e) && t > 0.0 && Valid(f) && Size(f) >= 1 && beta >= 0.0
    ensures MeetsPre(e, f, t, beta, Size(f)) && MeetsTrue(e, f, t, beta, Size(f))
  {
    hide IsExp, DeltaPre, DeltaTrue;
    FullSizeMeets(e, f, t);
    NothingOmitted(DeltaPre(e, f, t, Size(f)), f.hi - f.lo, beta);
    NothingOmitted(DeltaTrue(e, f, t, Size(f)), f.hi - f.lo, beta);
  }

  lemma {:induction false} NothingOmitted(d: real, range: real, beta: real)
    requires d == 0.0 && beta >= 0.0
    ensures d * range <= beta
  {
  }

  lemma {:induction false} PreMeansTrue(e: real -> real, f: Facet, t: real, beta: real, b: nat)
    requires IsExp(e) && t > 0.0 && Valid(f) && 1 <= b <= Size(f) && MeetsPre(e, f, t, beta, b)
    ensures MeetsTrue(e, f, t, beta, b)
  {
    hide IsExp, DeltaPre, DeltaTrue;
    PreDominatesTrue(e, f, t, b);
    RangeNonNegative(f);
    TimesMonotone(DeltaTrue(e, f, t, b), DeltaPre(e, f, t, b), f.hi - f.lo);
  }

  /** A prefix that meets the budget by the true fraction gives a mean within the budget. */
  lemma {:induction false} WithinBudget(e: real -> real, f: Facet, t: real, beta: real, b: nat)
    requires IsExp(e) && t > 0.0 && Valid(f) && 1 <= b <= Size(f) && MeetsTrue(e, f, t, beta, b)
    ensures Abs(MeanOf(e, f, t, b) - MeanOf(e, f, t, Size(f))) <= beta
  {
    hide IsExp, DeltaTrue, MeanOf, Abs;
    TruncationError(e, f, t, b);
  }

  lemma {:induction false} RangeNonNegative(f: Facet)
    requires Valid(f) && Size(f) >= 1
    ensures f.hi - f.lo >= 0.0
  {
    assert f.lo <= f.values[0] <= f.hi;
  }

  lemma {:induction false} TimesMonotone(a: real, b: real, r: real)
    requires a <= b && r >= 0.0
    ensures a * r <= b * r
  {
  }

  /** What the plan for one facet reads: the first prefix that meets the budget before the tail is read, and the
      first that would have met it with the true fraction. */
  method PlanFacet(e: real -> real, f: Facet, t: real, beta: real) returns (pre: Option<nat>, tru: Option<nat>)
    requires IsExp(e) && t > 0.0 && Valid(f) && Size(f) >= 1
    ensures beta >= 0.0 ==> pre.Some? && tru.Some?
    ensures pre.Some? ==> 1 <= pre.value <= Size(f) && MeetsPre(e, f, t, beta, pre.value)
    ensures forall b :: 1 <= b <= Size(f) && (pre.Some? ==> b < pre.value) ==> !MeetsPre(e, f, t, beta, b)
    ensures tru.Some? ==> 1 <= tru.value <= Size(f) && MeetsTrue(e, f, t, beta, tru.value)
    ensures forall b :: 1 <= b <= Size(f) && (tru.Some? ==> b < tru.value) ==> !MeetsTrue(e, f, t, beta, b)
    ensures pre.Some? ==> tru.Some? && tru.value <= pre.value
    ensures pre.Some? ==> Abs(MeanOf(e, f, t, pre.value) - MeanOf(e, f, t, Size(f))) <= beta
    ensures tru.Some? ==> Abs(MeanOf(e, f, t, tru.value) - MeanOf(e, f, t, Size(f))) <= beta
  {
    hide IsExp, DeltaPre, DeltaTrue, MeanOf, Abs;
    pre, tru := None, None;
    for b := 1 to Size(f) + 1
      invariant pre.Some? ==> 1 <= pre.value < b && MeetsPre(e, f, t, beta, pre.value)
      invariant forall k :: 1 <= k < b && (pre.Some? ==> k < pre.value) ==> !MeetsPre(e, f, t, beta, k)
      invariant tru.Some? ==> 1 <= tru.value < b && MeetsTrue(e, f, t, beta, tru.value)
      invariant forall k :: 1 <= k < b && (tru.Some? ==> k < tru.value) ==> !MeetsTrue(e, f, t, beta, k)
    {
      if pre.None? && DeltaPre(e, f, t, b) * (f.hi - f.lo) <= beta {
        pre := Some(b);
      }
      if tru.None? && DeltaTrue(e, f, t, b) * (f.hi - f.lo) <= beta {
        tru := Some(b);
      }
    }
    if beta >= 0.0 {
      FullSizeCertified(e, f, t, beta);
    }
    if pre.Some? {
      PreMeansTrue(e, f, t, beta, pre.value);
      WithinBudget(e, f, t, beta, pre.value);
    }
    if tru.Some? {
      WithinBudget(e, f, t, beta, tru.value);
    }
  }

  /** The rows a facet's plan reads from row `b` on: up to the first prefix that meets the budget, or all of them. */
  ghost function Reads(e: real -> real, f: Facet, t: real, beta: real, before: bool, b: nat): (r: nat)
    requires IsExp(e) && t > 0.0 && Valid(f) && 1 <= b <= Size(f)
    ensures b <= r <= Size(f)
    decreases Size(f) - b
  {
    if b == Size(f) || (if before then MeetsPre(e, f, t, beta, b) else MeetsTrue(e, f, t, beta, b)) then b
    else Reads(e, f, t, beta, before, b + 1)
  }

  /** The first prefix that meets the budget is what is read, and everything is read when there is none. */
  lemma {:induction false} ReadsIs(e: real -> real, f: Facet, t: real, beta: real, before: bool, b: nat,
                                   first: Option<nat>)
    requires IsExp(e) && t > 0.0 && Valid(f) && 1 <= b <= Size(f)
    requires first.Some? ==> b <= first.value <= Size(f)
    requires first.Some? ==> if before then MeetsPre(e, f, t, beta, first.value) else MeetsTrue(e, f, t, beta, first.value)
    requires forall k :: 1 <= k <= Size(f) && (first.Some? ==> k < first.value) ==>
      if before then !MeetsPre(e, f, t, beta, k) else !MeetsTrue(e, f, t, beta, k)
    ensures Reads(e, f, t, beta, before, b) == if first.Some? then first.value else Size(f)
    decreases Size(f) - b
  {
    hide IsExp, Valid, MeetsPre, MeetsTrue;
    if b < Size(f) && first != Some(b) {
      ReadsIs(e, f, t, beta, before, b + 1, first);
    }
  }

  ghost function RowsRead(e: real -> real, fs: seq<Facet>, t: real, beta: real, before: bool, n: nat): nat
    requires IsExp(e) && t > 0.0 && n <= |fs| && forall i :: 0 <= i < |fs| ==> Valid(fs[i])
  {
    if n == 0 then 0
    else RowsRead(e, fs, t, beta, before, n - 1) + (if Size(fs[n - 1]) > 0 then Reads(e, fs[n - 1], t, beta, before, 1) else 0)
  }

  datatype Plan = Plan(readPre: nat, readTrue: nat, declinedPre: nat, declinedTrue: nat, live: nat)

  function TotalRows(fs: seq<Facet>, n: nat): nat
    requires n <= |fs|
  {
    if n == 0 then 0 else TotalRows(fs, n - 1) + Size(fs[n - 1])
  }

  function LiveFacets(fs: seq<Facet>, n: nat): nat
    requires n <= |fs|
  {
    if n == 0 then 0 else LiveFacets(fs, n - 1) + (if Size(fs[n - 1]) > 0 then 1 else 0)
  }

  /** The plan over all facets. With a non-negative budget no facet is declined, and the plan made before reading
      reads at least as much as the one made with the true fractions, and at most everything. */
  method PlanAll(e: real -> real, fs: seq<Facet>, t: real, beta: real) returns (p: Plan)
    requires IsExp(e) && t > 0.0 && forall g :: 0 <= g < |fs| ==> Valid(fs[g])
    ensures p.live == LiveFacets(fs, |fs|)
    ensures p.readPre == RowsRead(e, fs, t, beta, true, |fs|) && p.readTrue == RowsRead(e, fs, t, beta, false, |fs|)
    ensures p.readTrue <= p.readPre <= TotalRows(fs, |fs|)
    ensures beta >= 0.0 ==> p.declinedPre == 0 && p.declinedTrue == 0
    ensures p.declinedTrue <= p.declinedPre <= p.live
  {
    hide IsExp, Valid, MeetsPre, MeetsTrue, MeanOf, Abs, Reads;
    p := Plan(0, 0, 0, 0, 0);
    for g := 0 to |fs|
      invariant p.live == LiveFacets(fs, g) && p.readTrue <= p.readPre <= TotalRows(fs, g)
      invariant p.readPre == RowsRead(e, fs, t, beta, true, g) && p.readTrue == RowsRead(e, fs, t, beta, false, g)
      invariant beta >= 0.0 ==> p.declinedPre == 0 && p.declinedTrue == 0
      invariant p.declinedTrue <= p.declinedPre <= p.live
    {
      var n := Size(fs[g]);
      if n > 0 {
        var pre, tru := PlanFacet(e, fs[g], t, beta);
        ReadsIs(e, fs[g], t, beta, true, 1, pre);
        ReadsIs(e, fs[g], t, beta, false, 1, tru);
        p := Plan(p.readPre + (if pre.Some? then pre.value else n), p.readTrue + (if tru.Some? then tru.value else n),
                  p.declinedPre + (if pre.Some? then 0 else 1), p.declinedTrue + (if tru.Some? then 0 else 1),
                  p.live + 1);
      }
    }
  }

  // ------------------------------------------------------------------ verify or repair

  /** The proposed share of a facet: `ceil(kstar * ng / n)`, at least one row and at most all. */
  function Share(kstar: nat, ng: nat, n: nat): (k: nat)
    requires ng >= 1 && n >= 1
    ensures 1 <= k <= ng
  {
    var c := (kstar * ng + n - 1) / n;
    if c < 1 then 1 else if c > ng then ng else c
  }

  /** The share is the least number of rows, from one to all, that is not below `kstar * ng / n`; all, when none is. */
  lemma {:induction false} ShareIs(kstar: nat, ng: nat, n: nat)
    requires ng >= 1 && n >= 1
    ensures
      var k := Share(kstar, ng, n);
      && 1 <= k <= ng
      && (k < ng ==> k * n >= kstar * ng)
      && (k > 1 ==> (k - 1) * n < kstar * ng)
  {
    var p, c, k := kstar * ng, (kstar * ng + n - 1) / n, Share(kstar, ng, n);
    assert c * n <= p + n - 1 < c * n + n;
    assert (c - 1) * n == c * n - n;
    if k > 1 {
      MultiplyMonotone(k - 1, c - 1, n);
    }
    if k < ng {
      MultiplyMonotone(c, k, n);
    }
  }

  lemma {:induction false} MultiplyMonotone(a: int, b: int, n: nat)
    requires a <= b
    ensures a * n <= b * n
  {
  }

  /** The rows the loop answers a facet from: the proposed share when its bound is met, and all of them otherwise. */
  ghost function RowsUsed(e: real -> real, f: Facet, t: real, budget: real, kstar: nat, n: nat): (k: nat)
    requires IsExp(e) && t > 0.0 && Valid(f) && Size(f) >= 1 && n >= 1
    ensures 1 <= k <= Size(f)
  {
    if MeetsTrue(e, f, t, budget, Share(kstar, Size(f), n)) then Share(kstar, Size(f), n) else Size(f)
  }

  /** No answer for an empty facet; for every other the mean over the rows used, within the budget of the exact mean. */
  ghost predicate Answered(e: real -> real, f: Facet, t: real, budget: real, kstar: nat, n: nat, answer: Option<real>)
    requires IsExp(e) && t > 0.0 && Valid(f) && n >= 1
  {
    if Size(f) == 0 then answer == None else
      && answer == Some(MeanOf(e, f, t, RowsUsed(e, f, t, budget, kstar, n)))
      && (budget >= 0.0 ==> Abs(answer.value - MeanOf(e, f, t, Size(f))) <= budget)
  }

  /** One turn of the loop: the check of one proposal, and its repair. */
  method AnswerFacet(e: real -> real, f: Facet, t: real, budget: real, kstar: nat, n: nat)
    returns (answer: Option<real>, repair: bool)
    requires IsExp(e) && t > 0.0 && Valid(f) && n >= 1
    ensures Answered(e, f, t, budget, kstar, n, answer)
    ensures repair <==> Size(f) > 0 && !MeetsTrue(e, f, t, budget, Share(kstar, Size(f), n))
  {
    hide IsExp, DeltaTrue, MeanOf, Share, Valid, Abs;
    if Size(f) == 0 {
      return None, false;
    }
    var k := Share(kstar, Size(f), n);
    var bound := DeltaTrue(e, f, t, k) * (f.hi - f.lo);
    if bound <= budget {
      WithinBudget(e, f, t, budget, k);
      return Some(MeanOf(e, f, t, k)), false;
    }
    NoError(MeanOf(e, f, t, Size(f)));
    return Some(MeanOf(e, f, t, Size(f))), true;
  }

  lemma {:induction false} NoError(x: real)
    ensures Abs(x - x) == 0.0
  {
  }

  /** The smallest prefix an oracle would read: the first that meets the budget with the true fraction, or all rows. */
  method OracleRows(e: real -> real, f: Facet, t: real, budget: real) returns (k: nat)
    requires IsExp(e) && t > 0.0 && Valid(f) && Size(f) >= 1
    ensures k == Reads(e, f, t, budget, false, 1)
  {
    hide IsExp, DeltaTrue, Valid;
    k := 1;
    while k < Size(f) && !(DeltaTrue(e, f, t, k) * (f.hi - f.lo) <= budget)
      invariant 1 <= k <= Size(f) && Reads(e, f, t, budget, false, 1) == Reads(e, f, t, budget, false, k)
    {
      k := k + 1;
    }
  }

  /** A share that is certified is no smaller than what the oracle reads. */
  lemma {:induction false} OracleAtMost(e: real -> real, f: Facet, t: real, budget: real, b: nat, k: nat)
    requires IsExp(e) && t > 0.0 && Valid(f) && 1 <= b <= k <= Size(f) && MeetsTrue(e, f, t, budget, k)
    ensures Reads(e, f, t, budget, false, b) <= k
    decreases k - b
  {
    hide IsExp, Valid, MeetsTrue, MeetsPre;
    if b < k {
      OracleAtMost(e, f, t, budget, b + 1, k);
    }
  }

  /** Over the first `g` facets: how many cannot be certified at their share. */
  ghost function Misses(e: real -> real, fs: seq<Facet>, t: real, budget: real, kstar: nat, n: nat, g: nat): nat
    requires IsExp(e) && t > 0.0 && n >= 1 && g <= |fs| && forall i :: 0 <= i < |fs| ==> Valid(fs[i])
  {
    if g == 0 then
      0
    else
      Misses(e, fs, t, budget, kstar, n, g - 1)
      + (if Size(fs[g - 1]) > 0 && !MeetsTrue(e, fs[g - 1], t, budget, Share(kstar, Size(fs[g - 1]), n)) then 1 else 0)
  }

  /** And the sum of the shares. */
  function Shares(fs: seq<Facet>, kstar: nat, n: nat, g: nat): nat
    requires n >= 1 && g <= |fs|
  {
    if g == 0 then 0
    else Shares(fs, kstar, n, g - 1) + (if Size(fs[g - 1]) > 0 then Share(kstar, Size(fs[g - 1]), n) else 0)
  }

  datatype Repairs = Repairs(repaired: nat, planned: nat, oracle: nat)

  /** The loop that checks every proposal and repairs those it cannot certify. Whatever was proposed, every non-empty
      facet is answered within a non-negative budget, and a repair is made exactly where the proposal misses. Without
      repairs the plan read no fewer rows than the oracle. */
  method VerifyOrRepair(e: real -> real, fs: seq<Facet>, t: real, budget: real, kstar: nat, n: nat)
    returns (answers: seq<Option<real>>, totals: Repairs)
    requires IsExp(e) && t > 0.0 && n >= 1 && forall g :: 0 <= g < |fs| ==> Valid(fs[g])
    ensures |answers| == |fs| && totals.repaired == Misses(e, fs, t, budget, kstar, n, |fs|)
    ensures forall g :: 0 <= g < |fs| ==> Answered(e, fs[g], t, budget, kstar, n, answers[g])
    ensures totals.planned == Shares(fs, kstar, n, |fs|) && totals.oracle == RowsRead(e, fs, t, budget, false, |fs|)
    ensures totals.repaired == 0 ==> totals.oracle <= totals.planned
  {
    hide IsExp, MeetsTrue, Answered, Share, Valid, Reads;
    answers, totals := [], Repairs(0, 0, 0);
    for g := 0 to |fs|
      invariant |answers| == g && totals.repaired == Misses(e, fs, t, budget, kstar, n, g)
      invariant forall h :: 0 <= h < g ==> Answered(e, fs[h], t, budget, kstar, n, answers[h])
      invariant totals.planned == Shares(fs, kstar, n, g) && totals.oracle == RowsRead(e, fs, t, budget, false, g)
      invariant totals.repaired == 0 ==> totals.oracle <= totals.planned
    {
      var answer, repair := AnswerFacet(e, fs[g], t, budget, kstar, n);
      answers := answers + [answer];
      if Size(fs[g]) > 0 {
        var share := Share(kstar, Size(fs[g]), n);
        var oracle := OracleRows(e, fs[g], t, budget);
        if !repair {
          OracleAtMost(e, fs[g], t, budget, 1, share);
        }
        totals := Repairs(totals.repaired + (if repair then 1 else 0), totals.planned + share, totals.oracle + oracle);
      }
    }
  }
}
