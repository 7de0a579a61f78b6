/** Quantitative dequantization: how far the softmax mean at a temperature is from the mean over the ties at the
    maximum, and the temperature that keeps it within a tolerance. */
module Dequantization {
  import opened Wrappers
  import opened Exponential
  import opened SoftAccumulator
  import opened Evaluators

  function Abs(x: real): real {
    if x < 0.0 then -x else x
  }

  // ------------------------------------------------------------------ multiplicity and gap

  /** How many of the first `n` scores are `m`. */
  function Ties(scores: seq<real>, m: real, n: nat): (k: nat)
    requires n <= |scores|
    ensures k <= n
    ensures k > 0 <==> exists i :: 0 <= i < n && scores[i] == m
  {
    if n == 0 then 0 else Ties(scores, m, n - 1) + (if scores[n - 1] == m then 1 else 0)
  }

  /** The largest of the first `n` scores that is below `m`. */
  function Second(scores: seq<real>, m: real, n: nat): (s: Option<real>)
    requires n <= |scores|
    ensures s.Some? ==> s.value < m && forall i :: 0 <= i < n && scores[i] < m ==> scores[i] <= s.value
    ensures s.None? ==> forall i :: 0 <= i < n ==> scores[i] >= m
  {
    if n == 0 then None
    else
      var s := Second(scores, m, n - 1);
      var x := scores[n - 1];
      if x < m && (s.None? || s.value < x) then Some(x) else s
  }

  datatype Profile = Profile(max: real, ties: nat, gap: Option<real>)

  /** The maximum, its multiplicity, and the gap to the next score, if there is one. */
  function ProfileOf(scores: seq<real>): (p: Profile)
    requires scores != []
    ensures 0 < p.ties <= |scores|
    ensures p.gap.Some? ==> p.gap.value > 0.0 && forall i :: 0 <= i < |scores| ==>
      scores[i] == p.max || scores[i] <= p.max - p.gap.value
    ensures p.gap.None? <==> p.ties == |scores|
  {
    var m := MaxOf(scores);
    var second := Second(scores, m, |scores|);
    AllTies(scores, m, |scores|);
    Profile(m, Ties(scores, m, |scores|), if second.Some? then Some(m - second.value) else None)
  }

  lemma {:induction false} AllTies(scores: seq<real>, m: real, n: nat)
    requires n <= |scores| && forall i :: 0 <= i < n ==> scores[i] <= m
    ensures Ties(scores, m, n) == n <==> Second(scores, m, n).None?
  {
    if n > 0 {
      AllTies(scores, m, n - 1);
    }
  }

  /** The bound of the original: zero at zero temperature and when all scores tie. */
  function DequantizationBound(e: real -> real, scores: seq<real>, vMax: real, eps: Temp): real
    requires eps.Valid()
  {
    if scores == [] || eps.Zero? then 0.0
    else
      var p := ProfileOf(scores);
      if p.ties == |scores| then 0.0
      else
        var trivial := Trivial(vMax, |scores|, p.ties);
        if eps.Infinite? then trivial else trivial * e(-p.gap.value / eps.t)
  }

  function Trivial(vMax: real, n: nat, k: nat): real
    requires 0 < k <= n
  {
    2.0 * vMax * (n - k) as real / k as real
  }

  // ------------------------------------------------------------------ the two sums

  /** A value sum of weight `z` with values of at most `vMax`. */
  ghost predicate Held(u: real, z: real, vMax: real) {
    Abs(u) <= vMax * z
  }

  lemma {:induction false} HeldSum(u: real, z: real, u': real, z': real, vMax: real)
    requires Held(u, z, vMax) && Held(u', z', vMax)
    ensures Held(u + u', z + z', vMax)
  {
    assert vMax * (z + z') == vMax * z + vMax * z';
  }

  /** At most `x` for each. */
  ghost function AtEach(others: real, x: real): real {
    others * x
  }

  lemma {:induction false} OneMoreEach(others: real, x: real)
    ensures AtEach(others + 1.0, x) == AtEach(others, x) + x
  {
  }

  /** How the sums at a temperature exceed the sums over the ties: by at most `x` for every score that is not a
      tie, and by values of at most `vMax` per weight. */
  ghost predicate Apart(p0: Mass, p1: Mass, others: real, vMax: real, x: real) {
    && p0.z >= 0.0 && Held(p0.u, p0.z, vMax)
    && p1.z >= p0.z && Held(p1.u - p0.u, p1.z - p0.z, vMax)
    && p1.z - p0.z <= AtEach(others, x)
  }

  lemma {:induction false} HeldOne(v: real, vMax: real)
    requires Abs(v) <= vMax
    ensures Held(v, 1.0, vMax)
  {
  }

  lemma {:induction false} AddTie(p0: Mass, p1: Mass, others: real, vMax: real, x: real, v: real)
    requires Apart(p0, p1, others, vMax, x) && Abs(v) <= vMax
    ensures Apart(Plus(p0, Mass(1.0, v)), Plus(p1, Mass(1.0, v)), others, vMax, x)
  {
    HeldOne(v, vMax);
    HeldSum(p0.u, p0.z, v, 1.0, vMax);
    hide Held, AtEach;
    assert (p1.u + v) - (p0.u + v) == p1.u - p0.u && (p1.z + 1.0) - (p0.z + 1.0) == p1.z - p0.z;
  }

  lemma {:induction false} AddOther(p0: Mass, p1: Mass, others: real, vMax: real, x: real, w: real, v: real)
    requires Apart(p0, p1, others, vMax, x) && Abs(v) <= vMax && 0.0 <= w <= x
    ensures Apart(p0, Plus(p1, Mass(w, w * v)), others + 1.0, vMax, x)
  {
    AbsTimes(w, v, vMax);
    HeldSum(p1.u - p0.u, p1.z - p0.z, w * v, w, vMax);
    OneMoreEach(others, x);
    hide Held, AtEach;
    var u := w * v;
    assert (p1.u + u) - p0.u == p1.u - p0.u + u && (p1.z + w) - p0.z == p1.z - p0.z + w;
  }

  lemma {:induction false} AbsTimes(w: real, v: real, vMax: real)
    requires w >= 0.0 && Abs(v) <= vMax
    ensures Abs(w * v) <= vMax * w
  {
    assert w * v <= w * vMax && w * v >= w * -vMax;
  }

  /** The weight of a score that is not a tie. */
  function Ceiling(e: real -> real, gap: real, eps: Temp): real
    requires eps.Valid() && !eps.Zero?
  {
    if eps.Infinite? then 1.0 else e(-gap / eps.t)
  }

  lemma {:induction false} WeightBelowCeiling(e: real -> real, s: real, m: real, gap: real, eps: Temp)
    requires eps.Valid() && !eps.Zero? && IsExp(e) && s <= m - gap && gap > 0.0
    ensures 0.0 <= RawWeight(e, s, m, eps) <= Ceiling(e, gap, eps)
  {
    if eps.Warm? {
      DivideMonotone(s - m, -gap, eps.t);
      Monotone(e, (s - m) / eps.t, -gap / eps.t);
    }
  }

  lemma {:induction false} TieWeight(e: real -> real, m: real, eps: Temp)
    requires eps.Valid() && IsExp(e)
    ensures RawWeight(e, m, m, eps) == 1.0
  {
    if eps.Warm? {
      assert (m - m) / eps.t == 0.0;
    }
  }

  ghost predicate Bounded(values: seq<real>, vMax: real) {
    forall i :: 0 <= i < |values| ==> Abs(values[i]) <= vMax
  }

  function MassFor(e: real -> real, s: real, v: real, m: real, eps: Temp): Mass
    requires eps.Valid()
  {
    Mass(RawWeight(e, s, m, eps), RawWeight(e, s, m, eps) * v)
  }

  /** The masses of the rows against their maximum. */
  function MassesOf(e: real -> real, scores: seq<real>, values: seq<real>, eps: Temp): (ms: seq<Mass>)
    requires eps.Valid() && |scores| == |values| && scores != []
    ensures |ms| == |scores|
    ensures forall i :: 0 <= i < |ms| ==> ms[i] == MassFor(e, scores[i], values[i], MaxOf(scores), eps)
  {
    seq(|scores|, i requires 0 <= i < |scores| => MassFor(e, scores[i], values[i], MaxOf(scores), eps))
  }

  lemma {:induction false} PrefixApart(e: real -> real, scores: seq<real>, values: seq<real>, vMax: real, gap: real,
                                       eps: Temp, n: nat)
    requires eps.Valid() && !eps.Zero? && IsExp(e) && |scores| == |values| && scores != [] && n <= |scores|
    requires Bounded(values, vMax) && gap > 0.0
    requires forall i :: 0 <= i < |scores| ==> scores[i] == MaxOf(scores) || scores[i] <= MaxOf(scores) - gap
    ensures
      var k := Ties(scores, MaxOf(scores), n);
      && PrefixMass(MassesOf(e, scores, values, Zero), n).z == k as real
      && Apart(PrefixMass(MassesOf(e, scores, values, Zero), n), PrefixMass(MassesOf(e, scores, values, eps), n),
               (n - k) as real, vMax, Ceiling(e, gap, eps))
  {
    hide IsExp, Apart, MaxOf, MassesOf, PrefixMass, Ceiling;
    if n == 0 {
      ApartAtStart(MassesOf(e, scores, values, Zero), MassesOf(e, scores, values, eps), vMax, Ceiling(e, gap, eps));
    } else {
      PrefixApart(e, scores, values, vMax, gap, eps, n - 1);
      OneMoreApart(e, scores, values, vMax, gap, eps, n - 1);
    }
  }

  /** One more score. */
  lemma {:induction false} OneMoreApart(e: real -> real, scores: seq<real>, values: seq<real>, vMax: real, gap: real,
                                        eps: Temp, i: nat)
    requires eps.Valid() && !eps.Zero? && IsExp(e) && |scores| == |values| && i < |scores|
    requires Abs(values[i]) <= vMax && gap > 0.0
    requires scores[i] == MaxOf(scores) || scores[i] <= MaxOf(scores) - gap
    requires PrefixMass(MassesOf(e, scores, values, Zero), i).z == Ties(scores, MaxOf(scores), i) as real
    requires Apart(PrefixMass(MassesOf(e, scores, values, Zero), i), PrefixMass(MassesOf(e, scores, values, eps), i),
                   (i - Ties(scores, MaxOf(scores), i)) as real, vMax, Ceiling(e, gap, eps))
    ensures PrefixMass(MassesOf(e, scores, values, Zero), i + 1).z == Ties(scores, MaxOf(scores), i + 1) as real
    ensures Apart(PrefixMass(MassesOf(e, scores, values, Zero), i + 1), PrefixMass(MassesOf(e, scores, values, eps), i + 1),
                  (i + 1 - Ties(scores, MaxOf(scores), i + 1)) as real, vMax, Ceiling(e, gap, eps))
  {
    hide IsExp, MaxOf, MassesOf, MassFor, RawWeight, Ceiling, Ties, PrefixMass, Apart, Abs;
    var m, s, v := MaxOf(scores), scores[i], values[i];
    var a, b := MassesOf(e, scores, values, Zero), MassesOf(e, scores, values, eps);
    var w0, w := RawWeight(e, s, m, Zero), RawWeight(e, s, m, eps);
    ZeroWeight(e, s, m);
    if s == m {
      TieWeight(e, m, eps);
    } else {
      WeightBelowCeiling(e, s, m, gap, eps);
    }
    TiesStep(scores, m, i);
    PrefixStep(a, i + 1);
    PrefixStep(b, i + 1);
    MassForIs(e, s, v, m, Zero);
    MassForIs(e, s, v, m, eps);
    var others := i - Ties(scores, m, i);
    ApartStep(PrefixMass(a, i), PrefixMass(b, i), others, vMax, Ceiling(e, gap, eps), w0, w, v, s == m);
    assert a[i] == Mass(w0, w0 * v) && b[i] == Mass(w, w * v);
    assert i + 1 - Ties(scores, m, i + 1) == if s == m then others else others + 1;
  }

  lemma {:induction false} TiesStep(scores: seq<real>, m: real, i: nat)
    requires i < |scores|
    ensures Ties(scores, m, i + 1) == Ties(scores, m, i) + (if scores[i] == m then 1 else 0)
  {
  }

  lemma {:induction false} MassForIs(e: real -> real, s: real, v: real, m: real, eps: Temp)
    requires eps.Valid()
    ensures MassFor(e, s, v, m, eps) == Mass(RawWeight(e, s, m, eps), RawWeight(e, s, m, eps) * v)
  {
  }

  lemma {:induction false} ApartStep(p0: Mass, p1: Mass, others: nat, vMax: real, x: real, w0: real, w: real, v: real,
                                     tie: bool)
    requires Apart(p0, p1, others as real, vMax, x) && Abs(v) <= vMax
    requires if tie then w0 == 1.0 && w == 1.0 else w0 == 0.0 && 0.0 <= w <= x
    ensures Plus(p0, Mass(w0, w0 * v)).z == p0.z + w0
    ensures Apart(Plus(p0, Mass(w0, w0 * v)), Plus(p1, Mass(w, w * v)), (if tie then others else others + 1) as real, vMax, x)
  {
    hide Apart;
    if tie {
      AddTie(p0, p1, others as real, vMax, x, v);
      assert w0 * v == v && w * v == v;
    } else {
      AddOther(p0, p1, others as real, vMax, x, w, v);
      assert w0 * v == 0.0 && Plus(p0, Mass(0.0, 0.0)) == p0;
    }
  }

  lemma {:induction false} ZeroWeight(e: real -> real, s: real, m: real)
    ensures RawWeight(e, s, m, Zero) == if s == m then 1.0 else 0.0
  {
  }

  lemma {:induction false} ApartAtStart(a: seq<Mass>, b: seq<Mass>, vMax: real, x: real)
    ensures PrefixMass(a, 0).z == 0.0 && Apart(PrefixMass(a, 0), PrefixMass(b, 0), 0.0, vMax, x)
  {
  }

  lemma {:induction false} PrefixStep(ms: seq<Mass>, n: nat)
    requires 0 < n <= |ms|
    ensures PrefixMass(ms, n) == Plus(PrefixMass(ms, n - 1), ms[n - 1])
  {
  }

  /** The answer is the quotient of the two sums. */
  lemma {:induction false} AnswerOfMasses(e: real -> real, scores: seq<real>, values: seq<real>, eps: Temp)
    requires eps.Valid() && IsExp(e) && |scores| == |values| && scores != []
    ensures
      var total := SumMass(MassesOf(e, scores, values, eps));
      total.z >= 1.0 && SoftMean(e, Rows(scores, values), eps) == Some(total.u / total.z)
  {
    hide IsExp, RawWeight, MaxOf, SumTo, PrefixMass;
    var w := RawWeights(e, scores, eps);
    var us := Products(w, values);
    RawIsClosed(e, scores, values, us, eps);
    SumIsPositive(e, scores, eps);
    MassSums(MassesOf(e, scores, values, eps), w, us, |w|);
  }

  // ------------------------------------------------------------------ the bound

  /** With `k` ties, weights that exceed them by `z`, and values bounded by `vMax`, the two means differ by at most
      `2 * vMax * z / k`. */
  lemma {:induction false} MeansDiffer(u0: real, k: real, u: real, z: real, vMax: real)
    requires k >= 1.0 && z >= 0.0 && vMax >= 0.0
    requires Abs(u0) <= vMax * k && Abs(u) <= vMax * z
    ensures Abs((u0 + u) / (k + z) - u0 / k) <= 2.0 * vMax * z / k
  {
    hide Abs;
    var a := u0 / k;
    assert u0 == a * k;
    MeanBounded(a, k, vMax);
    MeanMoves(a, k, u, z, vMax);
  }

  lemma {:induction false} MeanMoves(a: real, k: real, u: real, z: real, vMax: real)
    requires k >= 1.0 && z >= 0.0 && Abs(a) <= vMax && vMax >= 0.0 && Abs(u) <= vMax * z
    ensures Abs((a * k + u) / (k + z) - a) <= 2.0 * vMax * z / k
  {
    hide Abs;
    var d := (a * k + u) / (k + z) - a;
    DifferenceTimes(a, k, u, z);
    var moved := d * (k + z);
    MovedBy(a, u, z, vMax, moved);
    SmallQuotient(d, k, z, 2.0 * vMax * z, moved);
  }

  lemma {:induction false} MovedBy(a: real, u: real, z: real, vMax: real, moved: real)
    requires z >= 0.0 && Abs(a) <= vMax && vMax >= 0.0 && Abs(u) <= vMax * z && moved == u - a * z
    ensures 2.0 * vMax * z >= 0.0 && Abs(moved) <= 2.0 * vMax * z
  {
    AbsTimes(z, a, vMax);
    assert z * a == a * z;
    AbsMinus(u, a * z, vMax * z);
    assert 2.0 * vMax * z == vMax * z + vMax * z && vMax * z >= 0.0;
  }

  lemma {:induction false} AbsMinus(x: real, y: real, b: real)
    requires Abs(x) <= b && Abs(y) <= b
    ensures Abs(x - y) <= b + b
  {
  }

  lemma {:induction false} MeanBounded(a: real, k: real, vMax: real)
    requires k >= 1.0 && Abs(a * k) <= vMax * k
    ensures Abs(a) <= vMax
  {
    if a > vMax {
      assert a * k > vMax * k;
    }
    if -a > vMax {
      assert -a * k > vMax * k;
    }
  }

  lemma {:induction false} DifferenceTimes(a: real, k: real, u: real, z: real)
    requires k >= 1.0 && z >= 0.0
    ensures ((a * k + u) / (k + z) - a) * (k + z) == u - a * z
  {
    var q := (a * k + u) / (k + z);
    assert q * (k + z) == a * k + u;
    assert a * (k + z) == a * k + a * z;
    assert (q - a) * (k + z) == q * (k + z) - a * (k + z);
  }

  lemma {:induction false} SmallQuotient(d: real, k: real, z: real, b: real, p: real)
    requires k >= 1.0 && z >= 0.0 && b >= 0.0 && p == d * (k + z) && Abs(p) <= b
    ensures Abs(d) <= b / k
  {
    AbsOfProduct(d, k + z);
    hide Abs;
    QuotientAtLeast(Abs(d), k, z, b);
  }

  lemma {:induction false} QuotientAtLeast(a: real, k: real, z: real, b: real)
    requires a >= 0.0 && k >= 1.0 && z >= 0.0 && a * (k + z) <= b
    ensures a <= b / k
  {
    var q := b / k;
    assert q * k == b;
    assert a * (k + z) == a * k + a * z;
    assert a * z >= 0.0;
    Cancel(a, q, k);
  }

  lemma {:induction false} AbsOfProduct(d: real, k: real)
    requires k >= 0.0
    ensures Abs(d * k) == Abs(d) * k && Abs(d) >= 0.0
  {
  }

  lemma {:induction false} Cancel(x: real, y: real, k: real)
    requires x * k <= y * k && k >= 1.0
    ensures x <= y
  {
  }

  /** The softmax mean differs from the mean over the ties by at most the bound. */
  lemma {:induction false} BoundHolds(e: real -> real, scores: seq<real>, values: seq<real>, vMax: real, eps: Temp)
    requires eps.Valid() && IsExp(e) && |scores| == |values| && scores != [] && Bounded(values, vMax)
    ensures SoftMean(e, Rows(scores, values), eps).Some? && SoftMean(e, Rows(scores, values), Zero).Some?
    ensures
      var warm := SoftMean(e, Rows(scores, values), eps).value;
      var sharp := SoftMean(e, Rows(scores, values), Zero).value;
      Abs(warm - sharp) <= DequantizationBound(e, scores, vMax, eps)
  {
    hide IsExp, SoftMean, MassesOf, Apart, PrefixMass, MaxOf, Ties, Second, Rows, ProfileOf, Abs, Ceiling;
    AnswerOfMasses(e, scores, values, eps);
    AnswerOfMasses(e, scores, values, Zero);
    if eps.Zero? {
      assert Abs(0.0) == 0.0 by {
        AbsZero();
      }
    } else {
      var p0, p1 := SumMass(MassesOf(e, scores, values, Zero)), SumMass(MassesOf(e, scores, values, eps));
      DifferenceOfSums(e, scores, values, vMax, eps, p0, p1);
    }
  }

  lemma {:induction false} AbsZero()
    ensures Abs(0.0) == 0.0
  {
  }

  lemma {:induction false} DifferenceOfSums(e: real -> real, scores: seq<real>, values: seq<real>, vMax: real,
                                            eps: Temp, p0: Mass, p1: Mass)
    requires eps.Valid() && !eps.Zero? && IsExp(e) && |scores| == |values| && scores != [] && Bounded(values, vMax)
    requires p0 == SumMass(MassesOf(e, scores, values, Zero)) && p1 == SumMass(MassesOf(e, scores, values, eps))
    requires p0.z >= 1.0 && p1.z >= 1.0
    ensures Abs(p1.u / p1.z - p0.u / p0.z) <= DequantizationBound(e, scores, vMax, eps)
  {
    hide IsExp, MassesOf, Apart, PrefixMass, MaxOf, Ties, Second, Abs, ProfileOf;
    var p := ProfileOf(scores);
    var gap := if p.gap.Some? then p.gap.value else 1.0;
    NoGap(scores);
    PrefixApart(e, scores, values, vMax, gap, eps, |scores|);
    var others := (|scores| - p.ties) as real;
    CeilingPositive(e, gap, eps);
    assert p0.z == p.ties as real && Apart(p0, p1, others, vMax, Ceiling(e, gap, eps));
    hide Ceiling, Trivial, DequantizationBound;
    ApartMeans(p0, p1, others, vMax, Ceiling(e, gap, eps));
    BoundIs(e, scores, vMax, eps, gap);
  }

  /** The bound, as it comes out of the comparison of the sums. */
  lemma {:induction false} BoundIs(e: real -> real, scores: seq<real>, vMax: real, eps: Temp, gap: real)
    requires eps.Valid() && !eps.Zero? && scores != []
    requires ProfileOf(scores).gap.Some? ==> gap == ProfileOf(scores).gap.value
    ensures
      var k := ProfileOf(scores).ties;
      DequantizationBound(e, scores, vMax, eps)
      == 2.0 * vMax * AtEach((|scores| - k) as real, Ceiling(e, gap, eps)) / k as real
  {
    hide ProfileOf, AtEach;
    var k := ProfileOf(scores).ties;
    SameBound(vMax, (|scores| - k) as real, k as real, Ceiling(e, gap, eps));
  }

  lemma {:induction false} NoneEach(x: real)
    ensures AtEach(0.0, x) == 0.0
  {
  }

  lemma {:induction false} ZeroQuotient(vMax: real, k: real)
    requires k >= 1.0
    ensures 2.0 * vMax * 0.0 / k == 0.0
  {
  }

  lemma {:induction false} NoGap(scores: seq<real>)
    requires scores != []
    ensures ProfileOf(scores).max == MaxOf(scores) && ProfileOf(scores).ties == Ties(scores, MaxOf(scores), |scores|)
    ensures ProfileOf(scores).gap.None? ==> forall i :: 0 <= i < |scores| ==> scores[i] == MaxOf(scores)
  {
  }

  lemma {:induction false} CeilingPositive(e: real -> real, gap: real, eps: Temp)
    requires eps.Valid() && !eps.Zero? && IsExp(e)
    ensures Ceiling(e, gap, eps) > 0.0
  {
    if eps.Warm? {
      assert Positive(e, -gap / eps.t);
    }
  }

  lemma {:induction false} BoundNonNegative(u: real, vMax: real, k: real)
    requires k >= 1.0 && Held(u, k, vMax)
    ensures vMax >= 0.0
  {
    assert 0.0 * k <= vMax * k;
    Cancel(0.0, vMax, k);
  }

  lemma {:induction false} ApartMeans(p0: Mass, p1: Mass, others: real, vMax: real, x: real)
    requires Apart(p0, p1, others, vMax, x) && p0.z >= 1.0 && x >= 0.0 && others >= 0.0
    ensures vMax >= 0.0 && Abs(p1.u / p1.z - p0.u / p0.z) <= 2.0 * vMax * AtEach(others, x) / p0.z
  {
    hide Abs, Held, AtEach;
    BoundNonNegative(p0.u, vMax, p0.z);
    MeansApart(p0.u, p0.z, p1.u, p1.z, p1.u - p0.u, p1.z - p0.z, vMax, AtEach(others, x));
  }

  lemma {:induction false} MeansApart(u0: real, k: real, u1: real, z1: real, u: real, z: real, vMax: real, b: real)
    requires k >= 1.0 && z >= 0.0 && vMax >= 0.0 && z <= b
    requires Held(u0, k, vMax) && Held(u, z, vMax) && u1 == u0 + u && z1 == k + z
    ensures Abs(u1 / z1 - u0 / k) <= 2.0 * vMax * b / k
  {
    hide Abs;
    MeansDiffer(u0, k, u, z, vMax);
    LargerNumerator(vMax, z, b, k);
  }

  lemma {:induction false} LargerNumerator(vMax: real, a: real, b: real, k: real)
    requires vMax >= 0.0 && a <= b && k >= 1.0
    ensures 2.0 * vMax * a / k <= 2.0 * vMax * b / k
  {
    assert 2.0 * vMax * a <= 2.0 * vMax * b;
    DivideMonotone(2.0 * vMax * a, 2.0 * vMax * b, k);
  }

  lemma {:induction false} SameBound(vMax: real, others: real, k: real, x: real)
    requires k >= 1.0
    ensures 2.0 * vMax * AtEach(others, x) / k == 2.0 * vMax * others / k * x
    ensures others == 0.0 ==> 2.0 * vMax * AtEach(others, x) / k == 0.0
  {
    if others == 0.0 {
      NoneEach(x);
      ZeroQuotient(vMax, k);
    }
    var q := 2.0 * vMax * others / k;
    assert q * k == 2.0 * vMax * others;
    assert (q * x) * k == 2.0 * vMax * (others * x);
  }

  // ------------------------------------------------------------------ the certified temperature

  datatype PromiseError = NotPositive | BadMultiplicity | AboveTrivial

  /** The promise: a gap of at least `gap`, if there is one, at least `kappa` ties, at most `n` records. */
  ghost predicate Promised(scores: seq<real>, gap: real, n: nat, kappa: nat)
    requires scores != []
  {
    var p := ProfileOf(scores);
    (p.gap.Some? ==> p.gap.value >= gap) && p.ties >= kappa && |scores| <= n
  }

  lemma {:induction false} RatioAboveOne(trivial: real, delta: real)
    requires 0.0 < delta < trivial
    ensures trivial / delta > 1.0 && delta * (trivial / delta) == trivial
  {
    var q := trivial / delta;
    assert q * delta == trivial;
    assert (q - 1.0) * delta > 0.0;
  }

  lemma {:induction false} LnPositive(e: real -> real, ln: real -> real, y: real)
    requires IsExp(e) && IsLn(e, ln) && y > 1.0
    ensures ln(y) > 0.0 && e(-ln(y)) * y == 1.0
  {
    assert InverseAt(e, ln, y);
    if ln(y) <= 0.0 {
      Monotone(e, ln(y), 0.0);
    }
    Reciprocal(e, ln(y));
  }

  /** The temperature that keeps the difference within `delta` under the promise. */
  function EpsStar(ghost e: real -> real, ln: real -> real, delta: real, gap: real, vMax: real, n: nat, kappa: nat)
    : Result<real, PromiseError>
    requires IsExp(e) && IsLn(e, ln)
  {
    if delta <= 0.0 || gap <= 0.0 || vMax <= 0.0 then Err(NotPositive)
    else if kappa == 0 || kappa >= n then Err(BadMultiplicity)
    else if delta >= Trivial(vMax, n, kappa) then Err(AboveTrivial)
    else
      RatioAboveOne(Trivial(vMax, n, kappa), delta);
      LnPositive(e, ln, Trivial(vMax, n, kappa) / delta);
      Ok(gap / ln(Trivial(vMax, n, kappa) / delta))
  }

  lemma {:induction false} BackToLn(gap: real, l: real)
    requires gap > 0.0 && l > 0.0
    ensures gap / l > 0.0 && gap / (gap / l) == l
  {
    var t := gap / l;
    assert t * l == gap;
    assert t > 0.0;
    assert gap / t == l;
  }

  /** The certified temperature is positive, and the bound at it is exactly `delta` on the worst instance. */
  lemma {:induction false} EpsStarBound(e: real -> real, ln: real -> real, delta: real, gap: real, vMax: real, n: nat,
                                        kappa: nat)
    requires IsExp(e) && IsLn(e, ln)
    requires delta > 0.0 && gap > 0.0 && vMax > 0.0 && 0 < kappa < n && delta < Trivial(vMax, n, kappa)
    ensures EpsStar(e, ln, delta, gap, vMax, n, kappa).Ok?
    ensures
      var t := EpsStar(e, ln, delta, gap, vMax, n, kappa).value;
      t > 0.0 && Trivial(vMax, n, kappa) * e(-gap / t) == delta
  {
    hide IsExp, IsLn, Trivial;
    var trivial := Trivial(vMax, n, kappa);
    var y := trivial / delta;
    RatioAboveOne(trivial, delta);
    LnPositive(e, ln, y);
    var l := ln(y);
    BackToLn(gap, l);
    var t := gap / l;
    assert -gap / t == -l by {
      Negated(gap, t, l);
    }
    assert trivial * e(-l) == delta by {
      TimesInverse(trivial, delta, y, e(-l));
    }
  }

  lemma {:induction false} Negated(gap: real, t: real, l: real)
    requires t > 0.0 && gap / t == l
    ensures -gap / t == -l
  {
    assert l * t == gap;
  }

  lemma {:induction false} TimesInverse(trivial: real, delta: real, y: real, x: real)
    requires delta * y == trivial && x * y == 1.0
    ensures trivial * x == delta
  {
    assert trivial * x == delta * (y * x);
  }

  lemma {:induction false} TrivialMonotone(vMax: real, n: nat, k: nat, n': nat, k': nat)
    requires vMax >= 0.0 && 0 < k <= k' <= n' <= n
    ensures 0.0 <= Trivial(vMax, n', k') <= Trivial(vMax, n, k)
  {
    var a, b := (n' - k') as real, (n - k) as real;
    var c := 2.0 * vMax;
    assert 0.0 <= a <= b;
    assert 0.0 <= c * a <= c * b;
    QuotientMonotone(c * a, c * b, k as real, k' as real);
  }

  lemma {:induction false} QuotientMonotone(x: real, y: real, k: real, k': real)
    requires 0.0 <= x <= y && 1.0 <= k <= k'
    ensures 0.0 <= x / k' <= y / k
  {
    var p, q := x / k', y / k;
    assert p * k' == x && q * k == y;
    assert p >= 0.0;
    assert p * k <= p * k';
    Cancel(p, q, k);
  }

  lemma {:induction false} ProductMonotone(a: real, b: real, x: real, y: real)
    requires 0.0 <= a <= b && 0.0 <= x <= y
    ensures a * x <= b * y
  {
    assert a * x <= b * x <= b * y;
  }

  /** Under the promise, the softmax mean at the certified temperature is within `delta` of the mean over the ties,
      on every instance. */
  lemma {:induction false} EpsStarKeeps(e: real -> real, ln: real -> real, delta: real, gap: real, vMax: real, n: nat, kappa: nat,
                                        scores: seq<real>, values: seq<real>)
    requires IsExp(e) && IsLn(e, ln) && EpsStar(e, ln, delta, gap, vMax, n, kappa).Ok?
    requires scores != [] && |scores| == |values| && Bounded(values, vMax) && Promised(scores, gap, n, kappa)
    ensures
      var t := EpsStar(e, ln, delta, gap, vMax, n, kappa).value;
      && t > 0.0
      && SoftMean(e, Rows(scores, values), Warm(t)).Some? && SoftMean(e, Rows(scores, values), Zero).Some?
      && Abs(SoftMean(e, Rows(scores, values), Warm(t)).value - SoftMean(e, Rows(scores, values), Zero).value) <= delta
  {
    hide IsExp, IsLn, Trivial, SoftMean, Rows, Bounded, ProfileOf, Abs;
    EpsStarBound(e, ln, delta, gap, vMax, n, kappa);
    var t := EpsStar(e, ln, delta, gap, vMax, n, kappa).value;
    BoundHolds(e, scores, values, vMax, Warm(t));
    var p := ProfileOf(scores);
    if p.gap.Some? && p.ties < |scores| {
      TrivialMonotone(vMax, n, kappa, |scores|, p.ties);
      DivideMonotone(-p.gap.value, -gap, t);
      Monotone(e, -p.gap.value / t, -gap / t);
      ProductMonotone(Trivial(vMax, |scores|, p.ties), Trivial(vMax, n, kappa), e(-p.gap.value / t), e(-gap / t));
    }
  }
}
