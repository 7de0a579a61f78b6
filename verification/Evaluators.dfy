/** The evaluators beside the streaming fold: softmax weights, and attention along a tree. Both are shown to give the
    reference answer `SoftMean`. */
module Evaluators {
  import opened Wrappers
  import opened Exponential
  import opened SoftAccumulator
  import opened Vectors
  import Bags
  import A = MaskedAttention

  type VRow = A.VRow

  // ------------------------------------------------------------------ sums

  function SumTo(xs: seq<real>, n: nat): real
    requires n <= |xs|
  {
    if n == 0 then 0.0 else SumTo(xs, n - 1) + xs[n - 1]
  }

  function Sum(xs: seq<real>): real {
    SumTo(xs, |xs|)
  }

  lemma {:induction false} SumToAgree(a: seq<real>, b: seq<real>, n: nat)
    requires n <= |a| && n <= |b| && forall i :: 0 <= i < n ==> a[i] == b[i]
    ensures SumTo(a, n) == SumTo(b, n)
  {
    if n > 0 {
      SumToAgree(a, b, n - 1);
    }
  }

  lemma {:induction false} SumToScaled(a: seq<real>, b: seq<real>, k: real, n: nat)
    requires n <= |a| && n <= |b| && forall i :: 0 <= i < n ==> b[i] == a[i] * k
    ensures SumTo(b, n) == SumTo(a, n) * k
  {
    if n > 0 {
      SumToScaled(a, b, k, n - 1);
      assert (SumTo(a, n - 1) + a[n - 1]) * k == SumTo(a, n - 1) * k + a[n - 1] * k;
    }
  }

  /** The two components of a sum of masses. */
  lemma {:induction false} MassSums(ms: seq<Mass>, zs: seq<real>, us: seq<real>, n: nat)
    requires n <= |ms| == |zs| == |us| && forall i :: 0 <= i < n ==> ms[i] == Mass(zs[i], us[i])
    ensures PrefixMass(ms, n) == Mass(SumTo(zs, n), SumTo(us, n))
  {
    if n > 0 {
      MassSums(ms, zs, us, n - 1);
    }
  }

  lemma {:induction false} NoMass(e: real -> real, rows: seq<Row>, mu: Score, eps: Temp)
    requires eps.Valid()
    ensures |Masses(e, rows, mu, eps)| == |rows| && PrefixMass(Masses(e, rows, mu, eps), 0) == Mass(0.0, 0.0)
    ensures PrefixMass(Masses(e, rows, mu, eps), |rows|) == Total(e, rows, mu, eps)
  {
  }

  lemma {:induction false} NextMass(e: real -> real, rows: seq<Row>, mu: Score, eps: Temp, i: nat, w: real)
    requires eps.Valid() && i < |rows| && w == Weight(e, rows[i].score, mu, eps)
    ensures
      var was := PrefixMass(Masses(e, rows, mu, eps), i);
      PrefixMass(Masses(e, rows, mu, eps), i + 1) == Mass(was.z + w, was.u + w * rows[i].v)
  {
    hide Weight;
    var ms := Masses(e, rows, mu, eps);
    assert ms[i] == RowMass(e, rows[i], mu, eps);
    hide Masses;
  }

  // ------------------------------------------------------------------ softmax weights

  function Rows(scores: seq<real>, values: seq<real>): (rows: seq<Row>)
    requires |scores| == |values|
    ensures |rows| == |scores| && AllFinite(rows)
    ensures forall i :: 0 <= i < |rows| ==> rows[i] == Row(Fin(scores[i]), values[i])
  {
    seq(|scores|, i requires 0 <= i < |scores| => Row(Fin(scores[i]), values[i]))
  }

  function MaxOf(scores: seq<real>): (m: real)
    requires scores != []
    ensures m in scores && forall i :: 0 <= i < |scores| ==> scores[i] <= m
  {
    if |scores| == 1 then scores[0]
    else
      var m := MaxOf(scores[..|scores| - 1]);
      var last := scores[|scores| - 1];
      assert scores == scores[..|scores| - 1] + [last];
      if m < last then last else m
  }

  /** The weight before normalization. At infinite temperature every quotient is zero. */
  function RawWeight(e: real -> real, s: real, m: real, eps: Temp): real
    requires eps.Valid()
  {
    match eps
    case Zero => if s == m then 1.0 else 0.0
    case Infinite => e(0.0)
    case Warm(t) => e((s - m) / t)
  }

  function RawWeights(e: real -> real, scores: seq<real>, eps: Temp): (w: seq<real>)
    requires eps.Valid()
    ensures |w| == |scores|
    ensures forall i :: 0 <= i < |w| ==> w[i] == RawWeight(e, scores[i], MaxOf(scores), eps)
  {
    seq(|scores|, i requires 0 <= i < |scores| => RawWeight(e, scores[i], MaxOf(scores), eps))
  }

  /** Softmax weights. The sum is never zero here, so the uniform fallback of the original, which is for sums
      that overflow or vanish in floating point, is not reached. */
  function SoftmaxWeights(e: real -> real, scores: seq<real>, eps: Temp): (w: seq<real>)
    requires eps.Valid() && IsExp(e)
    ensures |w| == |scores|
  {
    if scores == [] then []
    else
      SumIsPositive(e, scores, eps);
      var z := Sum(RawWeights(e, scores, eps));
      seq(|scores|, i requires 0 <= i < |scores| => RawWeights(e, scores, eps)[i] / z)
  }

  lemma {:induction false} TopIsMax(scores: seq<real>, values: seq<real>)
    requires scores != [] && |scores| == |values|
    ensures Top(Rows(scores, values)) == Fin(MaxOf(scores))
  {
    var rows, m := Rows(scores, values), MaxOf(scores);
    forall i | 0 <= i < |rows| ensures AtMost(rows[i].score, Fin(m)) {
    }
    var k :| 0 <= k < |scores| && scores[k] == m;
    assert rows[k].score == Fin(m);
    TopUnique(rows, Fin(m));
  }

  lemma {:induction false} RawIsWeight(e: real -> real, s: real, m: real, mu: Score, eps: Temp)
    requires eps.Valid() && IsExp(e) && (!eps.Infinite? ==> mu == Fin(m))
    ensures Weight(e, Fin(s), mu, eps) == RawWeight(e, s, m, eps)
  {
    WeightIsFactor(e, Fin(s), mu, eps);
  }

  /** The raw weights are those of the closed form, and so are their sums. */
  lemma {:induction false} RawIsClosed(e: real -> real, scores: seq<real>, values: seq<real>, us: seq<real>, eps: Temp)
    requires eps.Valid() && IsExp(e) && scores != [] && |scores| == |values| == |us|
    requires forall i :: 0 <= i < |us| ==> us[i] == RawWeights(e, scores, eps)[i] * values[i]
    ensures
      var acc := Closed(e, Rows(scores, values), eps);
      acc.z == Sum(RawWeights(e, scores, eps)) && acc.u == Sum(us)
  {
    hide IsExp, MaxOf, Top, Masses, RawWeights, Rows, SumTo, PrefixMass;
    var rows, w := Rows(scores, values), RawWeights(e, scores, eps);
    var mu := Anchor(rows, eps);
    TopIsMax(scores, values);
    var ms := Masses(e, rows, mu, eps);
    assert |ms| == |rows| by {
      MassesSize(e, rows, mu, eps);
    }
    forall i | 0 <= i < |rows| ensures ms[i] == Mass(w[i], us[i]) {
      RawMassAt(e, scores, values, i, mu, eps);
    }
    MassSums(ms, w, us, |ms|);
  }

  lemma {:induction false} MassesSize(e: real -> real, rows: seq<Row>, mu: Score, eps: Temp)
    requires eps.Valid()
    ensures |Masses(e, rows, mu, eps)| == |rows|
  {
  }

  lemma {:induction false} RawMassAt(e: real -> real, scores: seq<real>, values: seq<real>, i: nat, mu: Score,
                                     eps: Temp)
    requires eps.Valid() && IsExp(e) && |scores| == |values| && i < |scores|
    requires !eps.Infinite? ==> mu == Fin(MaxOf(scores))
    ensures |Masses(e, Rows(scores, values), mu, eps)| == |scores|
    ensures
      var w := RawWeights(e, scores, eps)[i];
      Masses(e, Rows(scores, values), mu, eps)[i] == Mass(w, w * values[i])
  {
    hide IsExp, Weight, RawWeight, MaxOf;
    RawIsWeight(e, scores[i], MaxOf(scores), mu, eps);
  }

  lemma {:induction false} SumIsPositive(e: real -> real, scores: seq<real>, eps: Temp)
    requires eps.Valid() && IsExp(e) && scores != []
    ensures Sum(RawWeights(e, scores, eps)) >= 1.0
  {
    var values := seq(|scores|, i => 0.0);
    var us := seq(|scores|, i => 0.0);
    var rows := Rows(scores, values);
    RawIsClosed(e, scores, values, us, eps);
    NotVacant(rows, eps);
    TotalAtLeastOne(e, rows, eps);
  }

  lemma {:induction false} NotVacant(rows: seq<Row>, eps: Temp)
    requires rows != [] && AllFinite(rows)
    ensures !Vacant(rows, eps) && Top(rows).Fin?
  {
    TopBounds(rows);
    assert AtMost(rows[0].score, Top(rows));
  }

  /** One softmax weight: the raw weight over the sum, written as a product. */
  lemma {:induction false} SoftmaxAt(e: real -> real, scores: seq<real>, eps: Temp, i: nat, v: real)
    requires eps.Valid() && IsExp(e) && i < |scores|
    ensures Sum(RawWeights(e, scores, eps)) >= 1.0
    ensures
      var w, k := RawWeights(e, scores, eps)[i], 1.0 / Sum(RawWeights(e, scores, eps));
      && SoftmaxWeights(e, scores, eps)[i] == w * k
      && SoftmaxWeights(e, scores, eps)[i] * v == (w * v) * k
  {
    hide RawWeights, Sum;
    SumIsPositive(e, scores, eps);
    var w, z := RawWeights(e, scores, eps)[i], Sum(RawWeights(e, scores, eps));
    Quotient(w, v, z);
  }

  lemma {:induction false} Quotient(w: real, v: real, z: real)
    requires z >= 1.0
    ensures w / z == w * (1.0 / z) && (w * (1.0 / z)) * v == (w * v) * (1.0 / z)
    ensures z * (1.0 / z) == 1.0
    ensures w >= 0.0 ==> w * (1.0 / z) >= 0.0
  {
  }

  /** Weighing by the softmax weights gives the reference answer. */
  lemma {:induction false} SoftmaxIsSoftMean(e: real -> real, scores: seq<real>, values: seq<real>, terms: seq<real>,
                                             eps: Temp)
    requires eps.Valid() && IsExp(e) && scores != [] && |scores| == |values| == |terms|
    requires forall i :: 0 <= i < |terms| ==> terms[i] == SoftmaxWeights(e, scores, eps)[i] * values[i]
    ensures SoftMean(e, Rows(scores, values), eps) == Some(Sum(terms))
  {
    hide *;
    var us := Products(RawWeights(e, scores, eps), values);
    SumIsPositive(e, scores, eps);
    RawIsClosed(e, scores, values, us, eps);
    forall i | 0 <= i < |terms| ensures IsShare(terms[i], us[i], Sum(RawWeights(e, scores, eps))) {
      SoftmaxTerm(e, scores, eps, i, values[i], us[i], terms[i]);
    }
    SharesAreAnswer(e, Rows(scores, values), eps, us, terms);
  }

  /** The term is its part of a whole of `z`. */
  ghost predicate IsShare(term: real, u: real, z: real) {
    z >= 1.0 && term == u * (1.0 / z)
  }

  lemma {:induction false} SoftmaxTerm(e: real -> real, scores: seq<real>, eps: Temp, i: nat, v: real, u: real, term: real)
    requires eps.Valid() && IsExp(e) && i < |scores|
    requires u == RawWeights(e, scores, eps)[i] * v && term == SoftmaxWeights(e, scores, eps)[i] * v
    ensures IsShare(term, u, Sum(RawWeights(e, scores, eps)))
  {
    hide RawWeights, SoftmaxWeights, Sum, IsExp;
    SoftmaxAt(e, scores, eps, i, v);
  }

  lemma {:induction false} SharesAreAnswer(e: real -> real, rows: seq<Row>, eps: Temp, us: seq<real>, terms: seq<real>)
    requires eps.Valid() && |us| == |terms| && Closed(e, rows, eps).u == Sum(us) && Closed(e, rows, eps).z >= 1.0
    requires forall i :: 0 <= i < |terms| ==> IsShare(terms[i], us[i], Closed(e, rows, eps).z)
    ensures SoftMean(e, rows, eps) == Some(Sum(terms))
  {
    hide Closed, Sum;
    ScaledIsAnswer(Closed(e, rows, eps), us, terms);
  }

  /** Terms that are each divided by the weight sum add up to the answer. */
  lemma {:induction false} ScaledIsAnswer(acc: Acc, us: seq<real>, terms: seq<real>)
    requires acc.z >= 1.0 && acc.u == Sum(us) && |us| == |terms|
    requires forall i :: 0 <= i < |terms| ==> terms[i] == us[i] * (1.0 / acc.z)
    ensures Answer(acc) == Some(Sum(terms))
  {
    var k := 1.0 / acc.z;
    SumToScaled(us, terms, k, |us|);
    assert Sum(terms) == Sum(us) * k;
    Quotient(acc.u, 0.0, acc.z);
    var q := acc.u / acc.z;
    assert q == Sum(terms);
    assert Answer(acc) == Some(q);
  }

  function Products(w: seq<real>, v: seq<real>): (r: seq<real>)
    requires |w| == |v|
    ensures |r| == |w| && forall i :: 0 <= i < |r| ==> r[i] == w[i] * v[i]
  {
    seq(|w|, i requires 0 <= i < |w| => w[i] * v[i])
  }

  /** Softmax weights are a distribution. */
  lemma {:induction false} SoftmaxIsDistribution(e: real -> real, scores: seq<real>, eps: Temp)
    requires eps.Valid() && IsExp(e) && scores != []
    ensures Sum(SoftmaxWeights(e, scores, eps)) == 1.0
    ensures forall i :: 0 <= i < |scores| ==> SoftmaxWeights(e, scores, eps)[i] >= 0.0
  {
    hide RawWeights, SoftmaxWeights, SumTo, IsExp;
    var w, p := RawWeights(e, scores, eps), SoftmaxWeights(e, scores, eps);
    SumIsPositive(e, scores, eps);
    var z := Sum(w);
    var scale := 1.0 / z;
    forall i | 0 <= i < |scores| ensures p[i] == w[i] * scale && p[i] >= 0.0 {
      SoftmaxShare(e, scores, eps, i);
    }
    SumToScaled(w, p, scale, |w|);
    assert scale * z == 1.0;
  }

  lemma {:induction false} SoftmaxShare(e: real -> real, scores: seq<real>, eps: Temp, i: nat)
    requires eps.Valid() && IsExp(e) && i < |scores| && Sum(RawWeights(e, scores, eps)) > 0.0
    ensures SoftmaxWeights(e, scores, eps)[i] == RawWeights(e, scores, eps)[i] * (1.0 / Sum(RawWeights(e, scores, eps)))
    ensures SoftmaxWeights(e, scores, eps)[i] >= 0.0
  {
    hide RawWeights, SoftmaxWeights, SumTo, IsExp;
    SoftmaxAt(e, scores, eps, i, 0.0);
    RawNonNegative(e, scores[i], MaxOf(scores), eps);
    Quotient(RawWeights(e, scores, eps)[i], 0.0, Sum(RawWeights(e, scores, eps)));
  }

  lemma {:induction false} RawNonNegative(e: real -> real, s: real, m: real, eps: Temp)
    requires eps.Valid() && IsExp(e)
    ensures RawWeight(e, s, m, eps) >= 0.0
  {
    assert eps.Warm? ==> Positive(e, (s - m) / eps.t);
  }

  // ------------------------------------------------------------------ attention along a tree

  /** Every parent is an earlier node, or -1 at a root. */
  predicate ParentsOk(parents: seq<int>) {
    forall i :: 0 <= i < |parents| ==> -1 <= parents[i] < i
  }

  /** A node and its ancestors, up to a root. */
  function Ancestors(parents: seq<int>, i: nat): (path: seq<nat>)
    requires ParentsOk(parents) && i < |parents|
    ensures path != [] && path[0] == i && forall k :: 0 <= k < |path| ==> path[k] <= i
  {
    if parents[i] == -1 then [i] else [i] + Ancestors(parents, parents[i])
  }

  /** Each node of the path is the parent of the one before it, and the last one is a root. */
  lemma {:induction false} AncestorsAre(parents: seq<int>, i: nat)
    requires ParentsOk(parents) && i < |parents|
    ensures
      var path := Ancestors(parents, i);
      && path != [] && path[0] == i && parents[path[|path| - 1]] == -1
      && forall k :: 0 < k < |path| ==> path[k] == parents[path[k - 1]]
    decreases i
  {
    if parents[i] != -1 {
      AncestorsAre(parents, parents[i]);
      var rest := Ancestors(parents, parents[i]);
      var path := Ancestors(parents, i);
      assert path == [i] + rest;
      forall k | 0 < k < |path| ensures path[k] == parents[path[k - 1]] {
        assert path[k] == rest[k - 1] && (k > 1 ==> path[k - 1] == rest[k - 2]);
      }
    }
  }

  /** What node `i` sees along a list of nodes: their scores against its query, and their values. */
  function Seen(q: Matrix, k: Matrix, v: Matrix, i: nat, nodes: seq<nat>): (rows: seq<VRow>)
    requires q.Shaped() && k.Shaped() && q.cols == k.cols && i < |q.rows|
    requires forall s :: 0 <= s < |nodes| ==> nodes[s] < |k.rows| && nodes[s] < |v.rows|
    ensures |rows| == |nodes|
    ensures forall s :: 0 <= s < |rows| ==>
      rows[s] == A.VRow(Fin(Dot(q.rows[i], k.rows[nodes[s]])), v.rows[nodes[s]])
  {
    seq(|nodes|, s requires 0 <= s < |nodes| => A.VRow(Fin(Dot(q.rows[i], k.rows[nodes[s]])), v.rows[nodes[s]]))
  }

  /** What is left of the walk. */
  function From(parents: seq<int>, j: int): (path: seq<nat>)
    requires ParentsOk(parents) && -1 <= j < |parents|
  {
    if j == -1 then [] else Ancestors(parents, j)
  }

  method WalkUp(parents: seq<int>, i: nat) returns (path: seq<nat>)
    requires ParentsOk(parents) && i < |parents|
    ensures path == Ancestors(parents, i)
  {
    path := [];
    var j: int := i;
    while j != -1
      invariant -1 <= j < |parents|
      invariant Ancestors(parents, i) == path + From(parents, j)
      decreases j
    {
      assert path + From(parents, j) == (path + [j]) + From(parents, parents[j]);
      path := path + [j];
      j := parents[j];
    }
  }

  method AddWeighted(row: seq<real>, w: real, v: seq<real>) returns (r: seq<real>)
    requires |row| == |v|
    ensures |r| == |row| && forall c :: 0 <= c < |r| ==> r[c] == row[c] + w * v[c]
  {
    r := row;
    for c := 0 to |row|
      invariant |r| == |row|
      invariant forall x :: 0 <= x < c ==> r[x] == row[x] + w * v[x]
      invariant forall x :: c <= x < |row| ==> r[x] == row[x]
    {
      r := r[c := r[c] + w * v[c]];
    }
  }

  /** The terms of one output component. */
  function Terms(w: seq<real>, rows: seq<VRow>, c: nat): (terms: seq<real>)
    requires |w| == |rows|
    ensures |terms| == |w| && forall s :: 0 <= s < |w| ==> terms[s] == w[s] * A.Comp(rows[s].v, c)
  {
    seq(|w|, s requires 0 <= s < |w| => w[s] * A.Comp(rows[s].v, c))
  }

  lemma {:induction false} NextTerm(w: seq<real>, rows: seq<VRow>, c: nat, s: nat)
    requires |w| == |rows| && s < |w|
    ensures SumTo(Terms(w, rows, c), 0) == 0.0
    ensures SumTo(Terms(w, rows, c), s + 1) == SumTo(Terms(w, rows, c), s) + w[s] * A.Comp(rows[s].v, c)
  {
  }

  /** The reference answer in every component. */
  ghost predicate IsMean(e: real -> real, rows: seq<VRow>, eps: Temp, out: seq<real>)
    requires eps.Valid()
  {
    forall c :: 0 <= c < |out| ==> SoftMean(e, A.Project(rows, c), eps) == Some(out[c])
  }

  /** One output: the values on the path, weighed by softmax of their scores; zero weights are skipped. */
  method AttendAlong(e: real -> real, q: Matrix, k: Matrix, v: Matrix, i: nat, path: seq<nat>, eps: Temp)
      returns (out: seq<real>)
    requires eps.Valid() && IsExp(e) && path != []
    requires q.Shaped() && k.Shaped() && v.Shaped() && q.cols == k.cols && i < |q.rows|
    requires forall s :: 0 <= s < |path| ==> path[s] < |k.rows| && path[s] < |v.rows|
    ensures |out| == v.cols && IsMean(e, Seen(q, k, v, i, path), eps, out)
  {
    hide SoftmaxWeights, IsExp, SoftMean, Dot, Seen, Terms, SumTo, A.Project;
    var scores := seq(|path|, s requires 0 <= s < |path| => Dot(q.rows[i], k.rows[path[s]]));
    ghost var rows := Seen(q, k, v, i, path);
    var weights := SoftmaxWeights(e, scores, eps);
    out := seq(v.cols, c => 0.0);
    forall c | 0 <= c < v.cols ensures SumTo(Terms(weights, rows, c), 0) == 0.0 {
      NextTerm(weights, rows, c, 0);
    }
    for s := 0 to |weights|
      invariant |out| == v.cols
      invariant forall c :: 0 <= c < v.cols ==> out[c] == SumTo(Terms(weights, rows, c), s)
    {
      forall c | 0 <= c < v.cols
        ensures SumTo(Terms(weights, rows, c), s + 1)
                == SumTo(Terms(weights, rows, c), s) + weights[s] * v.rows[path[s]][c]
      {
        NextTerm(weights, rows, c, s);
      }
      if weights[s] != 0.0 {
        out := AddWeighted(out, weights[s], v.rows[path[s]]);
      }
    }
    forall c | 0 <= c < v.cols ensures SoftMean(e, A.Project(rows, c), eps) == Some(out[c]) {
      WeighedMean(e, rows, scores, c, eps);
    }
  }

  lemma {:induction false} WeighedMean(e: real -> real, rows: seq<VRow>, scores: seq<real>, c: nat, eps: Temp)
    requires eps.Valid() && IsExp(e) && rows != [] && |scores| == |rows|
    requires forall s :: 0 <= s < |rows| ==> rows[s].score == Fin(scores[s])
    ensures SoftMean(e, A.Project(rows, c), eps) == Some(Sum(Terms(SoftmaxWeights(e, scores, eps), rows, c)))
  {
    hide SoftmaxWeights, IsExp, SoftMean;
    var values := seq(|rows|, s requires 0 <= s < |rows| => A.Comp(rows[s].v, c));
    assert Rows(scores, values) == A.Project(rows, c);
    SoftmaxIsSoftMean(e, scores, values, Terms(SoftmaxWeights(e, scores, eps), rows, c), eps);
  }

  datatype TreeError = DimensionMismatch(expected: nat, got: nat) | InvalidParent(i: nat, parent: int)

  /** Attention where every node attends to itself and its ancestors. */
  method TreeCausalAttention(e: real -> real, q: Matrix, k: Matrix, v: Matrix, parents: seq<int>, eps: Temp)
      returns (r: Result<Matrix, TreeError>)
    requires eps.Valid() && IsExp(e) && q.Shaped() && k.Shaped() && v.Shaped()
    ensures r.Ok? <==> |k.rows| == |v.rows| == |parents| == |q.rows| && q.cols == k.cols && ParentsOk(parents)
    ensures !(|k.rows| == |v.rows| == |parents| == |q.rows|) ==>
      && r.Err? && r.error.DimensionMismatch? && r.error.expected == |q.rows|
      && (r.error.got == |k.rows| || r.error.got == |v.rows| || r.error.got == |parents|)
      && r.error.got <= |k.rows| && r.error.got <= |v.rows| && r.error.got <= |parents|
    ensures |k.rows| == |v.rows| == |parents| == |q.rows| && q.cols != k.cols ==> r == Err(DimensionMismatch(q.cols, k.cols))
    ensures r.Err? && |k.rows| == |v.rows| == |parents| == |q.rows| && q.cols == k.cols ==>
      && r.error.InvalidParent? && r.error.i < |parents| && r.error.parent == parents[r.error.i]
      && !(-1 <= r.error.parent < r.error.i) && ParentsOk(parents[..r.error.i])
    ensures r.Ok? ==> r.value.Shaped() && r.value.cols == v.cols && |r.value.rows| == |q.rows|
    ensures r.Ok? ==> forall i :: 0 <= i < |q.rows| ==>
      IsMean(e, Seen(q, k, v, i, Ancestors(parents, i)), eps, r.value.rows[i])
  {
    hide IsExp, IsMean, Seen;
    if |k.rows| != |q.rows| || |v.rows| != |q.rows| || |parents| != |q.rows| {
      var least := if |k.rows| <= |v.rows| then |k.rows| else |v.rows|;
      return Err(DimensionMismatch(|q.rows|, if least <= |parents| then least else |parents|));
    }
    if q.cols != k.cols {
      return Err(DimensionMismatch(q.cols, k.cols));
    }
    for i := 0 to |parents|
      invariant forall j :: 0 <= j < i ==> -1 <= parents[j] < j
    {
      if parents[i] < -1 || parents[i] >= i {
        return Err(InvalidParent(i, parents[i]));
      }
    }
    var out := [];
    for i := 0 to |parents|
      invariant |out| == i
      invariant forall j :: 0 <= j < i ==> |out[j]| == v.cols
      invariant forall j :: 0 <= j < i ==> IsMean(e, Seen(q, k, v, j, Ancestors(parents, j)), eps, out[j])
    {
      var path := WalkUp(parents, i);
      var x := AttendAlong(e, q, k, v, i, path, eps);
      out := out + [x];
    }
    r := Ok(Matrix(v.cols, out));
  }

  function ChainTree(n: nat): (parents: seq<int>)
    ensures |parents| == n && ParentsOk(parents)
  {
    seq(n, i requires 0 <= i < n => if i == 0 then -1 else i - 1)
  }

  function BalancedBinaryTree(n: nat): (parents: seq<int>)
    ensures |parents| == n && ParentsOk(parents)
  {
    seq(n, i requires 0 <= i < n => if i == 0 then -1 else (i - 1) / 2)
  }

  ghost function Doubled(n: nat): nat {
    if n == 0 then 1 else 2 * Doubled(n - 1)
  }

  /** In the balanced tree the path from a node to the root is as long as its number, counted from one, has binary
      digits. */
  lemma {:induction false} BalancedDepth(n: nat, i: nat)
    requires i < n
    ensures
      var depth := |Ancestors(BalancedBinaryTree(n), i)|;
      depth >= 1 && Doubled(depth - 1) <= i + 1 < Doubled(depth)
    decreases i
  {
    var tree := BalancedBinaryTree(n);
    if i > 0 {
      BalancedDepth(n, (i - 1) / 2);
      assert Ancestors(tree, i) == [i] + Ancestors(tree, (i - 1) / 2);
      assert 2 * ((i - 1) / 2 + 1) <= i + 1 <= 2 * ((i - 1) / 2 + 1) + 1;
    }
  }

  /** The nodes up to and including `i`. */
  function UpTo(i: nat): (nodes: seq<nat>)
    ensures |nodes| == i + 1 && forall k :: 0 <= k <= i ==> nodes[k] == k
  {
    seq(i + 1, k requires 0 <= k <= i => k)
  }

  lemma {:induction false} ChainPath(n: nat, i: nat)
    requires i < n
    ensures multiset(Ancestors(ChainTree(n), i)) == multiset(UpTo(i))
  {
    if i == 0 {
      assert UpTo(0) == [0];
    } else {
      ChainPath(n, i - 1);
      assert UpTo(i) == UpTo(i - 1) + [i];
      assert Ancestors(ChainTree(n), i) == [i] + Ancestors(ChainTree(n), i - 1);
    }
  }

  /** On the chain tree this is causal attention: every node attends to all nodes up to itself. */
  lemma {:induction false} ChainIsCausal(e: real -> real, q: Matrix, k: Matrix, v: Matrix, i: nat, eps: Temp,
                                         out: seq<real>)
    requires eps.Valid() && IsExp(e) && q.Shaped() && k.Shaped() && q.cols == k.cols
    requires i < |q.rows| == |k.rows| == |v.rows|
    ensures IsMean(e, Seen(q, k, v, i, Ancestors(ChainTree(|q.rows|), i)), eps, out)
            <==> IsMean(e, Seen(q, k, v, i, UpTo(i)), eps, out)
  {
    hide IsExp, SoftMean, Seen, Ancestors, UpTo;
    ChainPath(|q.rows|, i);
    forall c: nat
      ensures SoftMean(e, A.Project(Seen(q, k, v, i, Ancestors(ChainTree(|q.rows|), i)), c), eps)
              == SoftMean(e, A.Project(Seen(q, k, v, i, UpTo(i)), c), eps)
    {
      SeenInOrder(e, q, k, v, i, Ancestors(ChainTree(|q.rows|), i), UpTo(i), c, eps);
    }
  }

  /** The order in which nodes are seen does not matter. */
  lemma {:induction false} SeenInOrder(e: real -> real, q: Matrix, k: Matrix, v: Matrix, i: nat, a: seq<nat>, b: seq<nat>,
                                       c: nat, eps: Temp)
    requires eps.Valid() && IsExp(e) && q.Shaped() && k.Shaped() && q.cols == k.cols && i < |q.rows|
    requires forall s :: 0 <= s < |a| ==> a[s] < |k.rows| && a[s] < |v.rows|
    requires forall s :: 0 <= s < |b| ==> b[s] < |k.rows| && b[s] < |v.rows|
    requires multiset(a) == multiset(b)
    ensures SoftMean(e, A.Project(Seen(q, k, v, i, a), c), eps) == SoftMean(e, A.Project(Seen(q, k, v, i, b), c), eps)
  {
    hide IsExp, SoftMean, Dot;
    var f := (j: nat) =>
      if j < |k.rows| && j < |v.rows| then Row(Fin(Dot(q.rows[i], k.rows[j])), A.Comp(v.rows[j], c)) else Row(NegInf, 0.0);
    Bags.MapPermutation(f, a, b);
    assert A.Project(Seen(q, k, v, i, a), c) == Bags.Map(f, a);
    assert A.Project(Seen(q, k, v, i, b), c) == Bags.Map(f, b);
    MeanOrder(e, Bags.Map(f, a), Bags.Map(f, b), eps);
  }

  lemma {:induction false} MeanOrder(e: real -> real, a: seq<Row>, b: seq<Row>, eps: Temp)
    requires eps.Valid() && IsExp(e) && multiset(a) == multiset(b)
    ensures SoftMean(e, a, eps) == SoftMean(e, b, eps)
  {
    OrderIrrelevant(e, a, b, eps);
    FoldIsClosed(e, a, eps);
    FoldIsClosed(e, b, eps);
  }
}
