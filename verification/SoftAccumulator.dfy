/** The max-shifted soft-aggregate monoid `(mu, z, u)`: one accumulator, three temperature regimes, and
    the score-infinity policy of the engine (engine/bruce-core/src/mask.rs, engine/bruce-pg/src/lib.rs).

    `Absorb` and `Merge` are the two recurrences, branch for branch. `Closed` is the form they are meant
    to compute: the anchor is the largest score, and the two sums weigh every row against it. */
module SoftAccumulator {
  import opened Wrappers
  import opened Exponential
  import Bags

  datatype Score = NegInf | Fin(s: real) | PosInf

  predicate Less(a: Score, b: Score) {
    match (a, b)
    case (NegInf, NegInf) => false
    case (NegInf, _) => true
    case (Fin(x), Fin(y)) => x < y
    case (Fin(_), PosInf) => true
    case _ => false
  }

  predicate AtMost(a: Score, b: Score) {
    !Less(b, a)
  }

  function Larger(a: Score, b: Score): Score {
    if Less(a, b) then b else a
  }

  /** Temperature: the two sentinels and the finite positive case. */
  datatype Temp = Zero | Warm(t: real) | Infinite {
    ghost predicate Valid() {
      Warm? ==> t > 0.0
    }
  }

  datatype Row = Row(score: Score, v: real)

  datatype Acc = Acc(mu: Score, z: real, u: real) {
    predicate IsEmpty() {
      z == 0.0
    }
  }

  const EMPTY := Acc(NegInf, 0.0, 0.0)

  /** `exp((a - b) / t)` for finite arguments. */
  function Factor(e: real -> real, a: real, b: real, t: real): real
    requires t != 0.0
  {
    e((a - b) / t)
  }

  // ------------------------------------------------------------------ the recurrences

  function Absorb(e: real -> real, acc: Acc, r: Row, eps: Temp): Acc
    requires eps.Valid()
  {
    match eps
    case Zero =>
      if r.score == NegInf then acc
      else if Less(acc.mu, r.score) then Acc(r.score, 1.0, r.v)
      else if r.score == acc.mu then Acc(acc.mu, acc.z + 1.0, acc.u + r.v)
      else acc
    case Infinite => Acc(acc.mu, acc.z + 1.0, acc.u + r.v)
    case Warm(t) =>
      if r.score == NegInf then acc
      else if r.score == PosInf || acc.mu == PosInf then
        if r.score == PosInf && acc.mu == PosInf then Acc(acc.mu, acc.z + 1.0, acc.u + r.v)
        else if r.score == PosInf then Acc(PosInf, 1.0, r.v)
        else acc
      else if acc.IsEmpty() || acc.mu == NegInf then Acc(r.score, 1.0, r.v)
      else
        var mu2 := Larger(acc.mu, r.score);
        var scale := Factor(e, acc.mu.s, mu2.s, t);
        var w := Factor(e, r.score.s, mu2.s, t);
        Acc(mu2, acc.z * scale + w, acc.u * scale + w * r.v)
  }

  function Merge(e: real -> real, a: Acc, b: Acc, eps: Temp): Acc
    requires eps.Valid()
  {
    if b.IsEmpty() then a
    else if a.IsEmpty() then b
    else match eps
      case Zero =>
        if Less(a.mu, b.mu) then b
        else if b.mu == a.mu then Acc(a.mu, a.z + b.z, a.u + b.u)
        else a
      case Infinite => Acc(a.mu, a.z + b.z, a.u + b.u)
      case Warm(t) =>
        if a.mu == PosInf || b.mu == PosInf then
          if a.mu == PosInf && b.mu == PosInf then Acc(a.mu, a.z + b.z, a.u + b.u)
          else if b.mu == PosInf then b
          else a
        else if a.mu == NegInf then b
        else if b.mu == NegInf then a
        else
          var mu2 := Larger(a.mu, b.mu);
          var s1 := Factor(e, a.mu.s, mu2.s, t);
          var s2 := Factor(e, b.mu.s, mu2.s, t);
          Acc(mu2, a.z * s1 + b.z * s2, a.u * s1 + b.u * s2)
  }

  // ------------------------------------------------------------------ the closed form

  /** The largest score; `NegInf` for no rows. */
  function Top(rows: seq<Row>): Score {
    if rows == [] then NegInf
    else Larger(Top(rows[..|rows| - 1]), rows[|rows| - 1].score)
  }

  /** The score every row is weighed against. At infinite temperature scores are not consulted. */
  function Anchor(rows: seq<Row>, eps: Temp): Score {
    if eps.Infinite? then NegInf else Top(rows)
  }

  /** The weight of a row with score `s` under anchor `mu`, for `s` at most `mu`. */
  function Weight(e: real -> real, s: Score, mu: Score, eps: Temp): real
    requires eps.Valid()
  {
    match eps
    case Zero => if s == mu && s != NegInf then 1.0 else 0.0
    case Infinite => 1.0
    case Warm(t) =>
      if s == mu && s != NegInf then 1.0
      else if s.Fin? && mu.Fin? then Factor(e, s.s, mu.s, t)
      else 0.0
  }

  datatype Mass = Mass(z: real, u: real)

  function Plus(a: Mass, b: Mass): Mass {
    Mass(a.z + b.z, a.u + b.u)
  }

  function Scaled(a: Mass, k: real): Mass {
    Mass(a.z * k, a.u * k)
  }

  function RowMass(e: real -> real, r: Row, mu: Score, eps: Temp): Mass
    requires eps.Valid()
  {
    var w := Weight(e, r.score, mu, eps);
    Mass(w, w * r.v)
  }

  /** The sum of the first `n` masses. */
  function PrefixMass(ms: seq<Mass>, n: nat): Mass
    requires n <= |ms|
  {
    if n == 0 then Mass(0.0, 0.0) else Plus(PrefixMass(ms, n - 1), ms[n - 1])
  }

  function SumMass(ms: seq<Mass>): Mass {
    PrefixMass(ms, |ms|)
  }

  function Masses(e: real -> real, rows: seq<Row>, mu: Score, eps: Temp): (ms: seq<Mass>)
    requires eps.Valid()
  {
    seq(|rows|, i requires 0 <= i < |rows| => RowMass(e, rows[i], mu, eps))
  }

  /** Weight sum and weighted value sum against the anchor `mu`. */
  function Total(e: real -> real, rows: seq<Row>, mu: Score, eps: Temp): Mass
    requires eps.Valid()
  {
    SumMass(Masses(e, rows, mu, eps))
  }

  function Closed(e: real -> real, rows: seq<Row>, eps: Temp): Acc
    requires eps.Valid()
  {
    var mu := Anchor(rows, eps);
    var m := Total(e, rows, mu, eps);
    Acc(mu, m.z, m.u)
  }

  /** No row of `rows` carries weight. */
  predicate Vacant(rows: seq<Row>, eps: Temp) {
    if eps.Infinite? then rows == [] else Top(rows) == NegInf
  }

  function Fold(e: real -> real, acc: Acc, rows: seq<Row>, eps: Temp): Acc
    requires eps.Valid()
  {
    if rows == [] then acc
    else Absorb(e, Fold(e, acc, rows[..|rows| - 1], eps), rows[|rows| - 1], eps)
  }

  // ------------------------------------------------------------------ the largest score

  lemma {:induction false} TopBounds(rows: seq<Row>)
    ensures forall i :: 0 <= i < |rows| ==> AtMost(rows[i].score, Top(rows))
    ensures Top(rows) != NegInf ==> exists i :: 0 <= i < |rows| && rows[i].score == Top(rows)
  {
    if rows != [] {
      var n := |rows| - 1;
      TopBounds(rows[..n]);
      assert forall i :: 0 <= i < n ==> rows[..n][i] == rows[i];
      if Less(Top(rows[..n]), rows[n].score) {
        assert rows[n].score == Top(rows);
      } else if Top(rows) != NegInf {
        var i :| 0 <= i < n && rows[..n][i].score == Top(rows[..n]);
        assert rows[i].score == Top(rows);
      }
    }
  }

  lemma {:induction false} TopUnique(rows: seq<Row>, top: Score)
    requires forall i :: 0 <= i < |rows| ==> AtMost(rows[i].score, top)
    requires top != NegInf ==> exists i :: 0 <= i < |rows| && rows[i].score == top
    ensures Top(rows) == top
  {
    TopBounds(rows);
  }

  lemma {:induction false} TopAppend(a: seq<Row>, b: seq<Row>)
    ensures Top(a + b) == Larger(Top(a), Top(b))
  {
    TopBounds(a);
    TopBounds(b);
    var rows := a + b;
    var top := Larger(Top(a), Top(b));
    forall i | 0 <= i < |rows| ensures AtMost(rows[i].score, top) {
      if i < |a| { assert rows[i] == a[i]; } else { assert rows[i] == b[i - |a|]; }
    }
    if top != NegInf {
      if top == Top(b) {
        var i :| 0 <= i < |b| && b[i].score == top;
        assert rows[|a| + i].score == top;
      } else {
        var i :| 0 <= i < |a| && a[i].score == top;
        assert rows[i].score == top;
      }
    }
    TopUnique(rows, top);
  }

  // ------------------------------------------------------------------ sums of masses

  lemma {:induction false} PrefixAppend(a: seq<Mass>, b: seq<Mass>, n: nat)
    requires n <= |b|
    ensures PrefixMass(a + b, |a| + n) == Plus(PrefixMass(a + b, |a|), PrefixMass(b, n))
  {
    if n > 0 {
      PrefixAppend(a, b, n - 1);
    }
  }

  lemma {:induction false} PrefixAgree(a: seq<Mass>, b: seq<Mass>, n: nat)
    requires n <= |a| && n <= |b| && forall i :: 0 <= i < n ==> a[i] == b[i]
    ensures PrefixMass(a, n) == PrefixMass(b, n)
  {
    if n > 0 {
      PrefixAgree(a, b, n - 1);
    }
  }

  lemma {:induction false} SumMassAppend(a: seq<Mass>, b: seq<Mass>)
    ensures SumMass(a + b) == Plus(SumMass(a), SumMass(b))
  {
    PrefixAppend(a, b, |b|);
    PrefixAgree(a + b, a, |a|);
  }

  lemma {:induction false} PrefixScaled(a: seq<Mass>, b: seq<Mass>, k: real, n: nat)
    requires n <= |a| == |b| && forall i :: 0 <= i < n ==> b[i] == Scaled(a[i], k)
    ensures PrefixMass(b, n) == Scaled(PrefixMass(a, n), k)
  {
    if n > 0 {
      PrefixScaled(a, b, k, n - 1);
    }
  }

  lemma {:induction false} SumMassScaled(a: seq<Mass>, b: seq<Mass>, k: real)
    requires |a| == |b| && forall i :: 0 <= i < |a| ==> b[i] == Scaled(a[i], k)
    ensures SumMass(b) == Scaled(SumMass(a), k)
  {
    PrefixScaled(a, b, k, |a|);
  }

  lemma {:induction false} PrefixZero(ms: seq<Mass>, n: nat)
    requires n <= |ms| && forall i :: 0 <= i < n ==> ms[i] == Mass(0.0, 0.0)
    ensures PrefixMass(ms, n) == Mass(0.0, 0.0)
  {
    if n > 0 {
      PrefixZero(ms, n - 1);
    }
  }

  lemma {:induction false} PrefixNonNegative(ms: seq<Mass>, n: nat)
    requires n <= |ms| && forall i :: 0 <= i < n ==> ms[i].z >= 0.0
    ensures PrefixMass(ms, n).z >= 0.0
  {
    if n > 0 {
      PrefixNonNegative(ms, n - 1);
    }
  }

  // ------------------------------------------------------------------ the two sums

  lemma {:induction false} TotalAppend(e: real -> real, a: seq<Row>, b: seq<Row>, mu: Score, eps: Temp)
    requires eps.Valid()
    ensures Total(e, a + b, mu, eps) == Plus(Total(e, a, mu, eps), Total(e, b, mu, eps))
  {
    assert Masses(e, a + b, mu, eps) == Masses(e, a, mu, eps) + Masses(e, b, mu, eps);
    SumMassAppend(Masses(e, a, mu, eps), Masses(e, b, mu, eps));
  }

  lemma {:induction false} SumMassOne(m: Mass)
    ensures SumMass([m]) == m
  {
    assert PrefixMass([m], 1) == Plus(PrefixMass([m], 0), m);
  }

  lemma {:induction false} TotalOne(e: real -> real, r: Row, mu: Score, eps: Temp)
    requires eps.Valid()
    ensures Total(e, [r], mu, eps) == RowMass(e, r, mu, eps)
  {
    SumMassOne(RowMass(e, r, mu, eps));
    assert Masses(e, [r], mu, eps) == [RowMass(e, r, mu, eps)];
  }

  /** What multiplying by does when the anchor moves from `mu` up to `mu2`. */
  function Rescale(e: real -> real, mu: Score, mu2: Score, eps: Temp): real
    requires eps.Valid()
  {
    Weight(e, mu, mu2, eps)
  }

  lemma {:induction false} WeightRebase(e: real -> real, s: Score, mu: Score, mu2: Score, eps: Temp)
    requires eps.Valid() && IsExp(e)
    requires AtMost(s, mu) && AtMost(mu, mu2)
    ensures Weight(e, s, mu2, eps) == Weight(e, s, mu, eps) * Rescale(e, mu, mu2, eps)
  {
    if eps.Warm? && s.Fin? && mu.Fin? && mu2.Fin? {
      RebaseFactor(e, s.s, mu.s, mu2.s, eps.t);
      assert (mu.s - mu.s) / eps.t == 0.0;
      assert (s.s - s.s) / eps.t == 0.0;
    }
  }

  lemma {:induction false} RowMassRebase(e: real -> real, r: Row, mu: Score, mu2: Score, eps: Temp)
    requires eps.Valid() && IsExp(e)
    requires AtMost(r.score, mu) && AtMost(mu, mu2)
    ensures RowMass(e, r, mu2, eps) == Scaled(RowMass(e, r, mu, eps), Rescale(e, mu, mu2, eps))
  {
    WeightRebase(e, r.score, mu, mu2, eps);
    var w, k := Weight(e, r.score, mu, eps), Rescale(e, mu, mu2, eps);
    assert (w * k) * r.v == (w * r.v) * k;
  }

  /** Moving the anchor up multiplies both sums by one factor. */
  lemma {:induction false} TotalRebase(e: real -> real, rows: seq<Row>, mu: Score, mu2: Score, eps: Temp)
    requires eps.Valid() && IsExp(e)
    requires AtMost(Top(rows), mu) && AtMost(mu, mu2)
    ensures Total(e, rows, mu2, eps) == Scaled(Total(e, rows, mu, eps), Rescale(e, mu, mu2, eps))
  {
    TopBounds(rows);
    forall i | 0 <= i < |rows|
      ensures Masses(e, rows, mu2, eps)[i] == Scaled(Masses(e, rows, mu, eps)[i], Rescale(e, mu, mu2, eps))
    {
      assert AtMost(rows[i].score, mu);
      RowMassRebase(e, rows[i], mu, mu2, eps);
    }
    SumMassScaled(Masses(e, rows, mu, eps), Masses(e, rows, mu2, eps), Rescale(e, mu, mu2, eps));
  }

  lemma {:induction false} WeightNonNegative(e: real -> real, s: Score, mu: Score, eps: Temp)
    requires eps.Valid() && IsExp(e)
    ensures Weight(e, s, mu, eps) >= 0.0
  {
    if eps.Warm? && s.Fin? && mu.Fin? {
      assert Positive(e, (s.s - mu.s) / eps.t);
    }
  }

  lemma {:induction false} TotalNonNegative(e: real -> real, rows: seq<Row>, mu: Score, eps: Temp)
    requires eps.Valid() && IsExp(e)
    ensures Total(e, rows, mu, eps).z >= 0.0
  {
    forall i | 0 <= i < |rows| ensures Masses(e, rows, mu, eps)[i].z >= 0.0 {
      WeightNonNegative(e, rows[i].score, mu, eps);
    }
    PrefixNonNegative(Masses(e, rows, mu, eps), |rows|);
  }

  lemma {:induction false} TotalOfVacant(e: real -> real, rows: seq<Row>, mu: Score, eps: Temp)
    requires eps.Valid() && !eps.Infinite? && Top(rows) == NegInf
    ensures Total(e, rows, mu, eps) == Mass(0.0, 0.0)
  {
    TopBounds(rows);
    forall i | 0 <= i < |rows| ensures Masses(e, rows, mu, eps)[i] == Mass(0.0, 0.0) {
      assert AtMost(rows[i].score, NegInf);
    }
    PrefixZero(Masses(e, rows, mu, eps), |rows|);
  }

  /** The row carrying the anchor weighs exactly one, so a non-vacant sum is at least one. */
  lemma {:induction false} TotalAtLeastOne(e: real -> real, rows: seq<Row>, eps: Temp)
    requires eps.Valid() && IsExp(e) && !Vacant(rows, eps)
    ensures Total(e, rows, Anchor(rows, eps), eps).z >= 1.0
  {
    var mu := Anchor(rows, eps);
    TopBounds(rows);
    var i :| 0 <= i < |rows| && Weight(e, rows[i].score, mu, eps) == 1.0;
    TotalPick(e, rows, i, mu, eps);
    TotalNonNegative(e, rows[..i] + rows[i + 1..], mu, eps);
  }

  /** The `is_empty` test of the engine (weight sum zero) is exactly vacancy. */
  lemma {:induction false} EmptyIffVacant(e: real -> real, rows: seq<Row>, eps: Temp)
    requires eps.Valid() && IsExp(e)
    ensures Closed(e, rows, eps).IsEmpty() <==> Vacant(rows, eps)
    ensures Vacant(rows, eps) ==> Closed(e, rows, eps) == EMPTY
  {
    if Vacant(rows, eps) {
      if !eps.Infinite? { TotalOfVacant(e, rows, NegInf, eps); }
    } else {
      TotalAtLeastOne(e, rows, eps);
    }
  }

  /** Between finite scores at a positive temperature the weight is the exponential factor, ties included. */
  lemma {:induction false} WeightIsFactor(e: real -> real, s: Score, mu: Score, eps: Temp)
    requires eps.Valid() && IsExp(e)
    ensures eps.Warm? && s.Fin? && mu.Fin? ==> Weight(e, s, mu, eps) == Factor(e, s.s, mu.s, eps.t)
  {
    if eps.Warm? && s.Fin? && s == mu {
      assert (s.s - mu.s) / eps.t == 0.0;
    }
  }

  /** An accumulator as the engine can hold it: without weight exactly when it is the initial one. */
  ghost predicate Coherent(acc: Acc, eps: Temp) {
    && (acc.z == 0.0 ==> acc == EMPTY)
    && (if eps.Infinite? then acc.mu == NegInf else acc.mu == NegInf ==> acc == EMPTY)
  }

  /** One row on its own. */
  function Single(e: real -> real, r: Row, eps: Temp): Acc
    requires eps.Valid()
  {
    Absorb(e, EMPTY, r, eps)
  }

  /** Every branch of `Absorb` is a merge with that one row. */
  lemma {:induction false} AbsorbIsMerge(e: real -> real, acc: Acc, r: Row, eps: Temp)
    requires eps.Valid() && IsExp(e) && Coherent(acc, eps)
    ensures Absorb(e, acc, r, eps) == Merge(e, acc, Single(e, r, eps), eps)
  {
    assert eps.Warm? && r.score.Fin? && acc.mu.Fin? ==>
        var w := Factor(e, r.score.s, Larger(acc.mu, r.score).s, eps.t); 1.0 * w == w && r.v * w == w * r.v;
  }

  lemma {:induction false} SingleMass(e: real -> real, r: Row, mu2: Score, eps: Temp)
    requires eps.Valid() && IsExp(e)
    requires if eps.Infinite? then mu2 == NegInf else AtMost(r.score, mu2)
    ensures var one := Single(e, r, eps);
      && Coherent(one, eps)
      && one.mu == (if eps.Infinite? then NegInf else r.score)
      && RowMass(e, r, mu2, eps) == Scaled(Mass(one.z, one.u), Rescale(e, one.mu, mu2, eps))
  {
  }

  /** Every branch of `Merge` is the same re-base-and-add. */
  lemma {:induction false} MergeRebases(e: real -> real, a: Acc, b: Acc, eps: Temp)
    requires eps.Valid() && IsExp(e) && Coherent(a, eps) && Coherent(b, eps)
    ensures
      var mu2 := if eps.Infinite? then NegInf else Larger(a.mu, b.mu);
      var m := Plus(Scaled(Mass(a.z, a.u), Rescale(e, a.mu, mu2, eps)),
                    Scaled(Mass(b.z, b.u), Rescale(e, b.mu, mu2, eps)));
      Merge(e, a, b, eps) == Acc(mu2, m.z, m.u)
  {
    if a == EMPTY || b == EMPTY {
      MergeWithEmpty(e, a, b, eps);
    } else if eps.Warm? && a.mu.Fin? && b.mu.Fin? {
      WeightIsFactor(e, a.mu, Larger(a.mu, b.mu), eps);
      WeightIsFactor(e, b.mu, Larger(a.mu, b.mu), eps);
    } else {
      MergeOfExtremes(e, a, b, eps);
    }
  }

  lemma {:induction false} MergeWithEmpty(e: real -> real, a: Acc, b: Acc, eps: Temp)
    requires eps.Valid() && Coherent(a, eps) && Coherent(b, eps)
    requires a == EMPTY || b == EMPTY
    ensures
      var mu2 := if eps.Infinite? then NegInf else Larger(a.mu, b.mu);
      var m := Plus(Scaled(Mass(a.z, a.u), Rescale(e, a.mu, mu2, eps)),
                    Scaled(Mass(b.z, b.u), Rescale(e, b.mu, mu2, eps)));
      Merge(e, a, b, eps) == Acc(mu2, m.z, m.u)
  {
    var mu2 := if eps.Infinite? then NegInf else Larger(a.mu, b.mu);
    ScaledUnits(Mass(a.z, a.u), Rescale(e, a.mu, mu2, eps));
    ScaledUnits(Mass(b.z, b.u), Rescale(e, b.mu, mu2, eps));
    if b == EMPTY {
      assert Merge(e, a, b, eps) == a;
    } else {
      assert Merge(e, a, b, eps) == b;
    }
  }

  lemma {:induction false} ScaledUnits(m: Mass, k: real)
    ensures k == 1.0 ==> Scaled(m, k) == m
    ensures k == 0.0 || m == Mass(0.0, 0.0) ==> Scaled(m, k) == Mass(0.0, 0.0)
  {
  }

  lemma {:induction false} MergeOfExtremes(e: real -> real, a: Acc, b: Acc, eps: Temp)
    requires eps.Valid() && Coherent(a, eps) && Coherent(b, eps)
    requires a != EMPTY && b != EMPTY && !(eps.Warm? && a.mu.Fin? && b.mu.Fin?)
    ensures
      var mu2 := if eps.Infinite? then NegInf else Larger(a.mu, b.mu);
      var m := Plus(Scaled(Mass(a.z, a.u), Rescale(e, a.mu, mu2, eps)),
                    Scaled(Mass(b.z, b.u), Rescale(e, b.mu, mu2, eps)));
      Merge(e, a, b, eps) == Acc(mu2, m.z, m.u)
  {
    var mu2 := if eps.Infinite? then NegInf else Larger(a.mu, b.mu);
    var k1, k2 := Rescale(e, a.mu, mu2, eps), Rescale(e, b.mu, mu2, eps);
    assert k1 == 1.0 || k1 == 0.0;
    assert k2 == 1.0 || k2 == 0.0;
    ScaledUnits(Mass(a.z, a.u), k1);
    ScaledUnits(Mass(b.z, b.u), k2);
  }

  lemma {:induction false} ClosedCoherent(e: real -> real, rows: seq<Row>, eps: Temp)
    requires eps.Valid() && IsExp(e)
    ensures Coherent(Closed(e, rows, eps), eps)
  {
    EmptyIffVacant(e, rows, eps);
  }

  // ------------------------------------------------------------------ main results

  /** Absorbing one row into the closed form of some rows gives the closed form of one row more. */
  lemma {:induction false} AbsorbClosed(e: real -> real, rows: seq<Row>, r: Row, eps: Temp)
    requires eps.Valid() && IsExp(e)
    ensures Absorb(e, Closed(e, rows, eps), r, eps) == Closed(e, rows + [r], eps)
  {
    var mu, mu2 := Anchor(rows, eps), Anchor(rows + [r], eps);
    assert (rows + [r])[..|rows|] == rows;
    ClosedCoherent(e, rows, eps);
    AbsorbIsMerge(e, Closed(e, rows, eps), r, eps);
    SingleMass(e, r, mu2, eps);
    MergeRebases(e, Closed(e, rows, eps), Single(e, r, eps), eps);
    TotalAppend(e, rows, [r], mu2, eps);
    TotalOne(e, r, mu2, eps);
    ClosedRebase(e, rows, mu2, eps);
  }

  lemma {:induction false} ClosedRebase(e: real -> real, rows: seq<Row>, mu2: Score, eps: Temp)
    requires eps.Valid() && IsExp(e)
    requires if eps.Infinite? then mu2 == NegInf else AtMost(Top(rows), mu2)
    ensures
      var acc := Closed(e, rows, eps);
      Total(e, rows, mu2, eps) == Scaled(Mass(acc.z, acc.u), Rescale(e, acc.mu, mu2, eps))
  {
    if !eps.Infinite? {
      TotalRebase(e, rows, Top(rows), mu2, eps);
    }
  }

  /** Absorbing rows one at a time, from the empty accumulator, computes the closed form. */
  lemma {:induction false} FoldIsClosed(e: real -> real, rows: seq<Row>, eps: Temp)
    requires eps.Valid() && IsExp(e)
    ensures Fold(e, EMPTY, rows, eps) == Closed(e, rows, eps)
  {
    if rows != [] {
      var n := |rows| - 1;
      FoldIsClosed(e, rows[..n], eps);
      AbsorbClosed(e, rows[..n], rows[n], eps);
      assert rows[..n] + [rows[n]] == rows;
    }
  }

  /** Partition-reduce: merging the accumulators of two parts is absorbing both parts. */
  lemma {:induction false} MergeClosed(e: real -> real, a: seq<Row>, b: seq<Row>, eps: Temp)
    requires eps.Valid() && IsExp(e)
    ensures Merge(e, Closed(e, a, eps), Closed(e, b, eps), eps) == Closed(e, a + b, eps)
  {
    ClosedCoherent(e, a, eps);
    ClosedCoherent(e, b, eps);
    MergeRebases(e, Closed(e, a, eps), Closed(e, b, eps), eps);
    TopAppend(a, b);
    var mu := Anchor(a + b, eps);
    TotalAppend(e, a, b, mu, eps);
    ClosedRebase(e, a, mu, eps);
    ClosedRebase(e, b, mu, eps);
  }

  /** The empty accumulator is the identity of merge on every accumulator. */
  lemma {:induction false} MergeIdentity(e: real -> real, rows: seq<Row>, eps: Temp)
    requires eps.Valid() && IsExp(e)
    ensures Merge(e, Closed(e, rows, eps), EMPTY, eps) == Closed(e, rows, eps)
    ensures Merge(e, EMPTY, Closed(e, rows, eps), eps) == Closed(e, rows, eps)
  {
    EmptyIffVacant(e, rows, eps);
  }

  lemma {:induction false} TotalPick(e: real -> real, rows: seq<Row>, i: nat, mu: Score, eps: Temp)
    requires eps.Valid() && i < |rows|
    ensures Total(e, rows, mu, eps) == Plus(RowMass(e, rows[i], mu, eps), Total(e, rows[..i] + rows[i + 1..], mu, eps))
  {
    assert rows == rows[..i] + ([rows[i]] + rows[i + 1..]);
    TotalAppend(e, rows[..i], [rows[i]] + rows[i + 1..], mu, eps);
    TotalAppend(e, [rows[i]], rows[i + 1..], mu, eps);
    TotalAppend(e, rows[..i], rows[i + 1..], mu, eps);
    TotalOne(e, rows[i], mu, eps);
  }

  lemma {:induction false} TotalPermutation(e: real -> real, a: seq<Row>, b: seq<Row>, mu: Score, eps: Temp)
    requires eps.Valid() && multiset(a) == multiset(b)
    ensures Total(e, a, mu, eps) == Total(e, b, mu, eps)
    decreases |a|
  {
    if a == [] {
      assert |multiset(b)| == 0;
    } else {
      var n := |a| - 1;
      var i := Bags.FindLast(a, b);
      TotalPermutation(e, a[..n], b[..i] + b[i + 1..], mu, eps);
      TotalPick(e, b, i, mu, eps);
      TotalPick(e, a, n, mu, eps);
      assert a[..n] + a[n + 1..] == a[..n];
    }
  }

  lemma {:induction false} TopPermutation(a: seq<Row>, b: seq<Row>)
    requires multiset(a) == multiset(b)
    ensures Top(a) == Top(b)
  {
    TopBounds(a);
    forall i | 0 <= i < |b| ensures AtMost(b[i].score, Top(a)) {
      assert b[i] in multiset(a);
    }
    if Top(a) != NegInf {
      var i :| 0 <= i < |a| && a[i].score == Top(a);
      assert a[i] in multiset(b);
      var j :| 0 <= j < |b| && b[j] == a[i];
      assert b[j].score == Top(a);
    }
    TopUnique(b, Top(a));
  }

  /** The result depends on the bag of rows only: every enumeration order gives the same accumulator. */
  lemma {:induction false} OrderIrrelevant(e: real -> real, a: seq<Row>, b: seq<Row>, eps: Temp)
    requires eps.Valid() && IsExp(e) && multiset(a) == multiset(b)
    ensures Fold(e, EMPTY, a, eps) == Fold(e, EMPTY, b, eps)
  {
    FoldIsClosed(e, a, eps);
    FoldIsClosed(e, b, eps);
    TopPermutation(a, b);
    TotalPermutation(e, a, b, Anchor(a, eps), eps);
  }

  // ------------------------------------------------------------------ the answer

  /** What an evaluator answers for some rows: nothing, or the weighted mean. */
  function Answer(acc: Acc): Option<real> {
    if acc.IsEmpty() then None else Some(acc.u / acc.z)
  }

  /** The reference answer over `rows`. */
  function SoftMean(e: real -> real, rows: seq<Row>, eps: Temp): Option<real>
    requires eps.Valid()
  {
    Answer(Closed(e, rows, eps))
  }

  predicate AllFinite(rows: seq<Row>) {
    forall i :: 0 <= i < |rows| ==> rows[i].score.Fin?
  }

  /** Softmax as it is written on paper, with no anchor: every row weighs `exp(score / t)`. */
  function RawMass(e: real -> real, r: Row, t: real): Mass
    requires t > 0.0 && r.score.Fin?
  {
    var w := e(r.score.s / t);
    Mass(w, w * r.v)
  }

  function RawMasses(e: real -> real, rows: seq<Row>, t: real): seq<Mass>
    requires t > 0.0 && AllFinite(rows)
  {
    seq(|rows|, i requires 0 <= i < |rows| => RawMass(e, rows[i], t))
  }

  lemma {:induction false} RawSums(e: real -> real, rows: seq<Row>, t: real)
    requires IsExp(e) && t > 0.0 && rows != [] && AllFinite(rows)
    ensures Top(rows).Fin?
    ensures SumMass(RawMasses(e, rows, t)) == Scaled(Total(e, rows, Top(rows), Warm(t)), e(Top(rows).s / t))
  {
    TopBounds(rows);
    assert AtMost(rows[0].score, Top(rows));
    var mu := Top(rows);
    var ms, raw := Masses(e, rows, mu, Warm(t)), RawMasses(e, rows, t);
    forall i | 0 <= i < |rows| ensures raw[i] == Scaled(ms[i], e(mu.s / t)) {
      RawMassAnchored(e, rows[i], mu.s, t);
    }
    SumMassScaled(ms, raw, e(mu.s / t));
  }

  /** The anchor cancels: the shifted sums are the raw softmax sums divided by `exp(mu / t)`, so the
      answer is the softmax mean, whatever the scores. */
  lemma {:induction false} AnchorCancels(e: real -> real, rows: seq<Row>, t: real)
    requires IsExp(e) && t > 0.0 && rows != [] && AllFinite(rows)
    ensures
      var raw := SumMass(RawMasses(e, rows, t));
      raw.z > 0.0 && SoftMean(e, rows, Warm(t)) == Some(raw.u / raw.z)
  {
    RawSums(e, rows, t);
    TotalAtLeastOne(e, rows, Warm(t));
    var m, k := Total(e, rows, Top(rows), Warm(t)), e(Top(rows).s / t);
    assert Positive(e, Top(rows).s / t);
    RatioScaled(m, k);
  }

  lemma {:induction false} RawMassAnchored(e: real -> real, r: Row, mu: real, t: real)
    requires IsExp(e) && t > 0.0 && r.score.Fin?
    ensures RawMass(e, r, t) == Scaled(RowMass(e, r, Fin(mu), Warm(t)), e(mu / t))
  {
    var w, k := Weight(e, r.score, Fin(mu), Warm(t)), e(mu / t);
    WeightIsFactor(e, r.score, Fin(mu), Warm(t));
    assert (r.score.s - mu) / t + mu / t == r.score.s / t;
    assert SumLaw(e, (r.score.s - mu) / t, mu / t);
    assert (w * k) * r.v == (w * r.v) * k;
  }

  lemma {:induction false} RatioScaled(m: Mass, k: real)
    requires m.z > 0.0 && k > 0.0
    ensures Scaled(m, k).z > 0.0
    ensures Scaled(m, k).u / Scaled(m, k).z == m.u / m.z
  {
    var q := m.u / m.z;
    assert q * m.z == m.u;
    assert q * (m.z * k) == m.u * k;
  }

  // ------------------------------------------------------------------ the answer, written out

  ghost predicate NotAbove(a: Score, b: Score) {
    a == NegInf || b == PosInf || (a.Fin? && b.Fin? && a.s <= b.s)
  }

  /** What row `i` weighs: everybody one at infinite temperature; at zero one for the rows of the largest score, unless
      that is minus infinity; between them `exp(score / t)`, unless some scores are plus infinity, which then share the
      answer among themselves. */
  ghost function PaperWeight(e: real -> real, rows: seq<Row>, eps: Temp, i: nat): real
    requires eps.Valid() && i < |rows|
  {
    match eps
    case Infinite => 1.0
    case Zero =>
      if rows[i].score != NegInf && (forall j :: 0 <= j < |rows| ==> NotAbove(rows[j].score, rows[i].score)) then 1.0
      else 0.0
    case Warm(t) =>
      if exists j :: 0 <= j < |rows| && rows[j].score == PosInf then
        if rows[i].score == PosInf then 1.0 else 0.0
      else
        if rows[i].score == NegInf then 0.0 else e(rows[i].score.s / t)
  }

  ghost function PaperWeights(e: real -> real, rows: seq<Row>, eps: Temp, n: nat): real
    requires eps.Valid() && n <= |rows|
  {
    if n == 0 then 0.0 else PaperWeights(e, rows, eps, n - 1) + PaperWeight(e, rows, eps, n - 1)
  }

  ghost function PaperValues(e: real -> real, rows: seq<Row>, eps: Temp, n: nat): real
    requires eps.Valid() && n <= |rows|
  {
    if n == 0 then 0.0
    else PaperValues(e, rows, eps, n - 1) + PaperWeight(e, rows, eps, n - 1) * rows[n - 1].v
  }

  lemma {:induction false} NotAboveIs(a: Score, b: Score)
    ensures NotAbove(a, b) <==> AtMost(a, b)
  {
  }

  /** One factor turns every anchored weight into the weight on paper. */
  ghost function PaperFactor(e: real -> real, rows: seq<Row>, eps: Temp): real
    requires eps.Valid()
  {
    if eps.Warm? && Top(rows).Fin? then e(Top(rows).s / eps.t) else 1.0
  }

  lemma {:induction false} TopCases(rows: seq<Row>, i: nat)
    requires i < |rows|
    ensures Top(rows) == PosInf <==> exists j :: 0 <= j < |rows| && rows[j].score == PosInf
    ensures rows[i].score == Top(rows) <==> forall j :: 0 <= j < |rows| ==> NotAbove(rows[j].score, rows[i].score)
    ensures Top(rows) == NegInf ==> rows[i].score == NegInf
  {
    TopBounds(rows);
    forall j | 0 <= j < |rows| ensures NotAbove(rows[j].score, Top(rows)) {
      NotAboveIs(rows[j].score, Top(rows));
    }
    if rows[i].score != Top(rows) {
      assert Top(rows) != NegInf;
      var j :| 0 <= j < |rows| && rows[j].score == Top(rows);
      assert !NotAbove(rows[j].score, rows[i].score);
    }
  }

  lemma {:induction false} PaperIsScaled(e: real -> real, rows: seq<Row>, eps: Temp, i: nat)
    requires IsExp(e) && eps.Valid() && i < |rows|
    ensures PaperWeight(e, rows, eps, i) == Weight(e, rows[i].score, Anchor(rows, eps), eps) * PaperFactor(e, rows, eps)
  {
    TopCases(rows, i);
    if eps.Warm? && Top(rows).Fin? && rows[i].score.Fin? {
      RawMassAnchored(e, rows[i], Top(rows).s, eps.t);
    }
  }

  lemma {:induction false} PaperSums(e: real -> real, rows: seq<Row>, eps: Temp, n: nat)
    requires IsExp(e) && eps.Valid() && n <= |rows|
    ensures Mass(PaperWeights(e, rows, eps, n), PaperValues(e, rows, eps, n))
            == Scaled(PrefixMass(Masses(e, rows, Anchor(rows, eps), eps), n), PaperFactor(e, rows, eps))
  {
    hide PaperWeight, Weight, PaperFactor, Anchor, IsExp, Scaled, Plus;
    var ms, k := Masses(e, rows, Anchor(rows, eps), eps), PaperFactor(e, rows, eps);
    if n == 0 {
      NothingScaled(k);
    } else {
      var w, paper, v := Weight(e, rows[n - 1].score, Anchor(rows, eps), eps), PaperWeight(e, rows, eps, n - 1), rows[n - 1].v;
      var z, u := PaperWeights(e, rows, eps, n - 1), PaperValues(e, rows, eps, n - 1);
      PaperSums(e, rows, eps, n - 1);
      PaperIsScaled(e, rows, eps, n - 1);
      assert Mass(PaperWeights(e, rows, eps, n), PaperValues(e, rows, eps, n)) == Mass(z + paper, u + paper * v);
      assert PrefixMass(ms, n) == Plus(PrefixMass(ms, n - 1), ms[n - 1]) && ms[n - 1] == Mass(w, w * v);
      PaperStep(PrefixMass(ms, n - 1), z, u, w, k, paper, v);
    }
  }

  lemma {:induction false} NothingScaled(k: real)
    ensures Scaled(Mass(0.0, 0.0), k) == Mass(0.0, 0.0)
  {
  }

  lemma {:induction false} PaperStep(m: Mass, z: real, u: real, w: real, k: real, paper: real, v: real)
    requires Mass(z, u) == Scaled(m, k) && paper == w * k
    ensures Mass(z + paper, u + paper * v) == Scaled(Plus(m, Mass(w, w * v)), k)
  {
    assert (w * k) * v == (w * v) * k;
    assert (m.u + w * v) * k == m.u * k + (w * v) * k;
    assert (m.z + w) * k == m.z * k + w * k;
  }

  /** The answer for any rows, any scores and any temperature: the weighted mean with the weights on paper, or nothing
      when they are all zero. */
  lemma {:induction false} SoftMeanIs(e: real -> real, rows: seq<Row>, eps: Temp)
    requires IsExp(e) && eps.Valid()
    ensures
      var z := PaperWeights(e, rows, eps, |rows|);
      z >= 0.0 && SoftMean(e, rows, eps) == if z == 0.0 then None else Some(PaperValues(e, rows, eps, |rows|) / z)
  {
    PaperSums(e, rows, eps, |rows|);
    var m, k := Total(e, rows, Anchor(rows, eps), eps), PaperFactor(e, rows, eps);
    assert k > 0.0 by {
      assert eps.Warm? && Top(rows).Fin? ==> Positive(e, Top(rows).s / eps.t);
    }
    TotalNonNegative(e, rows, Anchor(rows, eps), eps);
    if m.z > 0.0 {
      RatioScaled(m, k);
    }
  }
}
