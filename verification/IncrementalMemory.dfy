/** Incremental maintenance of the soft aggregate for a fixed query under insert, delete and update
    (engine/bruce-core/src/crud.rs), and exact unlearning: the accumulator is a function of the live set.

    Unlike the fold of the scan operators this one tracks the running maximum at every temperature, and it
    never consults a weight for a score of minus infinity except by equality with the anchor. */
module IncrementalMemory {
  import opened Wrappers
  import opened Exponential
  import Vectors
  import Bags
  import S = SoftAccumulator
  import M = MaskedAttention

  datatype Sim = Dot | NegSquared | Indicator

  datatype Error = DimensionMismatch(expected: nat, got: nat) | DuplicateKey(id: string) | KeyNotFound(id: string)

  datatype Entry = Entry(s: S.Score, v: seq<real>)

  type Live = map<string, Entry>

  /** The accumulator fields. */
  datatype State = State(m: S.Score, num: seq<real>, den: real)

  // ------------------------------------------------------------------ scores

  function Diff(a: seq<real>, b: seq<real>): (d: seq<real>)
    requires |a| == |b|
    ensures |d| == |a|
  {
    seq(|a|, i requires 0 <= i < |a| => a[i] - b[i])
  }

  function ScoreOf(sim: Sim, x: seq<real>, k: seq<real>): S.Score
    requires |x| == |k|
  {
    match sim
    case Dot => S.Fin(Vectors.Dot(x, k))
    case NegSquared => S.Fin(-0.5 * Vectors.Dot(Diff(x, k), Diff(x, k)))
    case Indicator => if Vectors.Dot(Diff(x, k), Diff(x, k)) == 0.0 then S.Fin(0.0) else S.NegInf
  }

  lemma {:induction false} DiffIsZero(x: seq<real>, k: seq<real>)
    requires |x| == |k|
    ensures (forall i :: 0 <= i < |x| ==> Diff(x, k)[i] == 0.0) <==> x == k
  {
    if forall i :: 0 <= i < |x| ==> Diff(x, k)[i] == 0.0 {
      forall i | 0 <= i < |x| ensures x[i] == k[i] {
        assert Diff(x, k)[i] == 0.0;
      }
    }
  }

  /** The squared distance, multiplied out. */
  lemma {:induction false} SquaredDistance(x: seq<real>, k: seq<real>)
    requires |x| == |k|
    ensures Vectors.Dot(Diff(x, k), Diff(x, k)) == Vectors.Dot(x, x) + Vectors.Dot(k, k) - 2.0 * Vectors.Dot(x, k)
  {
    var d := Diff(x, k);
    Vectors.DotLinear(x, k, 1.0, -1.0, d, d);
    Vectors.DotLinear(x, k, 1.0, -1.0, d, x);
    Vectors.DotLinear(x, k, 1.0, -1.0, d, k);
    Vectors.DotSymmetric(x, k);
  }

  /** What the three similarities score. The squared one is never positive, is zero for the key itself only, and is
      the inner product less half of both squares; the indicator tells the key itself from every other key. */
  lemma {:induction false} ScoresAre(x: seq<real>, k: seq<real>)
    requires |x| == |k|
    ensures ScoreOf(Dot, x, k) == S.Fin(Vectors.Dot(x, k))
    ensures
      var near := ScoreOf(NegSquared, x, k);
      && near.Fin? && near.s <= 0.0 && (near.s == 0.0 <==> x == k)
      && 2.0 * near.s == 2.0 * Vectors.Dot(x, k) - Vectors.Dot(x, x) - Vectors.Dot(k, k)
    ensures ScoreOf(Indicator, x, k) == if x == k then S.Fin(0.0) else S.NegInf
  {
    SquaredDistance(x, k);
    Vectors.SquareUpTo(Diff(x, k), |x|);
    DiffIsZero(x, k);
  }

  // ------------------------------------------------------------------ from scratch

  function RowOf(x: Entry, c: nat): S.Row {
    S.Row(x.s, M.Comp(x.v, c))
  }

  /** The scalar row of record `k` in component `c`; weightless when there is no such record. */
  function RowAt(live: Live, k: string, c: nat): S.Row {
    if k in live then RowOf(live[k], c) else S.Row(S.NegInf, 0.0)
  }

  /** The scalar rows of the records listed in `keys`, in component `c`. */
  function Rows(live: Live, keys: seq<string>, c: nat): seq<S.Row> {
    seq(|keys|, i requires 0 <= i < |keys| => RowAt(live, keys[i], c))
  }

  /** The accumulator computed over `rows` and nothing else. */
  function Scratch(e: real -> real, rows: seq<S.Row>, eps: S.Temp): S.Acc
    requires eps.Valid()
  {
    var m := S.Total(e, rows, S.Top(rows), eps);
    S.Acc(S.Top(rows), m.z, m.u)
  }

  /** Some order of the live records; by `ScratchOrder` the order does not matter. */
  ghost function LiveRows(live: Live, c: nat): seq<S.Row> {
    Rows(live, Bags.Enum(live.Keys), c)
  }

  function View(st: State, c: nat): S.Acc {
    S.Acc(st.m, st.den, M.Comp(st.num, c))
  }

  /** The state is the from-scratch accumulator of the live set, in every component. */
  ghost predicate Exact(e: real -> real, st: State, live: Live, eps: S.Temp)
    requires eps.Valid()
  {
    forall c: nat :: View(st, c) == Scratch(e, LiveRows(live, c), eps)
  }

  predicate AllFinite(live: Live) {
    forall k :: k in live ==> live[k].s.Fin?
  }

  // ------------------------------------------------------------------ one component

  /** `exp((a - b) / eps)`; at infinite temperature the quotient is zero. */
  function Over(e: real -> real, a: real, b: real, eps: S.Temp): real
    requires eps.Valid() && !eps.Zero?
  {
    if eps.Infinite? then 1.0 else S.Factor(e, a, b, eps.t)
  }

  /** What inserting a scored row does to one component. A minus-infinite score is only meaningful at
      temperature zero, where it is kept out of the sums. */
  function Insert1(e: real -> real, acc: S.Acc, r: S.Row, eps: S.Temp): S.Acc
    requires eps.Valid() && r.score != S.PosInf && acc.mu != S.PosInf
    requires !eps.Zero? ==> r.score.Fin?
  {
    if eps.Zero? then
      if r.score == S.NegInf then acc
      else
        var a := if S.Less(acc.mu, r.score) then S.Acc(r.score, 0.0, 0.0) else acc;
        if r.score == a.mu then S.Acc(a.mu, a.z + 1.0, a.u + r.v) else a
    else
      var raise := S.Less(acc.mu, r.score);
      var k := if raise && acc.mu.Fin? then Over(e, acc.mu.s, r.score.s, eps) else 1.0;
      var m := S.Larger(acc.mu, r.score);
      var w := Over(e, r.score.s, m.s, eps);
      Raise(acc, m, k, w, r.v)
  }

  /** Re-base by `k` to the anchor `m` and add a row of weight `w`. */
  function Raise(acc: S.Acc, m: S.Score, k: real, w: real, v: real): S.Acc {
    S.Acc(m, acc.z * k + w, acc.u * k + w * v)
  }

  const SLACK: real := 0.000000000001

  /** Does deleting a row of score `s` recompute the accumulator from the survivors? */
  predicate Rescales(acc: S.Acc, s: S.Score, eps: S.Temp)
    requires !eps.Zero? ==> s.Fin? && acc.mu.Fin?
  {
    if eps.Zero? then s == acc.mu && acc.z - 1.0 == 0.0
    else s.s >= acc.mu.s - SLACK
  }

  /** The recomputation over the surviving rows. At temperature zero every row whose score *equals* the
      new maximum is counted, a minus-infinite one included. */
  function Rescale1(e: real -> real, rest: seq<S.Row>, eps: S.Temp): S.Acc
    requires eps.Valid()
  {
    if rest == [] then S.EMPTY
    else if eps.Zero? then
      var m := S.Top(rest);
      var t := CountAt(rest, m, |rest|);
      S.Acc(m, t.z, t.u)
    else Scratch(e, rest, eps)
  }

  /** Number and value sum of the first `n` rows whose score equals `m`. */
  function CountAt(rows: seq<S.Row>, m: S.Score, n: nat): S.Mass
    requires n <= |rows|
  {
    if n == 0 then S.Mass(0.0, 0.0)
    else
      var before := CountAt(rows, m, n - 1);
      if rows[n - 1].score == m then S.Plus(before, S.Mass(1.0, rows[n - 1].v)) else before
  }

  /** What deleting the row `r`, leaving the rows `rest`, does to one component. */
  function Delete1(e: real -> real, acc: S.Acc, r: S.Row, rest: seq<S.Row>, eps: S.Temp): S.Acc
    requires eps.Valid() && (!eps.Zero? ==> r.score.Fin? && acc.mu.Fin?)
  {
    if Rescales(acc, r.score, eps) then Rescale1(e, rest, eps)
    else if eps.Zero? then
      if r.score == acc.mu then S.Acc(acc.mu, acc.z - 1.0, acc.u - r.v) else acc
    else
      var w := Over(e, r.score.s, acc.mu.s, eps);
      Drop(acc, w, r.v)
  }

  /** Take a row of weight `w` out. */
  function Drop(acc: S.Acc, w: real, v: real): S.Acc {
    S.Acc(acc.mu, acc.z - w, acc.u - w * v)
  }

  // ------------------------------------------------------------------ insert and delete are exact

  lemma {:induction false} OverIsWeight(e: real -> real, a: real, b: real, eps: S.Temp)
    requires eps.Valid() && !eps.Zero? && IsExp(e)
    ensures Over(e, a, b, eps) == S.Weight(e, S.Fin(a), S.Fin(b), eps)
  {
    S.WeightIsFactor(e, S.Fin(a), S.Fin(b), eps);
  }

  lemma {:induction false} TopOfFinite(rows: seq<S.Row>)
    requires rows != [] && S.AllFinite(rows)
    ensures S.Top(rows).Fin?
  {
    S.TopBounds(rows);
    assert S.AtMost(rows[0].score, S.Top(rows));
  }

  predicate NoPosInf(rows: seq<S.Row>) {
    forall i :: 0 <= i < |rows| ==> rows[i].score != S.PosInf
  }

  lemma {:induction false} TopNotPosInf(rows: seq<S.Row>)
    requires NoPosInf(rows)
    ensures S.Top(rows) != S.PosInf
  {
    S.TopBounds(rows);
  }

  /** Below infinite temperature an insert is the scan operators' `Absorb`. */
  lemma {:induction false} InsertIsAbsorb(e: real -> real, acc: S.Acc, r: S.Row, eps: S.Temp)
    requires IsExp(e) && eps.Valid() && !eps.Infinite? && S.Coherent(acc, eps)
    requires r.score != S.PosInf && acc.mu != S.PosInf && (!eps.Zero? ==> r.score.Fin?)
    ensures Insert1(e, acc, r, eps) == S.Absorb(e, acc, r, eps)
  {
    if eps.Warm? {
      var m := S.Larger(acc.mu, r.score);
      assert S.Factor(e, m.s, m.s, eps.t) == 1.0 by {
        assert (m.s - m.s) / eps.t == 0.0;
      }
      UnitFactors(acc.z, acc.u);
    }
  }

  lemma {:induction false} UnitFactors(z: real, u: real)
    ensures z * 1.0 == z && u * 1.0 == u && 1.0 * u == u
  {
  }

  lemma {:induction false} InsertExact(e: real -> real, rows: seq<S.Row>, r: S.Row, eps: S.Temp)
    requires IsExp(e) && eps.Valid() && NoPosInf(rows) && r.score != S.PosInf
    requires !eps.Zero? ==> S.AllFinite(rows) && r.score.Fin?
    ensures S.Top(rows) != S.PosInf
    ensures Insert1(e, Scratch(e, rows, eps), r, eps) == Scratch(e, rows + [r], eps)
  {
    TopNotPosInf(rows);
    if eps.Infinite? {
      InsertExactUniform(e, rows, r);
    } else {
      S.ClosedCoherent(e, rows, eps);
      InsertIsAbsorb(e, Scratch(e, rows, eps), r, eps);
      S.AbsorbClosed(e, rows, r, eps);
    }
  }

  /** At infinite temperature the anchor is not consulted. */
  lemma {:induction false} UniformTotal(e: real -> real, rows: seq<S.Row>, m: S.Score, m2: S.Score)
    ensures S.Total(e, rows, m, S.Infinite) == S.Total(e, rows, m2, S.Infinite)
  {
    S.PrefixAgree(S.Masses(e, rows, m, S.Infinite), S.Masses(e, rows, m2, S.Infinite), |rows|);
  }

  lemma {:induction false} InsertExactUniform(e: real -> real, rows: seq<S.Row>, r: S.Row)
    requires S.AllFinite(rows) && r.score.Fin?
    ensures S.Top(rows) != S.PosInf
    ensures Insert1(e, Scratch(e, rows, S.Infinite), r, S.Infinite) == Scratch(e, rows + [r], S.Infinite)
  {
    TopNotPosInf(rows);
    S.TopAppend(rows, [r]);
    assert S.Top([r]) == r.score by { assert [r][..0] == []; }
    var m, m2 := S.Top(rows), S.Top(rows + [r]);
    S.TotalAppend(e, rows, [r], m2, S.Infinite);
    S.TotalOne(e, r, m2, S.Infinite);
    UniformTotal(e, rows, m, m2);
    var t := S.Total(e, rows, m, S.Infinite);
    UnitFactors(t.z, t.u);
    UnitFactors(1.0, r.v);
  }

  /** The rows other than the `i`-th. */
  function Without(rows: seq<S.Row>, i: nat): (rest: seq<S.Row>)
    requires i < |rows|
    ensures |rest| == |rows| - 1
    ensures forall j :: 0 <= j < |rest| ==> rest[j] == rows[if j < i then j else j + 1]
  {
    rows[..i] + rows[i + 1..]
  }

  lemma {:induction false} WithoutHas(rows: seq<S.Row>, i: nat, j: nat)
    requires i < |rows| && j < |rows| && j != i
    ensures rows[j] in Without(rows, i)
  {
    assert Without(rows, i)[if j < i then j else j - 1] == rows[j];
  }

  /** Removing row `i` from the sums leaves the sums of the others. */
  lemma {:induction false} TotalWithout(e: real -> real, rows: seq<S.Row>, i: nat, eps: S.Temp)
    requires eps.Valid() && i < |rows|
    ensures
      var m := S.Top(rows);
      var t, rest := S.Total(e, rows, m, eps), S.Total(e, Without(rows, i), m, eps);
      var w := S.RowMass(e, rows[i], m, eps);
      rest == S.Mass(t.z - w.z, t.u - w.u)
  {
    S.TotalPick(e, rows, i, S.Top(rows), eps);
  }

  /** Below the maximum, a row can leave without moving the maximum. */
  lemma {:induction false} TopWithout(rows: seq<S.Row>, i: nat)
    requires i < |rows| && S.Less(rows[i].score, S.Top(rows))
    ensures S.Top(Without(rows, i)) == S.Top(rows)
  {
    S.TopBounds(rows);
    var rest := Without(rows, i);
    var j :| 0 <= j < |rows| && rows[j].score == S.Top(rows);
    assert rest[if j < i then j else j - 1] == rows[j];
    S.TopUnique(rest, S.Top(rows));
  }

  /** A row below the maximum is taken out by subtraction. */
  lemma {:induction false} DropExact(e: real -> real, rows: seq<S.Row>, i: nat, eps: S.Temp)
    requires IsExp(e) && eps.Valid() && !eps.Zero? && i < |rows|
    requires rows[i].score.Fin? && S.Top(rows).Fin? && S.Less(rows[i].score, S.Top(rows))
    ensures Drop(Scratch(e, rows, eps), Over(e, rows[i].score.s, S.Top(rows).s, eps), rows[i].v)
            == Scratch(e, Without(rows, i), eps)
  {
    TopWithout(rows, i);
    TotalWithout(e, rows, i, eps);
    OverIsWeight(e, rows[i].score.s, S.Top(rows).s, eps);
  }

  lemma {:induction false} DeleteExactContinuous(e: real -> real, rows: seq<S.Row>, i: nat, eps: S.Temp)
    requires IsExp(e) && eps.Valid() && !eps.Zero? && S.AllFinite(rows) && i < |rows|
    ensures S.Top(rows).Fin?
    ensures Delete1(e, Scratch(e, rows, eps), rows[i], Without(rows, i), eps) == Scratch(e, Without(rows, i), eps)
  {
    TopOfFinite(rows);
    S.TopBounds(rows);
    if Rescales(Scratch(e, rows, eps), rows[i].score, eps) {
      if Without(rows, i) == [] {
        assert S.Masses(e, [], S.NegInf, eps) == [];
      }
    } else {
      DropExact(e, rows, i, eps);
    }
  }

  // ------------------------------------------------------------------ temperature zero

  /** Counting the rows at a finite maximum is weighing them at temperature zero. */
  lemma {:induction false} CountIsTotal(e: real -> real, rows: seq<S.Row>, m: S.Score, n: nat)
    requires n <= |rows| && m != S.NegInf
    ensures CountAt(rows, m, n) == S.PrefixMass(S.Masses(e, rows, m, S.Zero), n)
  {
    if n > 0 {
      CountIsTotal(e, rows, m, n - 1);
    }
  }

  lemma {:induction false} CountAtLeast(rows: seq<S.Row>, m: S.Score, n: nat)
    requires n <= |rows|
    ensures CountAt(rows, m, n).z >= 0.0
    ensures CountAt(rows, m, n).z == 0.0 ==> forall j :: 0 <= j < n ==> rows[j].score != m
    ensures (forall j :: 0 <= j < n ==> rows[j].score == m) ==> CountAt(rows, m, n).z == n as real
  {
    if n > 0 {
      CountAtLeast(rows, m, n - 1);
    }
  }

  predicate AnyFinite(rows: seq<S.Row>) {
    exists j :: 0 <= j < |rows| && rows[j].score.Fin?
  }

  lemma {:induction false} AnyFiniteIsTop(rows: seq<S.Row>)
    requires NoPosInf(rows)
    ensures AnyFinite(rows) <==> S.Top(rows).Fin?
  {
    S.TopBounds(rows);
    TopNotPosInf(rows);
    if AnyFinite(rows) {
      var j :| 0 <= j < |rows| && rows[j].score.Fin?;
      assert S.AtMost(rows[j].score, S.Top(rows));
    }
  }

  /** Deleting one of the maximal rows: the count drops by one, and it reaches zero exactly when no maximal
      row is left. */
  lemma {:induction false} DeleteAtTop(e: real -> real, rows: seq<S.Row>, i: nat)
    requires IsExp(e) && i < |rows| && rows[i].score == S.Top(rows) && S.Top(rows).Fin?
    requires S.Top(Without(rows, i)).Fin?
    ensures
      var rest := Without(rows, i);
      Delete1(e, Scratch(e, rows, S.Zero), rows[i], rest, S.Zero) == Scratch(e, rest, S.Zero)
  {
    var rest, m := Without(rows, i), S.Top(rows);
    TotalWithout(e, rows, i, S.Zero);
    CountIsTotal(e, rest, m, |rest|);
    CountIsTotal(e, rest, S.Top(rest), |rest|);
    if S.Total(e, rest, m, S.Zero).z != 0.0 {
      TopKept(rows, rest, i, m);
    }
  }

  /** With a finite survivor, deleting at temperature zero is exact. */
  lemma {:induction false} DeleteTropicalWithSurvivor(e: real -> real, rows: seq<S.Row>, i: nat)
    requires IsExp(e) && NoPosInf(rows) && i < |rows| && AnyFinite(Without(rows, i))
    ensures
      var rest := Without(rows, i);
      Delete1(e, Scratch(e, rows, S.Zero), rows[i], rest, S.Zero) == Scratch(e, rest, S.Zero)
  {
    var rest := Without(rows, i);
    AnyFiniteIsTop(rows);
    AnyFiniteIsTop(rest);
    if rows[i].score == S.Top(rows) {
      DeleteAtTop(e, rows, i);
    } else {
      S.TopBounds(rows);
      assert S.AtMost(rows[i].score, S.Top(rows));
      TopWithout(rows, i);
      TotalWithout(e, rows, i, S.Zero);
    }
  }

  lemma {:induction false} TopKept(rows: seq<S.Row>, rest: seq<S.Row>, i: nat, m: S.Score)
    requires i < |rows| && rest == Without(rows, i) && m == S.Top(rows)
    requires CountAt(rest, m, |rest|).z != 0.0
    ensures S.Top(rest) == m
  {
    S.TopBounds(rows);
    if forall j :: 0 <= j < |rest| ==> rest[j].score != m {
      CountNone(rest, m, |rest|);
    }
    S.TopUnique(rest, m);
  }

  lemma {:induction false} CountNone(rows: seq<S.Row>, m: S.Score, n: nat)
    requires n <= |rows| && forall j :: 0 <= j < n ==> rows[j].score != m
    ensures CountAt(rows, m, n) == S.Mass(0.0, 0.0)
  {
    if n > 0 {
      CountNone(rows, m, n - 1);
    }
  }

  /** Exactly when deleting at temperature zero restores the never-inserted state: some surviving row has
      a finite score, or the deleted row was alone and its score was finite. In every other case - a
      minus-infinite row deleted while no finite one is live, or the last finite row deleted while
      minus-infinite ones remain - the accumulator ends with the wrong weight. */
  lemma {:induction false} DeleteTropicalExactIff(e: real -> real, rows: seq<S.Row>, i: nat)
    requires IsExp(e) && NoPosInf(rows) && i < |rows|
    ensures
      var rest := Without(rows, i);
      Delete1(e, Scratch(e, rows, S.Zero), rows[i], rest, S.Zero) == Scratch(e, rest, S.Zero)
      <==> AnyFinite(rest) || (rest == [] && rows[i].score.Fin?)
  {
    var rest := Without(rows, i);
    if AnyFinite(rest) {
      DeleteTropicalWithSurvivor(e, rows, i);
    } else {
      DeleteTropicalNoSurvivor(e, rows, i);
    }
  }

  /** Without a finite survivor the surviving rows carry no weight at all. */
  lemma {:induction false} NoSurvivorIsEmpty(e: real -> real, rows: seq<S.Row>, i: nat)
    requires NoPosInf(rows) && i < |rows| && !AnyFinite(Without(rows, i))
    ensures
      var rest := Without(rows, i);
      && (forall j :: 0 <= j < |rest| ==> rest[j].score == S.NegInf)
      && Scratch(e, rest, S.Zero) == S.EMPTY
      && S.Top(rows) == rows[i].score
      && S.Total(e, rows, S.Top(rows), S.Zero) == S.RowMass(e, rows[i], S.Top(rows), S.Zero)
  {
    var rest := Without(rows, i);
    S.TopUnique(rest, S.NegInf);
    S.TotalOfVacant(e, rest, S.NegInf, S.Zero);
    forall j | 0 <= j < |rows| ensures S.AtMost(rows[j].score, rows[i].score) {
      if j != i {
        WithoutHas(rows, i, j);
      }
    }
    S.TopUnique(rows, rows[i].score);
    TotalWithout(e, rows, i, S.Zero);
    S.TotalOfVacant(e, rest, S.Top(rows), S.Zero);
  }

  lemma {:induction false} DeleteTropicalNoSurvivor(e: real -> real, rows: seq<S.Row>, i: nat)
    requires NoPosInf(rows) && i < |rows| && !AnyFinite(Without(rows, i))
    ensures Delete1(e, Scratch(e, rows, S.Zero), rows[i], Without(rows, i), S.Zero)
            == Scratch(e, Without(rows, i), S.Zero)
            <==> Without(rows, i) == [] && rows[i].score.Fin?
  {
    var rest := Without(rows, i);
    NoSurvivorIsEmpty(e, rows, i);
    if rest != [] {
      S.TopUnique(rest, S.NegInf);
      CountAtLeast(rest, S.NegInf, |rest|);
    }
  }

  // ------------------------------------------------------------------ enumeration order

  lemma {:induction false} ScratchPermutation(e: real -> real, a: seq<S.Row>, b: seq<S.Row>, eps: S.Temp)
    requires eps.Valid() && multiset(a) == multiset(b)
    ensures Scratch(e, a, eps) == Scratch(e, b, eps)
  {
    S.TopPermutation(a, b);
    S.TotalPermutation(e, a, b, S.Top(a), eps);
  }

  lemma {:induction false} RowsPermutation(live: Live, a: seq<string>, b: seq<string>, c: nat)
    requires multiset(a) == multiset(b)
    ensures multiset(Rows(live, a, c)) == multiset(Rows(live, b, c))
  {
    var f := (k: string) => RowAt(live, k, c);
    Bags.MapPermutation(f, a, b);
    assert Bags.Map(f, a) == Rows(live, a, c);
    assert Bags.Map(f, b) == Rows(live, b, c);
  }

  /** `keys` lists the live records once each. */
  ghost predicate Lists(keys: seq<string>, live: Live) {
    multiset(keys) == multiset(live.Keys)
  }

  /** The from-scratch accumulator does not depend on the order in which the live map is walked. */
  lemma {:induction false} ScratchOrder(e: real -> real, live: Live, keys: seq<string>, c: nat, eps: S.Temp)
    requires eps.Valid() && Lists(keys, live)
    ensures multiset(Rows(live, keys, c)) == multiset(LiveRows(live, c))
    ensures Scratch(e, Rows(live, keys, c), eps) == Scratch(e, LiveRows(live, c), eps)
  {
    RowsPermutation(live, keys, Bags.Enum(live.Keys), c);
    ScratchPermutation(e, Rows(live, keys, c), LiveRows(live, c), eps);
  }

  /** Rows scored `m` become finite ones, the others weightless: counting them is a weight sum. */
  function Mark(r: S.Row, m: S.Score): S.Row {
    S.Row(if r.score == m then S.Fin(0.0) else S.NegInf, r.v)
  }

  function Marked(rows: seq<S.Row>, m: S.Score): seq<S.Row> {
    seq(|rows|, i requires 0 <= i < |rows| => Mark(rows[i], m))
  }

  lemma {:induction false} CountIsMarked(e: real -> real, rows: seq<S.Row>, m: S.Score, n: nat)
    requires n <= |rows|
    ensures CountAt(rows, m, n) == S.PrefixMass(S.Masses(e, Marked(rows, m), S.Fin(0.0), S.Zero), n)
  {
    if n > 0 {
      CountIsMarked(e, rows, m, n - 1);
      assert S.Masses(e, Marked(rows, m), S.Fin(0.0), S.Zero)[n - 1]
          == S.RowMass(e, Mark(rows[n - 1], m), S.Fin(0.0), S.Zero);
    }
  }

  lemma {:induction false} CountPermutation(e: real -> real, a: seq<S.Row>, b: seq<S.Row>, m: S.Score)
    requires multiset(a) == multiset(b)
    ensures CountAt(a, m, |a|) == CountAt(b, m, |b|)
  {
    var f := (r: S.Row) => Mark(r, m);
    CountIsMarked(e, a, m, |a|);
    CountIsMarked(e, b, m, |b|);
    Bags.MapPermutation(f, a, b);
    assert Bags.Map(f, a) == Marked(a, m);
    assert Bags.Map(f, b) == Marked(b, m);
    S.TotalPermutation(e, Marked(a, m), Marked(b, m), S.Fin(0.0), S.Zero);
  }

  lemma {:induction false} RescalePermutation(e: real -> real, a: seq<S.Row>, b: seq<S.Row>, eps: S.Temp)
    requires eps.Valid() && multiset(a) == multiset(b)
    ensures Rescale1(e, a, eps) == Rescale1(e, b, eps)
  {
    assert |multiset(a)| == |a| && |multiset(b)| == |b|;
    ScratchPermutation(e, a, b, eps);
    S.TopPermutation(a, b);
    CountPermutation(e, a, b, S.Top(a));
  }

  // ------------------------------------------------------------------ the memory as a value

  /** What is fixed for the life of a memory. */
  datatype Query = Query(x: seq<real>, eps: S.Temp, sim: Sim, dV: nat)

  datatype Memory = Memory(st: State, live: Live, nOps: nat, nRescales: nat)

  function Zeros(n: nat): (v: seq<real>)
    ensures |v| == n
  {
    seq(n, _ => 0.0)
  }

  function EmptyMemory(q: Query): Memory {
    Memory(State(S.NegInf, Zeros(q.dV), 0.0), map[], 0, 0)
  }

  /** A memory a run can reach: at positive temperature every live score is finite and the accumulator is
      exact. */
  ghost predicate Reachable(e: real -> real, q: Query, mem: Memory) {
    && q.eps.Valid()
    && |mem.st.num| == q.dV
    && mem.st.m != S.PosInf
    && (forall k :: k in mem.live ==> mem.live[k].s != S.PosInf && |mem.live[k].v| == q.dV)
    && (!q.eps.Zero? ==> AllFinite(mem.live) && Exact(e, mem.st, mem.live, q.eps))
  }

  function InsertState(e: real -> real, st: State, s: S.Score, v: seq<real>, eps: S.Temp): (st2: State)
    requires eps.Valid() && |v| == |st.num| && s != S.PosInf && st.m != S.PosInf && (!eps.Zero? ==> s.Fin?)
    ensures |st2.num| == |st.num|
    ensures forall c: nat :: View(st2, c) == Insert1(e, View(st, c), S.Row(s, M.Comp(v, c)), eps)
  {
    var a := Insert1(e, S.Acc(st.m, st.den, 0.0), S.Row(s, 0.0), eps);
    State(a.mu, seq(|v|, c requires 0 <= c < |v| =>
      Insert1(e, S.Acc(st.m, st.den, st.num[c]), S.Row(s, v[c]), eps).u), a.z)
  }

  /** `m` is finite once a record is live at positive temperature. */
  lemma {:induction false} AnchorFinite(e: real -> real, q: Query, mem: Memory, id: string)
    requires Reachable(e, q, mem) && id in mem.live
    ensures !q.eps.Zero? ==> mem.live[id].s.Fin? && mem.st.m.Fin?
  {
    if !q.eps.Zero? {
      var rows := LiveRows(mem.live, 0);
      LiveRowsScores(mem.live, 0);
      TopOfFinite(rows);
      assert View(mem.st, 0) == Scratch(e, rows, q.eps);
    }
  }

  ghost function RestComponent(e: real -> real, st: State, x: Entry, rest: Live, c: nat, eps: S.Temp): S.Acc
    requires eps.Valid() && (!eps.Zero? ==> x.s.Fin? && st.m.Fin?)
  {
    Delete1(e, View(st, c), RowOf(x, c), LiveRows(rest, c), eps)
  }

  /** The state after a delete, component by component. */
  ghost predicate DeleteState(e: real -> real, st: State, x: Entry, rest: Live, eps: S.Temp, st2: State)
    requires eps.Valid() && (!eps.Zero? ==> x.s.Fin? && st.m.Fin?)
  {
    && |st2.num| == |st.num|
    && forall c: nat :: View(st2, c) == RestComponent(e, st, x, rest, c, eps)
  }

  /** One step of each operation, as a relation between the memory before and after. */
  ghost predicate Inserted(e: real -> real, q: Query, mem: Memory, id: string, k: seq<real>, v: seq<real>,
                           r: Result<(), Error>, mem2: Memory)
    requires Reachable(e, q, mem) && Meaningful(q, k)
  {
    if |k| != |q.x| then r == Err(DimensionMismatch(|q.x|, |k|)) && mem2 == mem
    else if |v| != q.dV then r == Err(DimensionMismatch(q.dV, |v|)) && mem2 == mem
    else if id in mem.live then r == Err(DuplicateKey(id)) && mem2 == mem
    else
      var s := ScoreOf(q.sim, q.x, k);
      r == Ok(()) && mem2 == Memory(InsertState(e, mem.st, s, v, q.eps), mem.live[id := Entry(s, v)],
                                    mem.nOps + 1, mem.nRescales)
  }

  /** At positive temperature a minus-infinite score has no defined effect: the engine would evaluate
      `exp(-inf - -inf)`. */
  predicate Meaningful(q: Query, k: seq<real>) {
    !q.eps.Zero? && |k| == |q.x| ==> ScoreOf(q.sim, q.x, k).Fin?
  }

  ghost predicate Deleted(e: real -> real, q: Query, mem: Memory, id: string, r: Result<(), Error>, mem2: Memory)
    requires Reachable(e, q, mem)
  {
    if id !in mem.live then r == Err(KeyNotFound(id)) && mem2 == mem
    else
      AnchorFinite(e, q, mem, id);
      var x, rest := mem.live[id], mem.live - {id};
      && r == Ok(())
      && mem2.live == rest && mem2.nOps == mem.nOps + 1
      && mem2.nRescales == mem.nRescales + (if Rescales(View(mem.st, 0), x.s, q.eps) then 1 else 0)
      && DeleteState(e, mem.st, x, rest, q.eps, mem2.st)
  }

  // ------------------------------------------------------------------ exactness of whole memories

  lemma {:induction false} RowsOfOthers(live: Live, id: string, x: Entry, keys: seq<string>, c: nat)
    requires id !in keys
    ensures Rows(live[id := x], keys, c) == Rows(live, keys, c)
  {
  }

  lemma {:induction false} RowsSnoc(live: Live, keys: seq<string>, id: string, c: nat)
    ensures Rows(live, keys + [id], c) == Rows(live, keys, c) + [RowAt(live, id, c)]
  {
  }

  lemma {:induction false} LiveRowsAdd(live: Live, id: string, x: Entry, c: nat)
    requires id !in live
    ensures multiset(LiveRows(live[id := x], c)) == multiset(LiveRows(live, c) + [RowOf(x, c)])
  {
    var live2, keys := live[id := x], Bags.Enum(live.Keys);
    EnumOfAdded(live, id, x);
    RowsPermutation(live2, Bags.Enum(live2.Keys), keys + [id], c);
    RowsSnoc(live2, keys, id, c);
    RowsOfOthers(live, id, x, keys, c);
  }

  lemma {:induction false} EnumOfAdded(live: Live, id: string, x: Entry)
    requires id !in live
    ensures id !in Bags.Enum(live.Keys)
    ensures multiset(Bags.Enum(live[id := x].Keys)) == multiset(Bags.Enum(live.Keys) + [id])
  {
    assert live[id := x].Keys == live.Keys + {id};
    Bags.EnumAdd(live.Keys, id);
    Bags.EnumHas(live.Keys);
  }

  lemma {:induction false} LiveRowsAt(live: Live, k: string, c: nat) returns (j: nat)
    requires k in live
    ensures j < |LiveRows(live, c)| && LiveRows(live, c)[j] == RowOf(live[k], c)
  {
    Bags.EnumHas(live.Keys);
    var keys := Bags.Enum(live.Keys);
    assert k in keys;
    j :| 0 <= j < |keys| && keys[j] == k;
  }

  lemma {:induction false} LiveRowsKey(live: Live, j: nat, c: nat) returns (k: string)
    requires j < |LiveRows(live, c)|
    ensures k in live && LiveRows(live, c)[j] == RowOf(live[k], c)
  {
    Bags.EnumHas(live.Keys);
    k := Bags.Enum(live.Keys)[j];
    assert k in Bags.Enum(live.Keys);
  }

  lemma {:induction false} LiveRowsScores(live: Live, c: nat)
    ensures (forall k :: k in live ==> live[k].s != S.PosInf) ==> NoPosInf(LiveRows(live, c))
    ensures AllFinite(live) ==> S.AllFinite(LiveRows(live, c))
    ensures AnyFinite(LiveRows(live, c)) <==> exists k :: k in live && live[k].s.Fin?
    ensures LiveRows(live, c) == [] <==> live == map[]
  {
    var rows := LiveRows(live, c);
    forall j | 0 <= j < |rows| ensures exists k :: k in live && rows[j] == RowOf(live[k], c) {
      var k := LiveRowsKey(live, j, c);
    }
    if k :| k in live && live[k].s.Fin? {
      var j := LiveRowsAt(live, k, c);
      assert rows[j].score.Fin?;
    }
    if k :| k in live {
      var j := LiveRowsAt(live, k, c);
    }
  }

  lemma {:induction false} InsertKeepsExact(e: real -> real, q: Query, mem: Memory, id: string, k: seq<real>,
                                            v: seq<real>, mem2: Memory)
    requires IsExp(e) && Reachable(e, q, mem) && Meaningful(q, k)
    requires Inserted(e, q, mem, id, k, v, Ok(()), mem2)
    requires Exact(e, mem.st, mem.live, q.eps)
    ensures Exact(e, mem2.st, mem2.live, q.eps)
  {
    var x := mem2.live[id];
    forall c: nat ensures View(mem2.st, c) == Scratch(e, LiveRows(mem2.live, c), q.eps) {
      var rows := LiveRows(mem.live, c);
      assert View(mem.st, c) == Scratch(e, rows, q.eps);
      LiveRowsScores(mem.live, c);
      InsertExact(e, rows, RowOf(x, c), q.eps);
      LiveRowsAdd(mem.live, id, x, c);
      ScratchPermutation(e, rows + [RowOf(x, c)], LiveRows(mem2.live, c), q.eps);
    }
  }

  /** Taking a live record out, seen on the rows: they are the rows of the survivors and its own. */
  lemma {:induction false} LiveRowsTake(live: Live, id: string, c: nat)
    requires id in live
    ensures multiset(LiveRows(live, c)) == multiset(LiveRows(live - {id}, c) + [RowOf(live[id], c)])
  {
    var rest := live - {id};
    assert rest[id := live[id]] == live;
    LiveRowsAdd(rest, id, live[id], c);
  }

  /** Deletes at positive temperature, and deletes at temperature zero that leave a finite score or nothing
      behind a finite one, restore the state in which the record was never inserted; no other delete
      does. */
  lemma {:induction false} DeleteExactIff(e: real -> real, q: Query, mem: Memory, id: string, mem2: Memory)
    requires IsExp(e) && Reachable(e, q, mem) && id in mem.live
    requires Exact(e, mem.st, mem.live, q.eps) && Deleted(e, q, mem, id, Ok(()), mem2)
    ensures Exact(e, mem2.st, mem2.live, q.eps) <==> DeleteSafe(q, mem.live, id)
  {
    forall c: nat
      ensures View(mem2.st, c) == Scratch(e, LiveRows(mem2.live, c), q.eps) <==> DeleteSafe(q, mem.live, id)
    {
      DeleteExactAt(e, q, mem, id, mem2, c);
    }
    if Exact(e, mem2.st, mem2.live, q.eps) {
      assert View(mem2.st, 0) == Scratch(e, LiveRows(mem2.live, 0), q.eps);
    }
  }

  predicate DeleteSafe(q: Query, live: Live, id: string)
    requires id in live
  {
    || !q.eps.Zero?
    || (exists k :: k in live && k != id && live[k].s.Fin?)
    || (live.Keys == {id} && live[id].s.Fin?)
  }

  /** The deleted state of one component, as a delete of the last of the rows. */
  lemma {:induction false} DeletedComponent(e: real -> real, q: Query, mem: Memory, id: string, mem2: Memory, c: nat)
    requires IsExp(e) && Reachable(e, q, mem) && id in mem.live
    requires Exact(e, mem.st, mem.live, q.eps) && Deleted(e, q, mem, id, Ok(()), mem2)
    ensures
      var r, rest := RowOf(mem.live[id], c), LiveRows(mem2.live, c);
      && View(mem.st, c) == Scratch(e, rest + [r], q.eps)
      && (!q.eps.Zero? ==> r.score.Fin? && mem.st.m.Fin?)
      && View(mem2.st, c) == Delete1(e, View(mem.st, c), r, rest, q.eps)
  {
    AnchorFinite(e, q, mem, id);
    assert View(mem2.st, c) == RestComponent(e, mem.st, mem.live[id], mem.live - {id}, c, q.eps);
    LiveRowsTake(mem.live, id, c);
    assert View(mem.st, c) == Scratch(e, LiveRows(mem.live, c), q.eps);
    ScratchPermutation(e, LiveRows(mem.live, c), LiveRows(mem2.live, c) + [RowOf(mem.live[id], c)], q.eps);
  }

  lemma {:induction false} DeleteExactAt(e: real -> real, q: Query, mem: Memory, id: string, mem2: Memory, c: nat)
    requires IsExp(e) && Reachable(e, q, mem) && id in mem.live
    requires Exact(e, mem.st, mem.live, q.eps) && Deleted(e, q, mem, id, Ok(()), mem2)
    ensures View(mem2.st, c) == Scratch(e, LiveRows(mem2.live, c), q.eps) <==> DeleteSafe(q, mem.live, id)
  {
    var r, rest := RowOf(mem.live[id], c), LiveRows(mem2.live, c);
    DeletedComponent(e, q, mem, id, mem2, c);
    LiveRowsScores(mem2.live, c);
    if q.eps.Zero? {
      LastTropicalExactIff(e, rest, r);
      SafeIsSurvivor(q, mem.live, id);
    } else {
      LastContinuousExact(e, rest, r, q.eps);
    }
  }

  lemma {:induction false} LastTropicalExactIff(e: real -> real, rest: seq<S.Row>, r: S.Row)
    requires IsExp(e) && NoPosInf(rest) && r.score != S.PosInf
    ensures Delete1(e, Scratch(e, rest + [r], S.Zero), r, rest, S.Zero) == Scratch(e, rest, S.Zero)
            <==> AnyFinite(rest) || (rest == [] && r.score.Fin?)
  {
    assert Without(rest + [r], |rest|) == rest;
    DeleteTropicalExactIff(e, rest + [r], |rest|);
  }

  lemma {:induction false} LastContinuousExact(e: real -> real, rest: seq<S.Row>, r: S.Row, eps: S.Temp)
    requires IsExp(e) && eps.Valid() && !eps.Zero? && S.AllFinite(rest) && r.score.Fin?
    ensures S.Top(rest + [r]).Fin?
    ensures Delete1(e, Scratch(e, rest + [r], eps), r, rest, eps) == Scratch(e, rest, eps)
  {
    assert Without(rest + [r], |rest|) == rest;
    DeleteExactContinuous(e, rest + [r], |rest|, eps);
  }

  lemma {:induction false} SafeIsSurvivor(q: Query, live: Live, id: string)
    requires q.eps.Zero? && id in live
    ensures DeleteSafe(q, live, id) <==>
        (exists k :: k in live - {id} && (live - {id})[k].s.Fin?) || (live - {id} == map[] && live[id].s.Fin?)
  {
    if live.Keys == {id} {
      assert live - {id} == map[];
    }
    if live - {id} == map[] {
      assert (live - {id}).Keys == live.Keys - {id};
      assert live.Keys == (live.Keys - {id}) + {id};
    }
    if k :| k in live && k != id && live[k].s.Fin? {
      assert k in live - {id} && (live - {id})[k].s.Fin?;
    }
  }
}
