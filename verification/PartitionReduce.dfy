/** Partition-reduce: every part of a memory is folded into a local maximum and two sums shifted by it, and the
    local triples are combined at the common maximum (engine/bruce-core/src/distributed.rs).

    A triple carries the width of its value vector, and the triple of a part without rows has width zero. Adding
    a vector of one width to a vector of another is a panic, unless the added one has width one, which is spread
    over all components. This decides when combining is exact. */
module PartitionReduce {
  import opened Wrappers
  import opened Exponential
  import opened SoftAccumulator
  import A = MaskedAttention
  import E = Evaluators

  type VRow = A.VRow

  // ------------------------------------------------------------------ vectors

  /** A vector of width `w` can be added to one of width `d`. */
  predicate Joins(w: nat, d: nat) {
    w == d || w == 1
  }

  /** Component `c` of an added vector; width one is spread. */
  function At(v: seq<real>, c: nat): real {
    if |v| == 1 then v[0] else A.Comp(v, c)
  }

  function Zeros(d: nat): (v: seq<real>)
    ensures |v| == d && forall c :: 0 <= c < d ==> v[c] == 0.0
  {
    seq(d, c => 0.0)
  }

  /** `num + f * v` for a vector that joins. */
  function AddScaled(num: seq<real>, f: real, v: seq<real>): (r: seq<real>)
    ensures |r| == |num| && forall c :: 0 <= c < |num| ==> r[c] == num[c] + f * At(v, c)
  {
    seq(|num|, c requires 0 <= c < |num| => num[c] + f * At(v, c))
  }

  // ------------------------------------------------------------------ one part

  /** The scalar rows behind component `c`. */
  function Column(rows: seq<VRow>, c: nat): (r: seq<Row>)
    ensures |r| == |rows|
    ensures forall i :: 0 <= i < |rows| ==> r[i] == Row(rows[i].score, At(rows[i].v, c))
  {
    seq(|rows|, i requires 0 <= i < |rows| => Row(rows[i].score, At(rows[i].v, c)))
  }

  function TopOf(rows: seq<VRow>): Score {
    Top(Column(rows, 0))
  }

  function MassOf(e: real -> real, rows: seq<VRow>, c: nat, mu: Score, eps: Temp): Mass
    requires eps.Valid()
  {
    Total(e, Column(rows, c), mu, eps)
  }

  /** A value of width one counts in every component, any other in its own. */
  lemma {:induction false} ColumnSpreads(rows: seq<VRow>, c: nat, i: nat)
    requires i < |rows|
    ensures |rows[i].v| == 1 ==> Column(rows, c)[i] == Row(rows[i].score, rows[i].v[0])
    ensures c < |rows[i].v| ==> Column(rows, c)[i] == Row(rows[i].score, rows[i].v[c])
  {
  }

  predicate Finite(rows: seq<VRow>) {
    forall i :: 0 <= i < |rows| ==> rows[i].score.Fin?
  }

  predicate Wide(rows: seq<VRow>, d: nat) {
    forall i :: 0 <= i < |rows| ==> |rows[i].v| == d
  }

  /** A local maximum with the sums shifted by it. */
  datatype Partial = Partial(m: Score, num: seq<real>, den: real)

  const NOTHING := Partial(NegInf, [], 0.0)

  /** The partial of some rows with finite scores; the first row sets the width. */
  function PartialOf(e: real -> real, rows: seq<VRow>, eps: Temp): Partial
    requires eps.Valid()
  {
    if rows == [] || rows[0].v == [] then NOTHING
    else
      var mu := TopOf(rows);
      Partial(mu, seq(|rows[0].v|, c requires 0 <= c => MassOf(e, rows, c, mu, eps).u), MassOf(e, rows, 0, mu, eps).z)
  }

  /** Every row that is added has the width of the first, or width one. */
  predicate Addable(rows: seq<VRow>, eps: Temp) {
    rows == [] || rows[0].v == [] ||
    forall i :: 0 <= i < |rows| && (eps.Zero? ==> rows[i].score == TopOf(rows)) ==> Joins(|rows[i].v|, |rows[0].v|)
  }

  /** The two sums of the first `i` rows, in component `c`. */
  ghost function Upto(e: real -> real, rows: seq<VRow>, c: nat, mu: Score, eps: Temp, i: nat): Mass
    requires eps.Valid() && i <= |rows|
  {
    PrefixMass(Masses(e, Column(rows, c), mu, eps), i)
  }

  lemma {:induction false} UptoNext(e: real -> real, rows: seq<VRow>, c: nat, mu: Score, eps: Temp, i: nat, w: real)
    requires eps.Valid() && i < |rows| && w == Weight(e, rows[i].score, mu, eps)
    ensures
      var was := Upto(e, rows, c, mu, eps, i);
      Upto(e, rows, c, mu, eps, i + 1) == Mass(was.z + w, was.u + w * At(rows[i].v, c))
  {
    hide Weight, Masses, PrefixMass, Column, At;
    E.NextMass(e, Column(rows, c), mu, eps, i, w);
  }

  lemma {:induction false} UptoEnds(e: real -> real, rows: seq<VRow>, c: nat, mu: Score, eps: Temp)
    requires eps.Valid()
    ensures Upto(e, rows, c, mu, eps, 0) == Mass(0.0, 0.0)
    ensures Upto(e, rows, c, mu, eps, |rows|) == MassOf(e, rows, c, mu, eps)
  {
    E.NoMass(e, Column(rows, c), mu, eps);
  }

  lemma {:induction false} TopIsFinite(rows: seq<VRow>)
    requires rows != [] && Finite(rows)
    ensures TopOf(rows).Fin?
  {
    TopBounds(Column(rows, 0));
    assert AtMost(Column(rows, 0)[0].score, TopOf(rows));
  }

  /** A row that is added, at temperature zero one of the largest score, does not fit the first row. */
  ghost predicate Misfit(rows: seq<VRow>, eps: Temp, i: nat)
    requires Finite(rows) && i < |rows|
  {
    && |rows[i].v| != |rows[0].v| && |rows[i].v| != 1
    && (eps.Zero? ==> forall j :: 0 <= j < |rows| ==> rows[j].score.s <= rows[i].score.s)
  }

  lemma {:induction false} LargestIs(rows: seq<VRow>, i: nat)
    requires Finite(rows) && i < |rows|
    ensures rows[i].score == TopOf(rows) <==> forall j :: 0 <= j < |rows| ==> rows[j].score.s <= rows[i].score.s
  {
    var col := Column(rows, 0);
    TopBounds(col);
    TopIsFinite(rows);
    var k :| 0 <= k < |col| && col[k].score == TopOf(rows);
    assert rows[k].score == TopOf(rows);
    forall j | 0 <= j < |rows| ensures rows[j].score.s <= TopOf(rows).s {
      assert AtMost(col[j].score, TopOf(rows));
    }
  }

  /** When building a partial panics. */
  lemma {:induction false} MisfitPanics(rows: seq<VRow>, eps: Temp)
    requires Finite(rows)
    ensures Addable(rows, eps) <==> !(rows != [] && rows[0].v != [] && exists i :: 0 <= i < |rows| && Misfit(rows, eps, i))
  {
    forall i | 0 <= i < |rows|
      ensures Misfit(rows, eps, i) <==>
              (eps.Zero? ==> rows[i].score == TopOf(rows)) && !Joins(|rows[i].v|, |rows[0].v|)
    {
      LargestIs(rows, i);
    }
  }

  /** Building a partial: none is a panic on a value of another width. */
  method FromPairs(e: real -> real, rows: seq<VRow>, eps: Temp) returns (p: Option<Partial>)
    requires eps.Valid() && IsExp(e) && Finite(rows)
    ensures p == if Addable(rows, eps) then Some(PartialOf(e, rows, eps)) else None
  {
    hide IsExp, Upto, MassOf, Weight, E.RawWeight, At;
    var d := if rows == [] then 0 else |rows[0].v|;
    if rows == [] || d == 0 {
      return Some(NOTHING);
    }
    TopIsFinite(rows);
    var m := LargestScore(rows);
    var num, den := Zeros(d), 0.0;
    forall c: nat ensures Upto(e, rows, c, m, eps, 0) == Mass(0.0, 0.0) {
      UptoEnds(e, rows, c, m, eps);
    }
    for i := 0 to |rows|
      invariant |num| == d && den == Upto(e, rows, 0, m, eps, i).z
      invariant forall c :: 0 <= c < d ==> num[c] == Upto(e, rows, c, m, eps, i).u
      invariant forall k :: 0 <= k < i && (eps.Zero? ==> rows[k].score == m) ==> Joins(|rows[k].v|, d)
    {
      var w := E.RawWeight(e, rows[i].score.s, m.s, eps);
      E.RawIsWeight(e, rows[i].score.s, m.s, m, eps);
      forall c: nat
        ensures Upto(e, rows, c, m, eps, i + 1).z == Upto(e, rows, c, m, eps, i).z + w
        ensures Upto(e, rows, c, m, eps, i + 1).u == Upto(e, rows, c, m, eps, i).u + w * At(rows[i].v, c)
      {
        UptoNext(e, rows, c, m, eps, i, w);
      }
      if !eps.Zero? || rows[i].score == m {
        if !Joins(|rows[i].v|, d) {
          return None;
        }
        num := AddScaled(num, w, rows[i].v);
        den := den + w;
      } else {
        assert w == 0.0 by {
          WeightAtZero(e, rows[i].score, m);
        }
      }
    }
    forall c: nat ensures Upto(e, rows, c, m, eps, |rows|) == MassOf(e, rows, c, m, eps) {
      UptoEnds(e, rows, c, m, eps);
    }
    p := Some(Partial(m, num, den));
    assert num == PartialOf(e, rows, eps).num;
  }

  lemma {:induction false} WeightAtZero(e: real -> real, s: Score, m: Score)
    requires s != m
    ensures Weight(e, s, m, Zero) == 0.0
  {
  }

  method LargestScore(rows: seq<VRow>) returns (m: Score)
    ensures m == TopOf(rows)
  {
    m := NegInf;
    ghost var col := Column(rows, 0);
    assert col[..0] == [];
    for i := 0 to |rows|
      invariant m == Top(col[..i])
    {
      assert col[..i + 1][..i] == col[..i];
      m := Larger(m, rows[i].score);
    }
    assert col[..|rows|] == col;
  }

  // ------------------------------------------------------------------ combining

  /** The factor of one partial against the common maximum. The empty partial has no factor at infinite
      temperature: minus infinity over infinity. */
  function PartFactor(e: real -> real, m: Score, top: real, eps: Temp): Option<real>
    requires eps.Valid() && AtMost(m, Fin(top))
  {
    match eps
    case Zero => Some(if m == Fin(top) then 1.0 else 0.0)
    case Infinite => if m.Fin? then Some(e(0.0)) else None
    case Warm(t) => Some(if m.Fin? then e((m.s - top) / t) else 0.0)
  }

  /** The sums so far; or sums that are not numbers, of some width; or a panic. */
  datatype Running = Sums(num: seq<real>, den: real) | Spoiled(width: nat) | Clash

  datatype Outcome = Combined(p: Partial) | NotNumbers | Panics

  /** At temperature zero only parts at the common maximum are added. */
  predicate Skipped(p: Partial, top: real, eps: Temp) {
    eps.Zero? && p.m != Fin(top)
  }

  function AddPart(e: real -> real, s: Running, p: Partial, top: real, eps: Temp): Running
    requires eps.Valid() && AtMost(p.m, Fin(top))
  {
    if Skipped(p, top, eps) then s
    else match s
      case Clash => Clash
      case Spoiled(w) => if Joins(|p.num|, w) then s else Clash
      case Sums(num, den) =>
        if !Joins(|p.num|, |num|) then Clash
        else
          var f := PartFactor(e, p.m, top, eps);
          if f.None? then Spoiled(|num|) else Sums(AddScaled(num, f.value, p.num), den + p.den * f.value)
  }

  predicate AllAtMost(ps: seq<Partial>, top: real) {
    forall k :: 0 <= k < |ps| ==> AtMost(ps[k].m, Fin(top))
  }

  /** The first `n` parts, added to zeros of width `w`. */
  function AddParts(e: real -> real, w: nat, ps: seq<Partial>, n: nat, top: real, eps: Temp): Running
    requires eps.Valid() && n <= |ps| && AllAtMost(ps, top)
  {
    if n == 0 then Sums(Zeros(w), 0.0)
    else AddPart(e, AddParts(e, w, ps, n - 1, top, eps), ps[n - 1], top, eps)
  }

  function Largest(ps: seq<Partial>, n: nat): (m: Score)
    requires n <= |ps|
    ensures forall k :: 0 <= k < n ==> AtMost(ps[k].m, m)
  {
    if n == 0 then NegInf else Larger(Largest(ps, n - 1), ps[n - 1].m)
  }

  /** What combining any partials gives. */
  function Reduced(e: real -> real, ps: seq<Partial>, eps: Temp): Outcome
    requires eps.Valid()
  {
    if ps == [] then Combined(NOTHING)
    else
      var m, w := Largest(ps, |ps|), |ps[0].num|;
      if !m.Fin? then Combined(Partial(NegInf, Zeros(w), 0.0))
      else match AddParts(e, w, ps, |ps|, m.s, eps)
        case Sums(num, den) => Combined(Partial(m, num, den))
        case Spoiled(_) => NotNumbers
        case Clash => Panics
  }

  /** The reduce step, on any partials. */
  method Combine(e: real -> real, ps: seq<Partial>, eps: Temp) returns (r: Outcome)
    requires eps.Valid()
    ensures r == Reduced(e, ps, eps)
  {
    hide PartFactor;
    if ps == [] {
      return Combined(NOTHING);
    }
    var w := |ps[0].num|;
    var m := NegInf;
    for i := 0 to |ps|
      invariant m == Largest(ps, i)
    {
      m := Larger(m, ps[i].m);
    }
    if !m.Fin? {
      return Combined(Partial(NegInf, Zeros(w), 0.0));
    }
    var num, den, numbers := Zeros(w), 0.0, true;
    for i := 0 to |ps|
      invariant |num| == w
      invariant AddParts(e, w, ps, i, m.s, eps) == if numbers then Sums(num, den) else Spoiled(w)
    {
      if !eps.Zero? || ps[i].m == m {
        if !Joins(|ps[i].num|, w) {
          ClashStays(e, w, ps, i + 1, |ps|, m.s, eps);
          return Panics;
        }
        var f := PartFactor(e, ps[i].m, m.s, eps);
        if f.None? || !numbers {
          numbers := false;
        } else {
          num := AddScaled(num, f.value, ps[i].num);
          den := den + ps[i].den * f.value;
        }
      }
    }
    r := if numbers then Combined(Partial(m, num, den)) else NotNumbers;
  }

  lemma {:induction false} ClashStays(e: real -> real, w: nat, ps: seq<Partial>, k: nat, n: nat, top: real, eps: Temp)
    requires eps.Valid() && k <= n <= |ps| && AllAtMost(ps, top)
    requires AddParts(e, w, ps, k, top, eps) == Clash
    ensures AddParts(e, w, ps, n, top, eps) == Clash
  {
    if k < n {
      ClashStays(e, w, ps, k, n - 1, top, eps);
    }
  }

  // ------------------------------------------------------------------ which way the sums go

  /** The width stays unless two widths clash. */
  lemma {:induction false} WidthKept(e: real -> real, w: nat, ps: seq<Partial>, n: nat, top: real, eps: Temp)
    requires eps.Valid() && n <= |ps| && AllAtMost(ps, top)
    ensures
      var s := AddParts(e, w, ps, n, top, eps);
      (s.Sums? ==> |s.num| == w) && (s.Spoiled? ==> s.width == w)
  {
    if n > 0 {
      WidthKept(e, w, ps, n - 1, top, eps);
    }
  }

  predicate AllJoin(ps: seq<Partial>, w: nat, top: real, eps: Temp) {
    forall k :: 0 <= k < |ps| && !Skipped(ps[k], top, eps) ==> Joins(|ps[k].num|, w)
  }

  predicate AllHaveFactors(ps: seq<Partial>, eps: Temp) {
    eps.Infinite? ==> forall k :: 0 <= k < |ps| ==> ps[k].m.Fin?
  }

  /** Widths that join and factors that exist keep the sums. */
  lemma {:induction false} StaysSums(e: real -> real, w: nat, ps: seq<Partial>, n: nat, top: real, eps: Temp)
    requires eps.Valid() && n <= |ps| && AllAtMost(ps, top) && AllJoin(ps, w, top, eps) && AllHaveFactors(ps, eps)
    ensures AddParts(e, w, ps, n, top, eps).Sums?
  {
    WidthKept(e, w, ps, n, top, eps);
    if n > 0 {
      StaysSums(e, w, ps, n - 1, top, eps);
      WidthKept(e, w, ps, n - 1, top, eps);
    }
  }

  /** One part of another width makes the addition panic. */
  lemma {:induction false} Clashes(e: real -> real, w: nat, ps: seq<Partial>, k: nat, top: real, eps: Temp)
    requires eps.Valid() && k < |ps| && AllAtMost(ps, top)
    requires !Skipped(ps[k], top, eps) && !Joins(|ps[k].num|, w)
    ensures AddParts(e, w, ps, |ps|, top, eps) == Clash
  {
    WidthKept(e, w, ps, k, top, eps);
    ClashStays(e, w, ps, k + 1, |ps|, top, eps);
  }

  /** At infinite temperature one part without a factor spoils the sums. */
  lemma {:induction false} Spoils(e: real -> real, w: nat, ps: seq<Partial>, k: nat, n: nat, top: real, eps: Temp)
    requires eps.Infinite? && k < n <= |ps| && AllAtMost(ps, top) && AllJoin(ps, w, top, eps) && !ps[k].m.Fin?
    ensures AddParts(e, w, ps, n, top, eps) == Spoiled(w)
  {
    WidthKept(e, w, ps, n - 1, top, eps);
    if k < n - 1 {
      Spoils(e, w, ps, k, n - 1, top, eps);
    } else {
      NoClash(e, w, ps, k, top, eps);
    }
  }

  lemma {:induction false} NoClash(e: real -> real, w: nat, ps: seq<Partial>, n: nat, top: real, eps: Temp)
    requires eps.Valid() && n <= |ps| && AllAtMost(ps, top) && AllJoin(ps, w, top, eps)
    ensures AddParts(e, w, ps, n, top, eps) != Clash
  {
    if n > 0 {
      NoClash(e, w, ps, n - 1, top, eps);
      WidthKept(e, w, ps, n - 1, top, eps);
    }
  }

  // ------------------------------------------------------------------ the parts of one memory

  function Concat(parts: seq<seq<VRow>>): seq<VRow> {
    if parts == [] then [] else Concat(parts[..|parts| - 1]) + parts[|parts| - 1]
  }

  /** Parts of one memory: finite scores, and values of one width. */
  ghost predicate Parts(parts: seq<seq<VRow>>, d: nat) {
    forall i :: 0 <= i < |parts| ==> Finite(parts[i]) && Wide(parts[i], d)
  }

  /** Some parts have rows and some have none. */
  ghost predicate Mixed(parts: seq<seq<VRow>>) {
    (exists i :: 0 <= i < |parts| && parts[i] == []) && (exists i :: 0 <= i < |parts| && parts[i] != [])
  }

  ghost predicate PartialsOf(e: real -> real, ps: seq<Partial>, parts: seq<seq<VRow>>, eps: Temp)
    requires eps.Valid()
  {
    |ps| == |parts| && forall i :: 0 <= i < |ps| ==> ps[i] == PartialOf(e, parts[i], eps)
  }

  /** When combining the partials of some parts is exact. */
  ghost predicate Combines(parts: seq<seq<VRow>>, d: nat, eps: Temp) {
    d == 0 || !Mixed(parts) || (eps.Zero? && parts[0] != [])
  }

  /** What combining gives for every split of a memory: the partial of all rows; or else a panic; or, when the first
      part is empty and values have width one, no values at all. */
  ghost function Expected(e: real -> real, parts: seq<seq<VRow>>, d: nat, eps: Temp): Outcome
    requires eps.Valid()
  {
    var all := PartialOf(e, Concat(parts), eps);
    if Combines(parts, d, eps) then Combined(all)
    else if parts[0] != [] || d != 1 then Panics
    else if eps.Infinite? then NotNumbers
    else Combined(all.(num := []))
  }

  lemma {:induction false} ConcatKeeps(parts: seq<seq<VRow>>, d: nat)
    requires Parts(parts, d)
    ensures Finite(Concat(parts)) && Wide(Concat(parts), d)
    ensures Concat(parts) == [] <==> forall i :: 0 <= i < |parts| ==> parts[i] == []
    decreases |parts|
  {
    if parts != [] {
      var most := parts[..|parts| - 1];
      assert forall i :: 0 <= i < |most| ==> most[i] == parts[i];
      ConcatKeeps(most, d);
    }
  }

  /** Scores do not depend on the component. */
  lemma {:induction false} SameTop(rows: seq<VRow>, c: nat)
    ensures Top(Column(rows, c)) == TopOf(rows)
  {
    var a, b := Column(rows, 0), Column(rows, c);
    TopBounds(a);
    forall i | 0 <= i < |b| ensures AtMost(b[i].score, Top(a)) {
      assert b[i].score == a[i].score;
    }
    if Top(a) != NegInf {
      var i :| 0 <= i < |a| && a[i].score == Top(a);
      assert b[i].score == Top(a);
    }
    TopUnique(b, Top(a));
  }

  /** Nor do weights. */
  lemma {:induction false} SameWeights(e: real -> real, rows: seq<VRow>, c: nat, mu: Score, eps: Temp, i: nat)
    requires eps.Valid() && i <= |rows|
    ensures Upto(e, rows, c, mu, eps, i).z == Upto(e, rows, 0, mu, eps, i).z
  {
    if i > 0 {
      SameWeights(e, rows, c, mu, eps, i - 1);
      var w := Weight(e, rows[i - 1].score, mu, eps);
      UptoNext(e, rows, c, mu, eps, i - 1, w);
      UptoNext(e, rows, 0, mu, eps, i - 1, w);
    }
  }

  lemma {:induction false} TopOfMore(a: seq<VRow>, b: seq<VRow>)
    ensures TopOf(a + b) == Larger(TopOf(a), TopOf(b))
  {
    assert Column(a + b, 0) == Column(a, 0) + Column(b, 0);
    TopAppend(Column(a, 0), Column(b, 0));
  }

  lemma {:induction false} MassOfMore(e: real -> real, a: seq<VRow>, b: seq<VRow>, c: nat, mu: Score, eps: Temp)
    requires eps.Valid()
    ensures MassOf(e, a + b, c, mu, eps) == Plus(MassOf(e, a, c, mu, eps), MassOf(e, b, c, mu, eps))
  {
    assert Column(a + b, c) == Column(a, c) + Column(b, c);
    TotalAppend(e, Column(a, c), Column(b, c), mu, eps);
  }

  /** The local maximum of a part that has values. */
  lemma {:induction false} PartTop(e: real -> real, rows: seq<VRow>, d: nat, eps: Temp)
    requires eps.Valid() && Finite(rows) && Wide(rows, d)
    ensures rows != [] && d > 0 ==> PartialOf(e, rows, eps).m.Fin? && |PartialOf(e, rows, eps).num| == d
    ensures rows == [] || d == 0 ==> PartialOf(e, rows, eps) == NOTHING
    ensures d > 0 ==> PartialOf(e, rows, eps).m == TopOf(rows)
  {
    if rows != [] {
      TopIsFinite(rows);
    }
  }

  /** The largest local maximum is the maximum of all rows. */
  lemma {:induction false} LargestIsTop(e: real -> real, parts: seq<seq<VRow>>, ps: seq<Partial>, d: nat, eps: Temp,
                                        n: nat)
    requires eps.Valid() && Parts(parts, d) && PartialsOf(e, ps, parts, eps) && n <= |parts| && d > 0
    ensures Largest(ps, n) == TopOf(Concat(parts[..n]))
  {
    hide PartialOf, Larger, TopOf, Finite, Wide;
    if n > 0 {
      LargestIsTop(e, parts, ps, d, eps, n - 1);
      PartTop(e, parts[n - 1], d, eps);
      assert parts[..n][..n - 1] == parts[..n - 1];
      TopOfMore(Concat(parts[..n - 1]), parts[n - 1]);
    } else {
      NoTop();
    }
  }

  lemma {:induction false} NoTop()
    ensures TopOf([]) == NegInf
  {
  }

  /** What a part adds to the sums, given its partial: in component `c`, and in weight. */
  ghost predicate Adds(e: real -> real, p: Partial, c: nat, u: real, z: real, top: real, eps: Temp)
    requires eps.Valid() && AtMost(p.m, Fin(top))
  {
    var f := PartFactor(e, p.m, top, eps);
    f.Some? ==>
      && u == f.value * At(p.num, c)
      && z == p.den * f.value
      && (Skipped(p, top, eps) ==> u == 0.0 && z == 0.0)
  }

  /** One part, rescaled to the common maximum, has the sums of its rows there. */
  lemma {:induction false} PartRebased(e: real -> real, rows: seq<VRow>, c: nat, d: nat, top: real, eps: Temp)
    requires eps.Valid() && IsExp(e) && Finite(rows) && Wide(rows, d) && c < d && AtMost(TopOf(rows), Fin(top))
    ensures
      var p := PartialOf(e, rows, eps);
      && AtMost(p.m, Fin(top))
      && (PartFactor(e, p.m, top, eps).None? ==> eps.Infinite? && rows == [])
      && Adds(e, p, c, MassOf(e, rows, c, Fin(top), eps).u, MassOf(e, rows, 0, Fin(top), eps).z, top, eps)
  {
    hide IsExp, MassOf, TopOf;
    PartTop(e, rows, d, eps);
    if rows == [] {
      NoRows(e, c, Fin(top), eps);
      NoRows(e, 0, Fin(top), eps);
    } else {
      hide PartFactor;
      ColumnRebased(e, rows, c, top, eps);
      ColumnRebased(e, rows, 0, top, eps);
      if Skipped(PartialOf(e, rows, eps), top, eps) {
        SkippedFactor(e, PartialOf(e, rows, eps), top, eps);
      }
    }
  }

  lemma {:induction false} SkippedFactor(e: real -> real, p: Partial, top: real, eps: Temp)
    requires eps.Valid() && AtMost(p.m, Fin(top)) && Skipped(p, top, eps)
    ensures PartFactor(e, p.m, top, eps) == Some(0.0)
  {
  }

  lemma {:induction false} ColumnRebased(e: real -> real, rows: seq<VRow>, c: nat, top: real, eps: Temp)
    requires eps.Valid() && IsExp(e) && Finite(rows) && rows != [] && AtMost(TopOf(rows), Fin(top))
    ensures TopOf(rows).Fin?
    ensures
      var f := PartFactor(e, TopOf(rows), top, eps);
      f.Some? && MassOf(e, rows, c, Fin(top), eps) == Scaled(MassOf(e, rows, c, TopOf(rows), eps), f.value)
  {
    SameTop(rows, c);
    TopIsFinite(rows);
    TotalRebase(e, Column(rows, c), TopOf(rows), Fin(top), eps);
    WeightIsFactor(e, TopOf(rows), Fin(top), eps);
  }

  lemma {:induction false} AddedSums(e: real -> real, s: Running, p: Partial, c: nat, u: real, z: real, top: real,
                                     eps: Temp)
    requires eps.Valid() && AtMost(p.m, Fin(top)) && Adds(e, p, c, u, z, top, eps)
    ensures
      var r := AddPart(e, s, p, top, eps);
      r.Sums? ==>
        && s.Sums? && |r.num| == |s.num| && r.den == s.den + z
        && (c < |s.num| ==> r.num[c] == s.num[c] + u)
  {
    hide At;
    if Skipped(p, top, eps) {
      SkippedFactor(e, p, top, eps);
    } else {
      hide PartFactor;
    }
  }

  /** While the sums are numbers, they are those of the rows added, in every component they have. */
  lemma {:induction false} SumsOfRows(e: real -> real, parts: seq<seq<VRow>>, ps: seq<Partial>, d: nat, w: nat,
                                      n: nat, top: real, eps: Temp, c: nat)
    requires eps.Valid() && IsExp(e) && Parts(parts, d) && PartialsOf(e, ps, parts, eps)
    requires n <= |parts| && AllAtMost(ps, top) && c < d
    ensures
      var s := AddParts(e, w, ps, n, top, eps);
      var all := Concat(parts[..n]);
      s.Sums? ==>
        && |s.num| == w
        && s.den == MassOf(e, all, 0, Fin(top), eps).z
        && (c < w ==> s.num[c] == MassOf(e, all, c, Fin(top), eps).u)
  {
    hide IsExp, PartFactor, MassOf, PartialOf, At, TopOf, AddPart, Adds;
    if n == 0 {
      assert parts[..0] == [];
      NoRows(e, c, Fin(top), eps);
      NoRows(e, 0, Fin(top), eps);
    } else if AddParts(e, w, ps, n, top, eps).Sums? {
      SumsOfRows(e, parts, ps, d, w, n - 1, top, eps, c);
      var before, part := Concat(parts[..n - 1]), parts[n - 1];
      assert parts[..n][..n - 1] == parts[..n - 1];
      MassOfMore(e, before, part, c, Fin(top), eps);
      MassOfMore(e, before, part, 0, Fin(top), eps);
      PartTop(e, part, d, eps);
      PartRebased(e, part, c, d, top, eps);
      AddedSums(e, AddParts(e, w, ps, n - 1, top, eps), ps[n - 1], c, MassOf(e, part, c, Fin(top), eps).u,
                MassOf(e, part, 0, Fin(top), eps).z, top, eps);
    }
  }

  lemma {:induction false} NoRows(e: real -> real, c: nat, mu: Score, eps: Temp)
    requires eps.Valid()
    ensures MassOf(e, [], c, mu, eps) == Mass(0.0, 0.0)
  {
    assert Column([], c) == [];
  }

  /** Parts without values combine to nothing. */
  lemma {:induction false} AllNothing(e: real -> real, ps: seq<Partial>, eps: Temp)
    requires eps.Valid() && forall k :: 0 <= k < |ps| ==> ps[k] == NOTHING
    ensures Reduced(e, ps, eps) == Combined(NOTHING)
  {
    LargestOfNothing(ps, |ps|);
  }

  lemma {:induction false} LargestOfNothing(ps: seq<Partial>, n: nat)
    requires n <= |ps| && forall k :: 0 <= k < |ps| ==> ps[k] == NOTHING
    ensures Largest(ps, n) == NegInf
  {
    if n > 0 {
      LargestOfNothing(ps, n - 1);
    }
  }

  /** What combining the partials of any split of a memory gives. */
  lemma {:induction false} CombineIs(e: real -> real, parts: seq<seq<VRow>>, ps: seq<Partial>, d: nat, eps: Temp)
    requires eps.Valid() && IsExp(e) && Parts(parts, d) && PartialsOf(e, ps, parts, eps)
    ensures Reduced(e, ps, eps) == Expected(e, parts, d, eps)
  {
    hide IsExp, PartFactor, MassOf, TopOf, PartialOf, At, Reduced, AddParts, Concat;
    forall i | 0 <= i < |parts|
      ensures ps[i] == PartialOf(e, parts[i], eps) && (parts[i] == [] || d == 0 ==> ps[i] == NOTHING)
    {
      PartTop(e, parts[i], d, eps);
    }
    var all := Concat(parts);
    ConcatKeeps(parts, d);
    PartTop(e, all, d, eps);
    if d == 0 || all == [] {
      AllNothing(e, ps, eps);
    } else {
      var i :| 0 <= i < |parts| && parts[i] != [];
      TopIsFinite(all);
      CombineSome(e, parts, ps, d, TopOf(all).s, eps);
    }
  }

  lemma {:induction false} CombineSome(e: real -> real, parts: seq<seq<VRow>>, ps: seq<Partial>, d: nat, top: real,
                                       eps: Temp)
    requires eps.Valid() && IsExp(e) && Parts(parts, d) && PartialsOf(e, ps, parts, eps)
    requires d > 0 && Concat(parts) != [] && TopOf(Concat(parts)) == Fin(top)
    ensures Reduced(e, ps, eps) == Expected(e, parts, d, eps)
  {
    hide IsExp, PartFactor, MassOf, TopOf, PartialOf, At, AddParts, Concat;
    ConcatKeeps(parts, d);
    LargestIsTop(e, parts, ps, d, eps, |parts|);
    assert parts[..|parts|] == parts;
    assert Largest(ps, |ps|) == Fin(top);
    forall i | 0 <= i < |parts|
      ensures ps[i].m.Fin? <==> parts[i] != []
      ensures |ps[i].num| == if parts[i] == [] then 0 else d
    {
      PartTop(e, parts[i], d, eps);
    }
    var w := |ps[0].num|;
    if Combines(parts, d, eps) {
      StaysSums(e, w, ps, |ps|, top, eps);
      SumsAre(e, parts, ps, d, w, top, eps);
    } else {
      var empty :| 0 <= empty < |parts| && parts[empty] == [];
      if parts[0] != [] {
        Clashes(e, w, ps, empty, top, eps);
      } else {
        var k := LargestAt(ps, |ps|);
        if d > 1 {
          Clashes(e, w, ps, k, top, eps);
        } else if eps.Infinite? {
          Spoils(e, w, ps, 0, |ps|, top, eps);
        } else {
          StaysSums(e, w, ps, |ps|, top, eps);
          SumsAre(e, parts, ps, d, w, top, eps);
        }
      }
    }
  }

  lemma {:induction false} LargestAt(ps: seq<Partial>, n: nat) returns (k: nat)
    requires n <= |ps| && Largest(ps, n) != NegInf
    ensures k < n && ps[k].m == Largest(ps, n)
  {
    if Largest(ps, n) == ps[n - 1].m {
      k := n - 1;
    } else {
      k := LargestAt(ps, n - 1);
    }
  }

  /** Sums that stayed numbers: those of all rows, or no values at width zero. */
  lemma {:induction false} SumsAre(e: real -> real, parts: seq<seq<VRow>>, ps: seq<Partial>, d: nat, w: nat,
                                   top: real, eps: Temp)
    requires eps.Valid() && IsExp(e) && Parts(parts, d) && PartialsOf(e, ps, parts, eps)
    requires d > 0 && (w == d || w == 0) && AllAtMost(ps, top)
    requires Concat(parts) != [] && TopOf(Concat(parts)) == Fin(top)
    requires AddParts(e, w, ps, |ps|, top, eps).Sums?
    ensures
      var s := AddParts(e, w, ps, |ps|, top, eps);
      var all := PartialOf(e, Concat(parts), eps);
      Partial(Fin(top), s.num, s.den) == if w == d then all else all.(num := [])
  {
    hide IsExp, PartFactor, MassOf, TopOf, At, AddParts, Concat;
    ConcatKeeps(parts, d);
    assert parts[..|ps|] == parts;
    var s, all := AddParts(e, w, ps, |ps|, top, eps), PartialOf(e, Concat(parts), eps);
    forall c | 0 <= c < d
      ensures |s.num| == w && s.den == all.den && (c < w ==> s.num[c] == all.num[c])
    {
      SumsOfRows(e, parts, ps, d, w, |ps|, top, eps, c);
    }
    SumsOfRows(e, parts, ps, d, w, |ps|, top, eps, 0);
  }

  /** Combining is exact if and only if no part is empty, or all are, or temperature is zero and the first part has
      rows; and when values have no components. */
  lemma {:induction false} CombineExactIff(e: real -> real, parts: seq<seq<VRow>>, ps: seq<Partial>, d: nat, eps: Temp)
    requires eps.Valid() && IsExp(e) && Parts(parts, d) && PartialsOf(e, ps, parts, eps)
    ensures Reduced(e, ps, eps) == Combined(PartialOf(e, Concat(parts), eps))
            <==> d == 0 || !Mixed(parts) || (eps.Zero? && parts[0] != [])
  {
    hide IsExp, Reduced;
    CombineIs(e, parts, ps, d, eps);
    if !Combines(parts, d, eps) {
      ConcatKeeps(parts, d);
      PartTop(e, Concat(parts), d, eps);
    }
  }

  /** A part without rows after one with a row, at an ordinary temperature: a panic. */
  lemma {:induction false} EmptyPartPanics(e: real -> real, s: real, v: seq<real>)
    requires IsExp(e) && v != []
    ensures
      var row := A.VRow(Fin(s), v);
      Reduced(e, [PartialOf(e, [row], Warm(1.0)), PartialOf(e, [], Warm(1.0))], Warm(1.0)) == Panics
  {
    hide Reduced;
    var row := A.VRow(Fin(s), v);
    var parts := [[row], []];
    var ps := [PartialOf(e, [row], Warm(1.0)), PartialOf(e, [], Warm(1.0))];
    assert parts[0] != [] && parts[1] == [];
    CombineIs(e, parts, ps, |v|, Warm(1.0));
  }

  // ------------------------------------------------------------------ the answer

  function Finalize(p: Partial): (r: seq<real>)
    ensures |r| == |p.num|
  {
    if p.den <= 0.0 then Zeros(|p.num|) else seq(|p.num|, c requires 0 <= c < |p.num| => p.num[c] / p.den)
  }

  /** The final answer has the reference answer in every component; it has none without rows. */
  lemma {:induction false} FinalizeIsSoftMean(e: real -> real, rows: seq<VRow>, d: nat, eps: Temp)
    requires eps.Valid() && IsExp(e) && Finite(rows) && Wide(rows, d)
    ensures |Finalize(PartialOf(e, rows, eps))| == if rows == [] then 0 else d
    ensures rows != [] ==> forall c :: 0 <= c < d ==>
      SoftMean(e, A.Project(rows, c), eps) == Some(Finalize(PartialOf(e, rows, eps))[c])
  {
    hide IsExp;
    if rows != [] {
      forall c | 0 <= c < d
        ensures SoftMean(e, A.Project(rows, c), eps) == Some(Finalize(PartialOf(e, rows, eps))[c])
      {
        assert A.Project(rows, c) == Column(rows, c);
        ComponentMean(e, rows, c, eps);
      }
    }
  }

  lemma {:induction false} ComponentMean(e: real -> real, rows: seq<VRow>, c: nat, eps: Temp)
    requires eps.Valid() && IsExp(e) && Finite(rows) && rows != []
    ensures
      var mu := TopOf(rows);
      && MassOf(e, rows, 0, mu, eps).z >= 1.0
      && SoftMean(e, Column(rows, c), eps) == Some(MassOf(e, rows, c, mu, eps).u / MassOf(e, rows, 0, mu, eps).z)
  {
    hide IsExp;
    var col, mu := Column(rows, c), TopOf(rows);
    SameTop(rows, c);
    SameWeights(e, rows, c, mu, eps, |rows|);
    UptoEnds(e, rows, c, mu, eps);
    UptoEnds(e, rows, 0, mu, eps);
    E.NotVacant(col, eps);
    TotalAtLeastOne(e, col, eps);
    SameMasses(e, col, eps);
  }

  lemma {:induction false} SameMasses(e: real -> real, rows: seq<Row>, eps: Temp)
    requires eps.Valid()
    ensures Masses(e, rows, Top(rows), eps) == Masses(e, rows, Anchor(rows, eps), eps)
  {
  }
}
