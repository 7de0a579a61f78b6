/** The per-row accumulator class, the sequential and the parallel fold over a mask, and the two
    evaluators built on them (engine/bruce-core/src/mask.rs).

    A score is `None` when it is NaN, and a value component is `None` when it is NaN: NaN is the engine's
    encoding of SQL NULL and such pairs are skipped. */
module MaskedAttention {
  import opened Wrappers
  import opened Exponential
  import Bags
  import S = SoftAccumulator

  type Score = S.Score
  type Temp = S.Temp

  datatype Error = DimensionMismatch(expected: nat, got: nat) | PairOutOfRange(i: nat, j: nat)

  datatype VRow = VRow(score: Score, v: seq<real>)

  /** Component `c` of a vector, zero past its end. */
  function Comp(v: seq<real>, c: nat): real {
    if c < |v| then v[c] else 0.0
  }

  function ProjectRow(r: VRow, c: nat): S.Row {
    S.Row(r.score, Comp(r.v, c))
  }

  /** The scalar rows a vector fold sees in component `c`. */
  function Project(rows: seq<VRow>, c: nat): seq<S.Row> {
    seq(|rows|, i requires 0 <= i < |rows| => ProjectRow(rows[i], c))
  }

  lemma {:induction false} ProjectAppend(a: seq<VRow>, b: seq<VRow>, c: nat)
    ensures Project(a + b, c) == Project(a, c) + Project(b, c)
  {
  }

  // ------------------------------------------------------------------ the accumulator

  /** The fields of an accumulator as a value. */
  datatype VAcc = VAcc(mu: Score, z: real, u: seq<real>)

  function ViewOf(a: VAcc, c: nat): S.Acc {
    S.Acc(a.mu, a.z, Comp(a.u, c))
  }

  /** The accumulator is the closed form of `rows` in every component. */
  ghost predicate Holds(e: real -> real, a: VAcc, rows: seq<VRow>, eps: Temp)
    requires eps.Valid()
  {
    forall c: nat :: ViewOf(a, c) == S.Closed(e, Project(rows, c), eps)
  }

  class RowAcc {
    var mu: Score
    var z: real
    var u: seq<real>

    constructor (d: nat)
      ensures mu == S.NegInf && z == 0.0 && |u| == d
      ensures forall c: nat :: View(c) == S.EMPTY
    {
      mu := S.NegInf;
      z := 0.0;
      u := seq(d, _ => 0.0);
    }

    /** The scalar accumulator of component `c`. */
    function View(c: nat): S.Acc
      reads this
    {
      ViewOf(Value(), c)
    }

    function Value(): VAcc
      reads this
    {
      VAcc(mu, z, u)
    }

    /** `u[c] = u[c] * scale + w * v[c]` for every component. */
    method Axpy(scale: real, w: real, v: seq<real>)
      requires |v| == |u|
      modifies `u
      ensures |u| == |old(u)|
      ensures forall c: nat :: Comp(u, c) == Comp(old(u), c) * scale + w * Comp(v, c)
    {
      for c := 0 to |u|
        invariant |u| == |old(u)| == |v|
        invariant forall j :: 0 <= j < c ==> u[j] == old(u)[j] * scale + w * v[j]
        invariant forall j :: c <= j < |u| ==> u[j] == old(u)[j]
      {
        u := u[c := u[c] * scale + w * v[c]];
      }
    }

    method AddInto(v: seq<real>)
      requires |v| == |u|
      modifies `u
      ensures |u| == |old(u)|
      ensures forall c: nat :: Comp(u, c) == Comp(old(u), c) + Comp(v, c)
    {
      for c := 0 to |u|
        invariant |u| == |old(u)| == |v|
        invariant forall j :: 0 <= j < c ==> u[j] == old(u)[j] + v[j]
        invariant forall j :: c <= j < |u| ==> u[j] == old(u)[j]
      {
        u := u[c := u[c] + v[c]];
      }
    }

    method Absorb(e: real -> real, s: Score, v: seq<real>, eps: Temp)
      requires eps.Valid() && |v| == |u|
      modifies this
      ensures |u| == |old(u)|
      ensures forall c: nat :: View(c) == S.Absorb(e, old(View(c)), S.Row(s, Comp(v, c)), eps)
    {
      if eps.Zero? {
        if s == S.NegInf {
          return;
        }
        if S.Less(mu, s) {
          mu, z, u := s, 1.0, v;
        } else if s == mu {
          z := z + 1.0;
          AddInto(v);
        }
        return;
      }
      if eps.Infinite? {
        z := z + 1.0;
        AddInto(v);
        return;
      }
      if s == S.NegInf {
        return;
      }
      if s == S.PosInf || mu == S.PosInf {
        if s == S.PosInf && mu == S.PosInf {
          z := z + 1.0;
          AddInto(v);
        } else if s == S.PosInf {
          mu, z, u := S.PosInf, 1.0, v;
        }
        return;
      }
      if z == 0.0 || mu == S.NegInf {
        mu, z, u := s, 1.0, v;
        return;
      }
      var mu2 := S.Larger(mu, s);
      var scale := S.Factor(e, mu.s, mu2.s, eps.t);
      var w := S.Factor(e, s.s, mu2.s, eps.t);
      Axpy(scale, w, v);
      z := z * scale + w;
      mu := mu2;
    }

    method Merge(e: real -> real, other: RowAcc, eps: Temp)
      requires eps.Valid() && other != this && |other.u| == |u|
      modifies this
      ensures |u| == |old(u)|
      ensures forall c: nat :: View(c) == S.Merge(e, old(View(c)), other.View(c), eps)
    {
      if other.z == 0.0 {
        return;
      }
      if z == 0.0 {
        mu, z, u := other.mu, other.z, other.u;
        return;
      }
      if eps.Zero? {
        if S.Less(mu, other.mu) {
          mu, z, u := other.mu, other.z, other.u;
        } else if other.mu == mu {
          z := z + other.z;
          AddInto(other.u);
        }
        return;
      }
      if eps.Infinite? {
        z := z + other.z;
        AddInto(other.u);
        return;
      }
      if mu == S.PosInf || other.mu == S.PosInf {
        if mu == S.PosInf && other.mu == S.PosInf {
          z := z + other.z;
          AddInto(other.u);
        } else if other.mu == S.PosInf {
          mu, z, u := other.mu, other.z, other.u;
        }
        return;
      }
      if mu == S.NegInf {
        mu, z, u := other.mu, other.z, other.u;
        return;
      }
      if other.mu == S.NegInf {
        return;
      }
      var mu2 := S.Larger(mu, other.mu);
      var s1 := S.Factor(e, mu.s, mu2.s, eps.t);
      var s2 := S.Factor(e, other.mu.s, mu2.s, eps.t);
      ghost var u0 := u;
      Axpy(s1, s2, other.u);
      assert forall c: nat :: s2 * Comp(other.u, c) == Comp(other.u, c) * s2;
      z := z * s1 + other.z * s2;
      mu := mu2;
    }

    /** `Absorb`, stated on the rows the accumulator stands for. */
    method AbsorbRow(e: real -> real, r: VRow, ghost rows: seq<VRow>, eps: Temp)
      requires IsExp(e) && eps.Valid() && |r.v| == |u| && Holds(e, Value(), rows, eps)
      modifies this
      ensures |u| == |old(u)| && Holds(e, Value(), rows + [r], eps)
    {
      ghost var mine := Value();
      Absorb(e, r.score, r.v, eps);
      forall c: nat ensures ViewOf(Value(), c) == S.Closed(e, Project(rows + [r], c), eps) {
        assert View(c) == S.Absorb(e, ViewOf(mine, c), ProjectRow(r, c), eps);
        AbsorbAt(e, rows, r, c, eps);
      }
    }

    /** `Merge`, stated on the rows the two accumulators stand for. */
    method MergeRows(e: real -> real, other: RowAcc, ghost a: seq<VRow>, ghost b: seq<VRow>, eps: Temp)
      requires IsExp(e) && eps.Valid() && other != this && |other.u| == |u|
      requires Holds(e, Value(), a, eps) && Holds(e, other.Value(), b, eps)
      modifies this
      ensures |u| == |old(u)| && Holds(e, Value(), a + b, eps)
    {
      ghost var mine, theirs := Value(), other.Value();
      Merge(e, other, eps);
      forall c: nat ensures ViewOf(Value(), c) == S.Closed(e, Project(a + b, c), eps) {
        assert View(c) == S.Merge(e, ViewOf(mine, c), ViewOf(theirs, c), eps);
        MergeAt(e, a, b, c, eps);
      }
    }

    method Finalize() returns (r: Option<seq<real>>)
      ensures r.None? <==> z == 0.0
      ensures r.Some? ==> |r.value| == |u| && forall c :: 0 <= c < |u| ==> S.Answer(View(c)) == Some(r.value[c])
    {
      if z == 0.0 {
        return None;
      }
      return Some(seq(|u|, c requires 0 <= c < |u| reads this => if z == 0.0 then 0.0 else u[c] / z));
    }
  }

  // ------------------------------------------------------------------ folding a mask

  /** The inputs of an attention call: shapes, values, and the score of every (query, key) pair. */
  datatype Inputs = Inputs(nQ: nat, qDim: nat, kDim: nat, nK: nat, dV: nat,
                           v: seq<seq<Option<real>>>, score: (nat, nat) -> Option<Score>)
  {
    ghost predicate Shaped() {
      && |v| == nK
      && forall j :: 0 <= j < nK ==> |v[j]| == dV
    }
  }

  type Pair = (nat, nat)

  predicate NoNull(row: seq<Option<real>>) {
    forall c :: 0 <= c < |row| ==> row[c].Some?
  }

  function Values(row: seq<Option<real>>): seq<real>
    requires NoNull(row)
  {
    seq(|row|, c requires 0 <= c < |row| => row[c].value)
  }

  predicate InRange(d: Inputs, p: Pair) {
    p.0 < d.nQ && p.1 < |d.v|
  }

  ghost predicate AllInRange(d: Inputs, pairs: seq<Pair>) {
    forall n :: 0 <= n < |pairs| ==> InRange(d, pairs[n])
  }

  /** The pair reaches row `i` and neither its score nor its value is NULL. */
  predicate Counts(d: Inputs, p: Pair, i: nat)
    requires InRange(d, p)
  {
    p.0 == i && d.score(p.0, p.1).Some? && NoNull(d.v[p.1])
  }

  function RowOf(d: Inputs, p: Pair): VRow
    requires InRange(d, p) && Counts(d, p, p.0)
  {
    VRow(d.score(p.0, p.1).value, Values(d.v[p.1]))
  }

  /** The rows that the first `n` pairs contribute to output row `i`, in stream order. */
  ghost function RowsUpTo(d: Inputs, pairs: seq<Pair>, i: nat, n: nat): seq<VRow>
    requires n <= |pairs| && AllInRange(d, pairs)
  {
    if n == 0 then []
    else
      var before := RowsUpTo(d, pairs, i, n - 1);
      if Counts(d, pairs[n - 1], i) then before + [RowOf(d, pairs[n - 1])] else before
  }

  ghost function Rows(d: Inputs, pairs: seq<Pair>, i: nat): seq<VRow>
    requires AllInRange(d, pairs)
  {
    RowsUpTo(d, pairs, i, |pairs|)
  }

  lemma {:induction false} RowsUpToAgree(d: Inputs, a: seq<Pair>, b: seq<Pair>, i: nat, n: nat)
    requires AllInRange(d, a) && AllInRange(d, b)
    requires n <= |a| && n <= |b| && forall j :: 0 <= j < n ==> a[j] == b[j]
    ensures RowsUpTo(d, a, i, n) == RowsUpTo(d, b, i, n)
  {
    if n > 0 {
      RowsUpToAgree(d, a, b, i, n - 1);
    }
  }

  lemma {:induction false} RowsAppendUpTo(d: Inputs, a: seq<Pair>, b: seq<Pair>, i: nat, n: nat)
    requires n <= |b| && AllInRange(d, a) && AllInRange(d, b) && AllInRange(d, a + b)
    ensures RowsUpTo(d, a + b, i, |a| + n) == Rows(d, a, i) + RowsUpTo(d, b, i, n)
  {
    if n == 0 {
      RowsUpToAgree(d, a + b, a, i, |a|);
    } else {
      RowsAppendUpTo(d, a, b, i, n - 1);
    }
  }

  lemma {:induction false} RowsAppend(d: Inputs, a: seq<Pair>, b: seq<Pair>, i: nat)
    requires AllInRange(d, a) && AllInRange(d, b)
    ensures AllInRange(d, a + b)
    ensures Rows(d, a + b, i) == Rows(d, a, i) + Rows(d, b, i)
  {
    forall n | 0 <= n < |a + b| ensures InRange(d, (a + b)[n]) {
      if n < |a| { assert InRange(d, a[n]); } else { assert InRange(d, b[n - |a|]); }
    }
    RowsAppendUpTo(d, a, b, i, |b|);
  }

  lemma {:induction false} RowsSnoc(d: Inputs, pairs: seq<Pair>, p: Pair, i: nat)
    requires AllInRange(d, pairs) && InRange(d, p)
    ensures AllInRange(d, pairs + [p])
    ensures Rows(d, pairs + [p], i) == Rows(d, pairs, i) + (if Counts(d, p, i) then [RowOf(d, p)] else [])
  {
    forall n | 0 <= n < |pairs + [p]| ensures InRange(d, (pairs + [p])[n]) {
      assert n < |pairs| ==> InRange(d, pairs[n]);
    }
    RowsUpToAgree(d, pairs + [p], pairs, i, |pairs|);
  }

  /** Does a value row hold a NULL component? */
  method HasNull(row: seq<Option<real>>) returns (b: bool)
    ensures b == !NoNull(row)
  {
    for c := 0 to |row|
      invariant forall x :: 0 <= x < c ==> row[x].Some?
    {
      if row[c].None? {
        return true;
      }
    }
    return false;
  }

  /** One flag per value row: it holds no NULL component. */
  method ValueRowOk(v: seq<seq<Option<real>>>) returns (ok: seq<bool>)
    ensures |ok| == |v| && forall j :: 0 <= j < |v| ==> ok[j] == NoNull(v[j])
  {
    ok := [];
    for j := 0 to |v|
      invariant |ok| == j && forall i :: 0 <= i < j ==> ok[i] == NoNull(v[i])
    {
      var b := HasNull(v[j]);
      ok := ok + [!b];
    }
  }

  /** The rows of every output row. */
  ghost function AllRows(d: Inputs, pairs: seq<Pair>): (rows: seq<seq<VRow>>)
    requires AllInRange(d, pairs)
  {
    seq(d.nQ, i requires 0 <= i < d.nQ => Rows(d, pairs, i))
  }

  /** `accs` are separate accumulators, the `i`-th holding `rows[i]`. */
  ghost predicate Stands(e: real -> real, accs: seq<RowAcc>, rows: seq<seq<VRow>>, dV: nat, eps: Temp)
    requires eps.Valid()
    reads accs
  {
    && |accs| == |rows|
    && (forall i, j :: 0 <= i < j < |accs| ==> accs[i] != accs[j])
    && (forall i :: 0 <= i < |accs| ==> |accs[i].u| == dV && Holds(e, accs[i].Value(), rows[i], eps))
  }

  /** One accumulator per output row of the mask. */
  ghost predicate Folded(e: real -> real, d: Inputs, accs: seq<RowAcc>, pairs: seq<Pair>, eps: Temp)
    requires eps.Valid() && AllInRange(d, pairs)
    reads accs
  {
    Stands(e, accs, AllRows(d, pairs), d.dV, eps)
  }

  ghost function NoRows(n: nat): seq<seq<VRow>> {
    seq(n, _ => [])
  }

  method NewAccs(n: nat, dV: nat, ghost e: real -> real, ghost eps: Temp) returns (accs: seq<RowAcc>)
    requires eps.Valid()
    ensures Stands(e, accs, NoRows(n), dV, eps) && fresh(accs)
  {
    accs := [];
    for i := 0 to n
      invariant |accs| == i && fresh(accs)
      invariant forall x, y :: 0 <= x < y < i ==> accs[x] != accs[y]
      invariant forall x :: 0 <= x < i ==> |accs[x].u| == dV && Holds(e, accs[x].Value(), [], eps)
    {
      var acc := new RowAcc(dV);
      forall c: nat ensures ViewOf(acc.Value(), c) == S.Closed(e, Project([], c), eps) {
        assert acc.View(c) == S.EMPTY;
      }
      accs := accs + [acc];
    }
  }

  lemma {:induction false} AbsorbAt(e: real -> real, rows: seq<VRow>, r: VRow, c: nat, eps: Temp)
    requires eps.Valid() && IsExp(e)
    ensures S.Absorb(e, S.Closed(e, Project(rows, c), eps), ProjectRow(r, c), eps)
            == S.Closed(e, Project(rows + [r], c), eps)
  {
    S.AbsorbClosed(e, Project(rows, c), ProjectRow(r, c), eps);
    assert Project(rows + [r], c) == Project(rows, c) + [ProjectRow(r, c)];
  }

  lemma {:induction false} MergeAt(e: real -> real, a: seq<VRow>, b: seq<VRow>, c: nat, eps: Temp)
    requires eps.Valid() && IsExp(e)
    ensures S.Merge(e, S.Closed(e, Project(a, c), eps), S.Closed(e, Project(b, c), eps), eps)
            == S.Closed(e, Project(a + b, c), eps)
  {
    S.MergeClosed(e, Project(a, c), Project(b, c), eps);
    ProjectAppend(a, b, c);
  }

  /** One fold step: `accs[i]` takes a row, the others keep theirs. */
  method AbsorbAtIndex(e: real -> real, accs: seq<RowAcc>, i: nat, r: VRow,
                       ghost rows: seq<seq<VRow>>, ghost dV: nat, eps: Temp)
    requires IsExp(e) && eps.Valid() && i < |accs| && |r.v| == dV
    requires Stands(e, accs, rows, dV, eps)
    modifies accs[i]
    ensures Stands(e, accs, rows[i := rows[i] + [r]], dV, eps)
  {
    accs[i].AbsorbRow(e, r, rows[i], eps);
  }

  lemma {:induction false} AllRowsEmpty(d: Inputs)
    ensures AllRows(d, []) == NoRows(d.nQ)
  {
    forall i | 0 <= i < d.nQ ensures Rows(d, [], i) == [] {
    }
  }

  lemma {:induction false} AllRowsSnoc(d: Inputs, pairs: seq<Pair>, p: Pair)
    requires AllInRange(d, pairs) && InRange(d, p)
    ensures AllInRange(d, pairs + [p])
    ensures AllRows(d, pairs + [p]) ==
        var rows := AllRows(d, pairs);
        if Counts(d, p, p.0) then rows[p.0 := rows[p.0] + [RowOf(d, p)]] else rows
  {
    RowsSnoc(d, pairs, p, p.0);
    var rows := AllRows(d, pairs);
    var want := if Counts(d, p, p.0) then rows[p.0 := rows[p.0] + [RowOf(d, p)]] else rows;
    forall i | 0 <= i < d.nQ ensures AllRows(d, pairs + [p])[i] == want[i] {
      RowsSnoc(d, pairs, p, i);
    }
  }

  method FoldSequential(e: real -> real, d: Inputs, pairs: seq<Pair>, vOk: seq<bool>, eps: Temp)
    returns (accs: seq<RowAcc>)
    requires IsExp(e) && eps.Valid() && d.Shaped() && AllInRange(d, pairs)
    requires |vOk| == |d.v| && forall j :: 0 <= j < |d.v| ==> vOk[j] == NoNull(d.v[j])
    ensures Folded(e, d, accs, pairs, eps) && fresh(accs)
  {
    accs := NewAccs(d.nQ, d.dV, e, eps);
    assert pairs[..0] == [];
    AllRowsEmpty(d);
    for n := 0 to |pairs|
      invariant AllInRange(d, pairs[..n]) && Folded(e, d, accs, pairs[..n], eps)
      invariant |accs| == d.nQ && fresh(accs)
    {
      var (i, j) := pairs[n];
      assert InRange(d, pairs[n]);
      AllRowsSnoc(d, pairs[..n], pairs[n]);
      assert pairs[..n + 1] == pairs[..n] + [pairs[n]];
      var s := d.score(i, j);
      if s.None? || !vOk[j] {
        continue;
      }

      AbsorbAtIndex(e, accs, i, VRow(s.value, Values(d.v[j])), AllRows(d, pairs[..n]), d.dV, eps);
    }
    assert pairs[..|pairs|] == pairs;
  }

  /** How a parallel reduction brackets the pair stream: chunks, merges of adjacent spans, and the
      identity accumulators a scheduler may insert anywhere. */
  datatype Plan = Identity | Chunk(lo: nat, hi: nat) | Join(left: Plan, mid: nat, right: Plan)

  ghost predicate Covers(plan: Plan, lo: nat, hi: nat) {
    match plan
    case Identity => lo == hi
    case Chunk(a, b) => a == lo && b == hi && lo <= hi
    case Join(l, mid, r) => lo <= mid <= hi && Covers(l, lo, mid) && Covers(r, mid, hi)
  }

  method FoldParallel(e: real -> real, d: Inputs, pairs: seq<Pair>, vOk: seq<bool>, eps: Temp,
                      plan: Plan, ghost lo: nat, ghost hi: nat)
    returns (accs: seq<RowAcc>)
    requires IsExp(e) && eps.Valid() && d.Shaped() && AllInRange(d, pairs)
    requires |vOk| == |d.v| && forall j :: 0 <= j < |d.v| ==> vOk[j] == NoNull(d.v[j])
    requires lo <= hi <= |pairs| && Covers(plan, lo, hi)
    ensures AllInRange(d, pairs[lo..hi])
    ensures Folded(e, d, accs, pairs[lo..hi], eps) && fresh(accs)
    decreases plan
  {
    match plan {
      case Identity =>
        accs := NewAccs(d.nQ, d.dV, e, eps);
        AllRowsEmpty(d);
        assert pairs[lo..hi] == [];
      case Chunk(a, b) =>
        accs := FoldSequential(e, d, pairs[a..b], vOk, eps);
      case Join(l, mid, r) =>
        accs := FoldParallel(e, d, pairs, vOk, eps, l, lo, mid);
        var right := FoldParallel(e, d, pairs, vOk, eps, r, mid, hi);
        assert pairs[lo..hi] == pairs[lo..mid] + pairs[mid..hi];

        AllRowsAppend(d, pairs[lo..mid], pairs[mid..hi]);
        MergeInto(e, accs, right, AllRows(d, pairs[lo..mid]), AllRows(d, pairs[mid..hi]), d.dV, eps);
    }
  }

  ghost function ZipAppend(a: seq<seq<VRow>>, b: seq<seq<VRow>>): seq<seq<VRow>>
    requires |a| == |b|
  {
    seq(|a|, i requires 0 <= i < |a| => a[i] + b[i])
  }

  lemma {:induction false} AllRowsAppend(d: Inputs, a: seq<Pair>, b: seq<Pair>)
    requires AllInRange(d, a) && AllInRange(d, b)
    ensures AllInRange(d, a + b)
    ensures AllRows(d, a + b) == ZipAppend(AllRows(d, a), AllRows(d, b))
  {
    RowsAppend(d, a, b, 0);
    forall i | 0 <= i < d.nQ ensures AllRows(d, a + b)[i] == AllRows(d, a)[i] + AllRows(d, b)[i] {
      RowsAppend(d, a, b, i);
    }
  }

  /** One merge step: `accs[i]` takes over `other`, the others keep theirs. */
  method MergeAtIndex(e: real -> real, accs: seq<RowAcc>, i: nat, other: RowAcc,
                      ghost rows: seq<seq<VRow>>, ghost more: seq<VRow>, ghost dV: nat, eps: Temp)
    requires IsExp(e) && eps.Valid() && i < |accs| && other !in accs
    requires Stands(e, accs, rows, dV, eps)
    requires |other.u| == dV && Holds(e, other.Value(), more, eps)
    modifies accs[i]
    ensures Stands(e, accs, rows[i := rows[i] + more], dV, eps)
  {
    accs[i].MergeRows(e, other, rows[i], more, eps);
  }

  /** Merge the accumulators of `right` into those of `accs`, index by index. */
  method MergeInto(e: real -> real, accs: seq<RowAcc>, right: seq<RowAcc>,
                   ghost a: seq<seq<VRow>>, ghost b: seq<seq<VRow>>, ghost dV: nat, eps: Temp)
    requires IsExp(e) && eps.Valid() && |a| == |b|
    requires Stands(e, accs, a, dV, eps) && Stands(e, right, b, dV, eps)
    requires forall y :: 0 <= y < |right| ==> right[y] !in accs
    modifies accs
    ensures Stands(e, accs, ZipAppend(a, b), dV, eps)
  {
    ghost var now := a;
    for i := 0 to |accs|
      invariant |now| == |a|
      invariant forall x :: 0 <= x < |a| ==> now[x] == if x < i then a[x] + b[x] else a[x]
      invariant Stands(e, accs, now, dV, eps)
      invariant forall x :: 0 <= x < |right| ==> unchanged(right[x])
    {
      MergeAtIndex(e, accs, i, right[i], now, b[i], dV, eps);
      now := now[i := now[i] + b[i]];
    }
    assert now == ZipAppend(a, b);
  }

  // ------------------------------------------------------------------ the evaluators

  const PAIR_PARALLEL_THRESHOLD: nat := 32768

  /** Read off the inputs: the pairs of output row `i` whose score is a number and whose value row holds numbers only,
      each as its own score and component `c` of its own value row, in stream order. */
  ghost function Seen(d: Inputs, pairs: seq<Pair>, i: nat, c: nat, n: nat): seq<S.Row>
    requires n <= |pairs| && forall k :: 0 <= k < n ==> pairs[k].1 < |d.v|
  {
    if n == 0 then []
    else
      var (q, j) := pairs[n - 1];
      var numbers := d.score(q, j) != None && forall x :: 0 <= x < |d.v[j]| ==> d.v[j][x] != None;
      Seen(d, pairs, i, c, n - 1) +
      if q == i && numbers then [S.Row(d.score(q, j).value, if c < |d.v[j]| then d.v[j][c].value else 0.0)] else []
  }

  lemma {:induction false} SeenIs(d: Inputs, pairs: seq<Pair>, i: nat, c: nat, n: nat)
    requires n <= |pairs| && AllInRange(d, pairs)
    ensures Seen(d, pairs, i, c, n) == Project(RowsUpTo(d, pairs, i, n), c)
  {
    if n > 0 {
      SeenIs(d, pairs, i, c, n - 1);
      assert InRange(d, pairs[n - 1]);
      if Counts(d, pairs[n - 1], i) {
        ProjectAppend(RowsUpTo(d, pairs, i, n - 1), [RowOf(d, pairs[n - 1])], c);
        assert Project([RowOf(d, pairs[n - 1])], c) == [ProjectRow(RowOf(d, pairs[n - 1]), c)];
      }
    }
  }

  /** What output row `i` must be: the soft mean of what it sees, component by component, or uncovered and zero. */
  ghost predicate AnswersRow(e: real -> real, d: Inputs, pairs: seq<Pair>, i: nat, out: seq<real>, covered: bool,
                             eps: Temp)
    requires eps.Valid() && forall k :: 0 <= k < |pairs| ==> pairs[k].1 < |d.v|
  {
    && (covered <==> S.SoftMean(e, Seen(d, pairs, i, 0, |pairs|), eps).Some?)
    && forall c :: 0 <= c < |out| ==>
         if covered then S.SoftMean(e, Seen(d, pairs, i, c, |pairs|), eps) == Some(out[c]) else out[c] == 0.0
  }

  /** The accumulators' answers, in row order. */
  method Collect(e: real -> real, d: Inputs, accs: seq<RowAcc>, ghost pairs: seq<Pair>, eps: Temp)
    returns (out: seq<seq<real>>, covered: seq<bool>)
    requires eps.Valid() && AllInRange(d, pairs) && Folded(e, d, accs, pairs, eps)
    ensures |out| == |covered| == d.nQ
    ensures forall i :: 0 <= i < d.nQ ==>
        |out[i]| == d.dV && AnswersRow(e, d, pairs, i, out[i], covered[i], eps)
  {
    out, covered := [], [];
    for i := 0 to |accs|
      invariant |out| == |covered| == i
      invariant forall x :: 0 <= x < i ==> |out[x]| == d.dV && AnswersRow(e, d, pairs, x, out[x], covered[x], eps)
    {
      var r := accs[i].Finalize();
      ghost var rows := Rows(d, pairs, i);
      assert Holds(e, accs[i].Value(), rows, eps);
      forall c: nat ensures S.SoftMean(e, Seen(d, pairs, i, c, |pairs|), eps) == S.Answer(accs[i].View(c)) {
        SeenIs(d, pairs, i, c, |pairs|);
        assert accs[i].View(c) == S.Closed(e, Project(rows, c), eps);
      }
      if r.Some? {
        out, covered := out + [r.value], covered + [true];
      } else {
        out, covered := out + [seq(d.dV, _ => 0.0)], covered + [false];
      }
    }
  }

  /** Masked attention. Sequential below the threshold, otherwise reduced along `plan`. */
  method MaskedAttention(e: real -> real, d: Inputs, pairs: seq<Pair>, eps: Temp, plan: Plan)
    returns (r: Result<(seq<seq<real>>, seq<bool>), Error>)
    requires IsExp(e) && eps.Valid() && (|d.v| == d.nK ==> d.Shaped())
    requires Covers(plan, 0, |pairs|)
    ensures |d.v| != d.nK ==> r == Err(DimensionMismatch(d.nK, |d.v|))
    ensures |d.v| == d.nK && d.qDim != d.kDim ==> r == Err(DimensionMismatch(d.qDim, d.kDim))
    ensures |d.v| == d.nK && d.qDim == d.kDim ==>
        if n :| 0 <= n < |pairs| && (pairs[n].0 >= d.nQ || pairs[n].1 >= d.nK)
                && forall k :: 0 <= k < n ==> pairs[k].0 < d.nQ && pairs[k].1 < d.nK
        then r == Err(PairOutOfRange(pairs[n].0, pairs[n].1)) else r.Ok?
    ensures r.Ok? ==>
        var (out, covered) := r.value;
        && |out| == |covered| == d.nQ && (forall k :: 0 <= k < |pairs| ==> pairs[k].1 < |d.v|)
        && forall i :: 0 <= i < d.nQ ==> |out[i]| == d.dV && AnswersRow(e, d, pairs, i, out[i], covered[i], eps)
  {
    if |d.v| != d.nK {
      return Err(DimensionMismatch(d.nK, |d.v|));
    }
    if d.qDim != d.kDim {
      return Err(DimensionMismatch(d.qDim, d.kDim));
    }
    for n := 0 to |pairs|
      invariant forall k :: 0 <= k < n ==> InRange(d, pairs[k])
    {
      if !InRange(d, pairs[n]) {
        return Err(PairOutOfRange(pairs[n].0, pairs[n].1));
      }
    }
    var vOk := ValueRowOk(d.v);
    var accs: seq<RowAcc>;
    if |pairs| < PAIR_PARALLEL_THRESHOLD {
      accs := FoldSequential(e, d, pairs, vOk, eps);
    } else {
      accs := FoldParallel(e, d, pairs, vOk, eps, plan, 0, |pairs|);
      assert pairs[0..|pairs|] == pairs;
    }
    var out, covered := Collect(e, d, accs, pairs, eps);
    return Ok((out, covered));
  }

  // ------------------------------------------------------------------ enumeration order

  lemma {:induction false} RowsPermutation(d: Inputs, a: seq<Pair>, b: seq<Pair>, i: nat)
    requires AllInRange(d, a) && AllInRange(d, b) && multiset(a) == multiset(b)
    ensures multiset(Rows(d, a, i)) == multiset(Rows(d, b, i))
    decreases |a|
  {
    if a == [] {
      assert |multiset(b)| == 0;
    } else {
      var n := |a| - 1;
      var k := Bags.FindLast(a, b);
      RowsPermutation(d, a[..n], b[..k] + b[k + 1..], i);
      RowsAppend(d, a[..n], [a[n]], i);
      assert a == a[..n] + [a[n]];
      RowsAppend(d, b[..k], [b[k]], i);
      RowsAppend(d, b[..k] + [b[k]], b[k + 1..], i);
      assert b == b[..k] + [b[k]] + b[k + 1..];
      RowsAppend(d, b[..k], b[k + 1..], i);
    }
  }

  lemma {:induction false} ProjectPermutation(a: seq<VRow>, b: seq<VRow>, c: nat)
    requires multiset(a) == multiset(b)
    ensures multiset(Project(a, c)) == multiset(Project(b, c))
  {
    var f := (r: VRow) => ProjectRow(r, c);
    Bags.MapPermutation(f, a, b);
    assert Bags.Map(f, a) == Project(a, c);
    assert Bags.Map(f, b) == Project(b, c);
  }

  /** Any enumeration of the same mask answers the same row in the same way. */
  lemma {:induction false} EnumerationIrrelevant(e: real -> real, d: Inputs, a: seq<Pair>, b: seq<Pair>, i: nat,
                                                 c: nat, eps: Temp)
    requires IsExp(e) && eps.Valid() && AllInRange(d, a) && AllInRange(d, b)
    requires multiset(a) == multiset(b)
    ensures S.SoftMean(e, Seen(d, a, i, c, |a|), eps) == S.SoftMean(e, Seen(d, b, i, c, |b|), eps)
  {
    SeenIs(d, a, i, c, |a|);
    SeenIs(d, b, i, c, |b|);
    RowsPermutation(d, a, b, i);
    ProjectPermutation(Rows(d, a, i), Rows(d, b, i), c);
    var x, y := Project(Rows(d, a, i), c), Project(Rows(d, b, i), c);
    S.OrderIrrelevant(e, x, y, eps);
    S.FoldIsClosed(e, x, eps);
    S.FoldIsClosed(e, y, eps);
  }
}
