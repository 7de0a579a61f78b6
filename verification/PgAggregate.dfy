/** The soft average as a PostgreSQL aggregate (engine/bruce-pg/src/lib.rs): the accumulator pair of the
    `(mu, z, u)` monoid and a sticky NaN bit, its `float8[5]` encoding, and the three support functions.
    The executor may split the input over any tree of partial aggregates. */
module PgAggregate {
  import opened Wrappers
  import opened Exponential
  import Bags
  import S = SoftAccumulator

  /** A `float8` as far as the aggregate distinguishes them. */
  datatype F8 = NaN | NegInf | Num(r: real) | PosInf

  /** An aggregated value: NaN or a number. */
  datatype Value = NanValue | Real(r: real)

  /** One input row; `None` is SQL NULL. */
  datatype SqlRow = SqlRow(value: Option<Value>, score: Option<F8>)

  /** The errors of the support functions. `Unmodelled` is none of them: it marks an array of the right length that
      no support function writes and that the model gives no meaning to. */
  datatype Error = EpsNull | EpsOutOfDomain | EpsChanged | MalformedState | Unmodelled

  type State = seq<F8>

  const STATE_LEN: nat := 5

  // ------------------------------------------------------------------ the accumulators

  class ScalarAcc {
    var mu: S.Score
    var z: real
    var u: real

    constructor ()
      ensures View() == S.EMPTY
    {
      mu, z, u := S.NegInf, 0.0, 0.0;
    }

    function View(): S.Acc
      reads this
    {
      S.Acc(mu, z, u)
    }

    method Absorb(e: real -> real, s: S.Score, v: real, eps: S.Temp)
      requires eps.Valid()
      modifies this
      ensures View() == S.Absorb(e, old(View()), S.Row(s, v), eps)
    {
      if eps.Zero? {
        if s == S.NegInf {
          return;
        }
        if S.Less(mu, s) {
          mu, z, u := s, 1.0, v;
        } else if s == mu {
          z, u := z + 1.0, u + v;
        }
        return;
      }
      if eps.Infinite? {
        z, u := z + 1.0, u + v;
        return;
      }
      if s == S.NegInf {
        return;
      }
      if s == S.PosInf || mu == S.PosInf {
        if s == S.PosInf && mu == S.PosInf {
          z, u := z + 1.0, u + v;
        } else if s == S.PosInf {
          mu, z, u := S.PosInf, 1.0, v;
        }
        return;
      }
      if z == 0.0 || mu == S.NegInf {
        mu, z, u := s, 1.0, v;
        return;
      }
      var mu2 := S.Larger(mu, s);
      var scale := S.Factor(e, mu.s, mu2.s, eps.t);
      var w := S.Factor(e, s.s, mu2.s, eps.t);
      u := u * scale + w * v;
      z := z * scale + w;
      mu := mu2;
    }

    method Merge(e: real -> real, other: ScalarAcc, eps: S.Temp)
      requires eps.Valid() && other != this
      modifies this
      ensures View() == S.Merge(e, old(View()), other.View(), eps)
    {
      if other.z == 0.0 {
        return;
      }
      if z == 0.0 {
        mu, z, u := other.mu, other.z, other.u;
        return;
      }
      if eps.Zero? {
        if S.Less(mu, other.mu) {
          mu, z, u := other.mu, other.z, other.u;
        } else if other.mu == mu {
          z, u := z + other.z, u + other.u;
        }
        return;
      }
      if eps.Infinite? {
        z, u := z + other.z, u + other.u;
        return;
      }
      if mu == S.PosInf || other.mu == S.PosInf {
        if mu == S.PosInf && other.mu == S.PosInf {
          z, u := z + other.z, u + other.u;
        } else if other.mu == S.PosInf {
          mu, z, u := other.mu, other.z, other.u;
        }
        return;
      }
      if mu == S.NegInf {
        mu, z, u := other.mu, other.z, other.u;
        return;
      }
      if other.mu == S.NegInf {
        return;
      }
      var mu2 := S.Larger(mu, other.mu);
      var s1 := S.Factor(e, mu.s, mu2.s, eps.t);
      var s2 := S.Factor(e, other.mu.s, mu2.s, eps.t);
      u := u * s1 + other.u * s2;
      z := z * s1 + other.z * s2;
      mu := mu2;
    }
  }

  /** The product of the monoid with the sticky NaN bit, as a value. */
  datatype PgState = PgState(acc: S.Acc, nanSeen: bool)

  const FRESH := PgState(S.EMPTY, false)

  class PgAcc {
    const acc: ScalarAcc
    var nanSeen: bool

    constructor ()
      ensures View() == FRESH && fresh(acc)
    {
      acc := new ScalarAcc();
      nanSeen := false;
    }

    /** The state that `decode` rebuilds. */
    constructor From(st: PgState)
      ensures View() == st && fresh(acc)
    {
      acc := new ScalarAcc();
      nanSeen := st.nanSeen;
      new;
      acc.mu, acc.z, acc.u := st.acc.mu, st.acc.z, st.acc.u;
    }

    function View(): PgState
      reads this, acc
    {
      PgState(acc.View(), nanSeen)
    }

    method Absorb(e: real -> real, s: F8, v: Value, eps: S.Temp)
      requires eps.Valid()
      modifies this, acc
      ensures View() == AbsorbRow(e, old(View()), s, v, eps)
    {
      if s == NaN || v == NanValue {
        nanSeen := true;
        return;
      }
      acc.Absorb(e, AsScore(s), v.r, eps);
    }

    method Merge(e: real -> real, other: PgAcc, eps: S.Temp)
      requires eps.Valid() && other != this && other.acc != acc
      modifies this, acc
      ensures View() == MergeStates(e, old(View()), other.View(), eps)
    {
      acc.Merge(e, other.acc, eps);
      nanSeen := nanSeen || other.nanSeen;
    }
  }

  function AsScore(s: F8): S.Score
    requires s != NaN
  {
    match s
    case NegInf => S.NegInf
    case Num(r) => S.Fin(r)
    case PosInf => S.PosInf
  }

  function FromScore(s: S.Score): (f: F8)
    ensures f != NaN && AsScore(f) == s
  {
    match s
    case NegInf => NegInf
    case Fin(r) => Num(r)
    case PosInf => PosInf
  }

  function AbsorbRow(e: real -> real, st: PgState, s: F8, v: Value, eps: S.Temp): PgState
    requires eps.Valid()
  {
    if s == NaN || v == NanValue then st.(nanSeen := true)
    else st.(acc := S.Absorb(e, st.acc, S.Row(AsScore(s), v.r), eps))
  }

  function MergeStates(e: real -> real, a: PgState, b: PgState, eps: S.Temp): PgState
    requires eps.Valid()
  {
    PgState(S.Merge(e, a.acc, b.acc, eps), a.nanSeen || b.nanSeen)
  }

  // ------------------------------------------------------------------ the SQL state

  /** The temperature a non-NULL `eps` argument denotes, if it is in the domain. */
  function TempOf(eps: F8): (t: Option<S.Temp>)
    ensures t.Some? ==> t.value.Valid()
  {
    match eps
    case PosInf => Some(S.Infinite)
    case Num(r) => if r < 0.0 then None else if r == 0.0 then Some(S.Zero) else Some(S.Warm(r))
    case _ => None
  }

  function Encode(st: PgState, eps: F8): State {
    [FromScore(st.acc.mu), Num(st.acc.z), Num(st.acc.u), eps, Num(if st.nanSeen then 1.0 else 0.0)]
  }

  /** An array of the right length is decoded, whatever it holds. */
  predicate WellFormed(st: State) {
    |st| == STATE_LEN
  }

  /** The sums are numbers and the maximum is not NaN, as in everything that is encoded. */
  predicate Written(st: State)
    requires WellFormed(st)
  {
    st[0] != NaN && st[1].Num? && st[2].Num?
  }

  function Decode(st: State): (PgState, F8)
    requires WellFormed(st) && Written(st)
  {
    (PgState(S.Acc(AsScore(st[0]), st[1].r, st[2].r), st[4] != Num(0.0)), st[3])
  }

  /** Equality of floats. */
  predicate SameFloat(a: F8, b: F8) {
    a == b && a != NaN
  }

  lemma {:induction false} DecodeEncode(st: PgState, eps: F8)
    ensures
      var written := Encode(st, eps);
      WellFormed(written) && Written(written) && Decode(written) == (st, eps)
  {
  }

  // ------------------------------------------------------------------ the support functions

  /** What SFUNC computes. */
  function SfuncSpec(e: real -> real, state: Option<State>, row: SqlRow, eps: Option<F8>)
    : Result<Option<State>, Error>
  {
    if row.value.None? || row.score.None? then Ok(state)
    else if eps.None? then Err(EpsNull)
    else if TempOf(eps.value).None? then Err(EpsOutOfDomain)
    else
      var t := TempOf(eps.value).value;
      if state.None? then Ok(Some(Encode(AbsorbRow(e, FRESH, row.score.value, row.value.value, t), eps.value)))
      else if !WellFormed(state.value) then Err(MalformedState)
      else if !SameFloat(state.value[3], eps.value) then Err(EpsChanged)
      else if !Written(state.value) then Err(Unmodelled)
      else
        var st := Decode(state.value).0;
        Ok(Some(Encode(AbsorbRow(e, st, row.score.value, row.value.value, t), eps.value)))
  }

  method Sfunc(e: real -> real, state: Option<State>, row: SqlRow, eps: Option<F8>)
    returns (r: Result<Option<State>, Error>)
    ensures r == SfuncSpec(e, state, row, eps)
  {
    if row.value.None? || row.score.None? {
      return Ok(state);
    }
    if eps.None? {
      return Err(EpsNull);
    }
    var t := TempOf(eps.value);
    if t.None? {
      return Err(EpsOutOfDomain);
    }
    var acc: PgAcc;
    if state.None? {
      acc := new PgAcc();
    } else {
      if !WellFormed(state.value) {
        return Err(MalformedState);
      }
      if !SameFloat(state.value[3], eps.value) {
        return Err(EpsChanged);
      }
      if !Written(state.value) {
        return Err(Unmodelled);
      }
      acc := new PgAcc.From(Decode(state.value).0);
    }
    acc.Absorb(e, row.score.value, row.value.value, t.value);
    return Ok(Some(Encode(acc.View(), eps.value)));
  }

  /** What COMBINEFUNC computes. */
  function CombineSpec(e: real -> real, a: Option<State>, b: Option<State>): Result<Option<State>, Error> {
    if a.None? then Ok(b)
    else if b.None? then Ok(a)
    else if !WellFormed(a.value) || !WellFormed(b.value) then Err(MalformedState)
    else if !SameFloat(a.value[3], b.value[3]) then Err(EpsChanged)
    else if !Written(a.value) || !Written(b.value) || TempOf(a.value[3]).None? then Err(Unmodelled)
    else
      var (x, eps) := Decode(a.value);
      var (y, _) := Decode(b.value);
      Ok(Some(Encode(MergeStates(e, x, y, TempOf(eps).value), eps)))
  }

  method Combine(e: real -> real, a: Option<State>, b: Option<State>) returns (r: Result<Option<State>, Error>)
    ensures r == CombineSpec(e, a, b)
  {
    if a.None? {
      return Ok(b);
    }
    if b.None? {
      return Ok(a);
    }
    if !WellFormed(a.value) || !WellFormed(b.value) {
      return Err(MalformedState);
    }
    if !SameFloat(a.value[3], b.value[3]) {
      return Err(EpsChanged);
    }
    var t := TempOf(a.value[3]);
    if !Written(a.value) || !Written(b.value) || t.None? {
      return Err(Unmodelled);
    }
    var (x, eps) := Decode(a.value);
    var (y, _) := Decode(b.value);
    var accA := new PgAcc.From(x);
    var accB := new PgAcc.From(y);
    accA.Merge(e, accB, t.value);
    return Ok(Some(Encode(accA.View(), eps)));
  }

  datatype Answer = Null | Nan | Mean(m: real)

  /** FINALFUNC. */
  function Final(state: Option<State>): Result<Answer, Error> {
    if state.None? then Ok(Null)
    else if !WellFormed(state.value) then Err(MalformedState)
    else if state.value[4] != Num(0.0) then Ok(Nan)
    else if !Written(state.value) then Err(Unmodelled)
    else match S.Answer(Decode(state.value).0.acc)
      case None => Ok(Null)
      case Some(m) => Ok(Mean(m))
  }

  // ------------------------------------------------------------------ plan trees

  /** How the executor aggregates: a serial scan, or two partial aggregates combined. */
  datatype Plan = Scan(rows: seq<SqlRow>) | Combined(left: Plan, right: Plan)

  function Leaves(p: Plan): seq<SqlRow> {
    match p
    case Scan(rows) => rows
    case Combined(l, r) => Leaves(l) + Leaves(r)
  }

  function ScanUpTo(e: real -> real, rows: seq<SqlRow>, eps: Option<F8>, n: nat): Result<Option<State>, Error>
    requires n <= |rows|
  {
    if n == 0 then Ok(None)
    else
      var st :- ScanUpTo(e, rows, eps, n - 1);
      SfuncSpec(e, st, rows[n - 1], eps)
  }

  function Run(e: real -> real, p: Plan, eps: Option<F8>): Result<Option<State>, Error> {
    match p
    case Scan(rows) => ScanUpTo(e, rows, eps, |rows|)
    case Combined(l, r) =>
      var a :- Run(e, l, eps);
      var b :- Run(e, r, eps);
      CombineSpec(e, a, b)
  }

  // ------------------------------------------------------------------ the specification

  predicate Qualifies(row: SqlRow) {
    row.value.Some? && row.score.Some?
  }

  predicate CarriesNaN(row: SqlRow) {
    Qualifies(row) && (row.value.value == NanValue || row.score.value == NaN)
  }

  /** The non-NULL, NaN-free rows among the first `n`. */
  function CleanUpTo(rows: seq<SqlRow>, n: nat): seq<S.Row>
    requires n <= |rows|
  {
    if n == 0 then []
    else
      var row, before := rows[n - 1], CleanUpTo(rows, n - 1);
      if Qualifies(row) && !CarriesNaN(row) then before + [S.Row(AsScore(row.score.value), row.value.value.r)]
      else before
  }

  function Clean(rows: seq<SqlRow>): seq<S.Row> {
    CleanUpTo(rows, |rows|)
  }

  predicate AnyNaN(rows: seq<SqlRow>) {
    exists i :: 0 <= i < |rows| && CarriesNaN(rows[i])
  }

  predicate AnyQualifies(rows: seq<SqlRow>) {
    exists i :: 0 <= i < |rows| && Qualifies(rows[i])
  }

  /** The state a group must end in. */
  function Expected(e: real -> real, rows: seq<SqlRow>, t: S.Temp): PgState
    requires t.Valid()
  {
    PgState(S.Closed(e, Clean(rows), t), AnyNaN(rows))
  }

  function ExpectedState(e: real -> real, rows: seq<SqlRow>, eps: F8): Option<State>
    requires TempOf(eps).Some?
  {
    if AnyQualifies(rows) then Some(Encode(Expected(e, rows, TempOf(eps).value), eps)) else None
  }

  lemma {:induction false} CleanAgree(a: seq<SqlRow>, b: seq<SqlRow>, n: nat)
    requires n <= |a| && n <= |b| && forall i :: 0 <= i < n ==> a[i] == b[i]
    ensures CleanUpTo(a, n) == CleanUpTo(b, n)
  {
    if n > 0 {
      CleanAgree(a, b, n - 1);
    }
  }

  lemma {:induction false} CleanAppendUpTo(a: seq<SqlRow>, b: seq<SqlRow>, n: nat)
    requires n <= |b|
    ensures CleanUpTo(a + b, |a| + n) == Clean(a) + CleanUpTo(b, n)
  {
    if n == 0 {
      CleanAgree(a + b, a, |a|);
    } else {
      CleanAppendUpTo(a, b, n - 1);
      assert (a + b)[|a| + n - 1] == b[n - 1];
    }
  }

  lemma {:induction false} CleanAppend(a: seq<SqlRow>, b: seq<SqlRow>)
    ensures Clean(a + b) == Clean(a) + Clean(b)
    ensures AnyNaN(a + b) == (AnyNaN(a) || AnyNaN(b))
    ensures AnyQualifies(a + b) == (AnyQualifies(a) || AnyQualifies(b))
  {
    CleanAppendUpTo(a, b, |b|);
    assert forall i :: 0 <= i < |a| ==> (a + b)[i] == a[i];
    assert forall i :: 0 <= i < |b| ==> (a + b)[|a| + i] == b[i];
  }

  /** A group without qualifying rows has nothing to fold. */
  lemma {:induction false} NothingClean(rows: seq<SqlRow>, n: nat)
    requires n <= |rows| && !AnyQualifies(rows)
    ensures CleanUpTo(rows, n) == [] && !AnyNaN(rows)
  {
    if n > 0 {
      NothingClean(rows, n - 1);
    }
  }

  lemma {:induction false} NothingExpected(e: real -> real, rows: seq<SqlRow>, t: S.Temp)
    requires IsExp(e) && t.Valid() && !AnyQualifies(rows)
    ensures Expected(e, rows, t) == FRESH
  {
    NothingClean(rows, |rows|);
    S.EmptyIffVacant(e, [], t);
  }

  lemma {:induction false} ScanIsExpected(e: real -> real, rows: seq<SqlRow>, eps: F8, n: nat)
    requires IsExp(e) && TempOf(eps).Some? && n <= |rows|
    ensures ScanUpTo(e, rows, Some(eps), n) == Ok(ExpectedState(e, rows[..n], eps))
  {
    var t := TempOf(eps).value;
    if n == 0 {
    } else {
      var before, row := rows[..n - 1], rows[n - 1];
      ScanIsExpected(e, rows, eps, n - 1);
      assert rows[..n] == before + [row];
      CleanAppend(before, [row]);
      OneRow(row);
      if !AnyQualifies(before) { NothingExpected(e, before, t); }
      if Qualifies(row) {
        DecodeEncode(Expected(e, before, t), eps);
        if !CarriesNaN(row) {
          S.AbsorbClosed(e, Clean(before), S.Row(AsScore(row.score.value), row.value.value.r), t);
        } else {
          assert Clean(rows[..n]) == Clean(before) + [] == Clean(before);
        }
        assert AbsorbRow(e, Expected(e, before, t), row.score.value, row.value.value, t)
            == Expected(e, rows[..n], t);
      } else {
        assert Clean(rows[..n]) == Clean(before);
      }
    }
  }

  lemma {:induction false} OneRow(row: SqlRow)
    ensures AnyNaN([row]) == CarriesNaN(row) && AnyQualifies([row]) == Qualifies(row)
    ensures Clean([row]) == if Qualifies(row) && !CarriesNaN(row)
                            then [S.Row(AsScore(row.score.value), row.value.value.r)] else []
  {
    assert CleanUpTo([row], 1) == if Qualifies(row) && !CarriesNaN(row)
        then CleanUpTo([row], 0) + [S.Row(AsScore(row.score.value), row.value.value.r)] else CleanUpTo([row], 0);
    assert [row][0] == row;
  }

  /** Every plan tree ends in the state of the serial scan over its leaves: the monoid slots are those of
      the NaN-free rows, and the sticky bit says whether some row held a NaN. */
  lemma {:induction false} PlanIsExpected(e: real -> real, p: Plan, eps: F8)
    requires IsExp(e) && TempOf(eps).Some?
    ensures Run(e, p, Some(eps)) == Ok(ExpectedState(e, Leaves(p), eps))
  {
    var t := TempOf(eps).value;
    match p
    case Scan(rows) =>
      ScanIsExpected(e, rows, eps, |rows|);
      assert rows[..|rows|] == rows;
    case Combined(l, r) =>
      PlanIsExpected(e, l, eps);
      PlanIsExpected(e, r, eps);
      var a, b := Leaves(l), Leaves(r);
      CleanAppend(a, b);
      S.MergeClosed(e, Clean(a), Clean(b), t);
      DecodeEncode(Expected(e, a, t), eps);
      DecodeEncode(Expected(e, b, t), eps);
      if !AnyQualifies(a) {
        NothingClean(a, |a|);
        assert Clean(a) + Clean(b) == Clean(b);
      } else if !AnyQualifies(b) {
        NothingClean(b, |b|);
        assert Clean(a) + Clean(b) == Clean(a);
      }
  }

  /** Read off the first `n` rows: those whose value and score are both there and both numbers, the infinite scores
      included. */
  ghost function Numbers(rows: seq<SqlRow>, n: nat): seq<S.Row>
    requires n <= |rows|
  {
    if n == 0 then []
    else
      Numbers(rows, n - 1) +
      match (rows[n - 1].value, rows[n - 1].score)
      case (Some(Real(v)), Some(NegInf)) => [S.Row(S.NegInf, v)]
      case (Some(Real(v)), Some(Num(s))) => [S.Row(S.Fin(s), v)]
      case (Some(Real(v)), Some(PosInf)) => [S.Row(S.PosInf, v)]
      case _ => []
  }

  /** Both arguments of the row are there. */
  ghost predicate NotNull(row: SqlRow) {
    row.value != None && row.score != None
  }

  /** Both arguments of some row are there, and one of them is NaN. */
  ghost predicate NanAmong(rows: seq<SqlRow>) {
    exists i :: 0 <= i < |rows| && NotNull(rows[i]) && (rows[i].value == Some(NanValue) || rows[i].score == Some(NaN))
  }

  /** The temperature arguments that are taken, and what they mean: zero is the mean of the values with the largest
      score, infinity the plain mean. */
  ghost predicate Means(eps: F8, t: S.Temp) {
    match t
    case Zero => eps == Num(0.0)
    case Warm(r) => r > 0.0 && eps == Num(r)
    case Infinite => eps == PosInf
  }

  lemma {:induction false} MeansIs(eps: F8, t: S.Temp)
    ensures Means(eps, t) <==> TempOf(eps) == Some(t)
  {
  }

  lemma {:induction false} NumbersAreClean(rows: seq<SqlRow>, n: nat)
    requires n <= |rows|
    ensures Numbers(rows, n) == CleanUpTo(rows, n)
  {
    if n > 0 {
      NumbersAreClean(rows, n - 1);
    }
  }

  lemma {:induction false} NanAmongIs(rows: seq<SqlRow>)
    ensures NanAmong(rows) == AnyNaN(rows)
    ensures AnyQualifies(rows) <==> exists i :: 0 <= i < |rows| && NotNull(rows[i])
  {
    if NanAmong(rows) {
      var i :| 0 <= i < |rows| && NotNull(rows[i]) && (rows[i].value == Some(NanValue) || rows[i].score == Some(NaN));
      assert CarriesNaN(rows[i]);
    }
    if AnyNaN(rows) {
      var i :| 0 <= i < |rows| && CarriesNaN(rows[i]);
      assert NotNull(rows[i]);
    }
    if AnyQualifies(rows) {
      var i :| 0 <= i < |rows| && Qualifies(rows[i]);
      assert NotNull(rows[i]);
    }
    assert forall i :: 0 <= i < |rows| && NotNull(rows[i]) ==> Qualifies(rows[i]);
  }

  /** The state a plan ends in: NULL when every row has a NULL, and otherwise largest score, weight sum, weighted value
      sum, temperature and NaN bit, in this order. */
  lemma {:induction false} PlanState(e: real -> real, p: Plan, eps: F8, t: S.Temp)
    requires IsExp(e) && Means(eps, t)
    ensures
      var rows := Leaves(p);
      var acc := S.Closed(e, Numbers(rows, |rows|), t);
      if forall i :: 0 <= i < |rows| ==> !NotNull(rows[i]) then Run(e, p, Some(eps)) == Ok(None)
      else Run(e, p, Some(eps)) == Ok(Some([
        match acc.mu case NegInf => NegInf case Fin(s) => Num(s) case PosInf => PosInf,
        Num(acc.z), Num(acc.u), eps, Num(if NanAmong(rows) then 1.0 else 0.0)]))
  {
    MeansIs(eps, t);
    PlanIsExpected(e, p, eps);
    NumbersAreClean(Leaves(p), |Leaves(p)|);
    NanAmongIs(Leaves(p));
  }

  /** The answer, whatever the plan: NaN when some row without a NULL held one, NULL when no row carries weight, and
      otherwise the soft mean of the rows that hold numbers. */
  lemma {:induction false} PlanAnswer(e: real -> real, p: Plan, eps: F8, t: S.Temp)
    requires IsExp(e) && Means(eps, t)
    ensures
      var rows := Leaves(p);
      var st := Run(e, p, Some(eps));
      st.Ok? && Final(st.value) == Ok(
        if NanAmong(rows) then Nan
        else match S.SoftMean(e, Numbers(rows, |rows|), t)
          case None => Null
          case Some(m) => Mean(m))
  {
    MeansIs(eps, t);
    NumbersAreClean(Leaves(p), |Leaves(p)|);
    NanAmongIs(Leaves(p));
    PlanIsExpected(e, p, eps);
    if AnyQualifies(Leaves(p)) {
      DecodeEncode(Expected(e, Leaves(p), t), eps);
    } else {
      NothingExpected(e, Leaves(p), t);
    }
  }

  /** A row without a NULL is refused when the group has had another temperature, and an array that is not five long is
      refused by every support function. */
  lemma {:induction false} Misused(e: real -> real, p: Plan, eps: F8, t: S.Temp, row: SqlRow, other: F8, u: S.Temp,
                                   wrong: State, right: State)
    requires IsExp(e) && Means(eps, t) && Means(other, u) && eps != other && NotNull(row)
    requires Run(e, p, Some(eps)) == Ok(Some(right)) && |wrong| != 5
    ensures SfuncSpec(e, Some(right), row, Some(other)) == Err(EpsChanged)
    ensures SfuncSpec(e, Some(wrong), row, Some(eps)) == Err(MalformedState)
    ensures CombineSpec(e, Some(wrong), Some(right)) == CombineSpec(e, Some(right), Some(wrong)) == Err(MalformedState)
    ensures Final(Some(wrong)) == Err(MalformedState)
  {
    MeansIs(eps, t);
    MeansIs(other, u);
    PlanState(e, p, eps, t);
  }

  /** So are two partial states of different temperatures. */
  lemma {:induction false} NotCombined(e: real -> real, p: Plan, eps: F8, t: S.Temp, q: Plan, other: F8, u: S.Temp,
                                       a: State, b: State)
    requires IsExp(e) && Means(eps, t) && Means(other, u) && eps != other
    requires Run(e, p, Some(eps)) == Ok(Some(a)) && Run(e, q, Some(other)) == Ok(Some(b))
    ensures CombineSpec(e, Some(a), Some(b)) == Err(EpsChanged)
  {
    MeansIs(eps, t);
    MeansIs(other, u);
    PlanState(e, p, eps, t);
    PlanState(e, q, other, u);
  }

  /** No meaning: NaN, minus infinity, and the negative numbers. */
  ghost predicate OutOfDomain(eps: F8) {
    eps == NaN || eps == NegInf || (eps.Num? && eps.r < 0.0)
  }

  /** A bad temperature argument is reported exactly when some row reaches the accumulator. */
  lemma {:induction false} BadEps(e: real -> real, p: Plan, eps: Option<F8>)
    requires eps == None || OutOfDomain(eps.value)
    ensures
      var rows := Leaves(p);
      Run(e, p, eps) ==
        if exists i :: 0 <= i < |rows| && NotNull(rows[i]) then Err(if eps == None then EpsNull else EpsOutOfDomain)
        else Ok(None)
  {
    BadEpsIffUsed(e, p, eps);
    NanAmongIs(Leaves(p));
  }

  lemma {:induction false} BadEpsIffUsed(e: real -> real, p: Plan, eps: Option<F8>)
    requires eps.None? || TempOf(eps.value).None?
    ensures Run(e, p, eps) == if AnyQualifies(Leaves(p)) then Err(if eps.None? then EpsNull else EpsOutOfDomain)
                              else Ok(None)
  {
    match p
    case Scan(rows) =>
      BadEpsScan(e, rows, eps, |rows|);
      assert rows[..|rows|] == rows;
    case Combined(l, r) =>
      BadEpsIffUsed(e, l, eps);
      BadEpsIffUsed(e, r, eps);
      CleanAppend(Leaves(l), Leaves(r));
  }

  lemma {:induction false} BadEpsScan(e: real -> real, rows: seq<SqlRow>, eps: Option<F8>, n: nat)
    requires n <= |rows| && (eps.None? || TempOf(eps.value).None?)
    ensures ScanUpTo(e, rows, eps, n) == if AnyQualifies(rows[..n])
                                         then Err(if eps.None? then EpsNull else EpsOutOfDomain) else Ok(None)
  {
    if n > 0 {
      BadEpsScan(e, rows, eps, n - 1);
      assert rows[..n] == rows[..n - 1] + [rows[n - 1]];
      CleanAppend(rows[..n - 1], [rows[n - 1]]);
      OneRow(rows[n - 1]);
    }
  }

  /** Clean rows of a permutation are a permutation of the clean rows. */
  lemma {:induction false} CleanPermutation(a: seq<SqlRow>, b: seq<SqlRow>)
    requires multiset(a) == multiset(b)
    ensures multiset(Clean(a)) == multiset(Clean(b))
    decreases |a|
  {
    if a == [] {
      assert |multiset(b)| == 0;
    } else {
      var n := |a| - 1;
      var k := Bags.FindLast(a, b);
      CleanPermutation(a[..n], b[..k] + b[k + 1..]);
      assert a == a[..n] + [a[n]];
      assert b == b[..k] + ([b[k]] + b[k + 1..]);
      CleanAppend(a[..n], [a[n]]);
      CleanAppend(b[..k], [b[k]] + b[k + 1..]);
      CleanAppend([b[k]], b[k + 1..]);
      CleanAppend(b[..k], b[k + 1..]);
    }
  }

  lemma {:induction false} AnyFromMultiset(a: seq<SqlRow>, b: seq<SqlRow>)
    requires multiset(a) == multiset(b)
    ensures AnyNaN(a) ==> AnyNaN(b)
    ensures AnyQualifies(a) ==> AnyQualifies(b)
  {
    if AnyNaN(a) {
      var i :| 0 <= i < |a| && CarriesNaN(a[i]);
      assert a[i] in multiset(b);
    }
    if AnyQualifies(a) {
      var i :| 0 <= i < |a| && Qualifies(a[i]);
      assert a[i] in multiset(b);
    }
  }

  /** Two plans over the same bag of rows end in the same encoded state: neither the partition, nor the
      shape of the tree, nor the row order can be observed. */
  lemma {:induction false} PlanIrrelevant(e: real -> real, p: Plan, q: Plan, eps: F8, t: S.Temp)
    requires IsExp(e) && Means(eps, t)
    requires multiset(Leaves(p)) == multiset(Leaves(q))
    ensures Run(e, p, Some(eps)) == Run(e, q, Some(eps))
  {
    MeansIs(eps, t);
    var a, b := Leaves(p), Leaves(q);
    PlanIsExpected(e, p, eps);
    PlanIsExpected(e, q, eps);
    AnyFromMultiset(a, b);
    AnyFromMultiset(b, a);
    CleanPermutation(a, b);
    S.OrderIrrelevant(e, Clean(a), Clean(b), t);
    S.FoldIsClosed(e, Clean(a), t);
    S.FoldIsClosed(e, Clean(b), t);
  }
}
