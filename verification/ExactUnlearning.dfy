/** The maintained memory as the engine updates it in place (engine/bruce-core/src/crud.rs), and what holds
    of every run of it: deleting a record leaves the accumulator as if it had never been inserted. */
module ExactUnlearning {
  import opened Wrappers
  import opened Exponential
  import Bags
  import S = SoftAccumulator
  import M = MaskedAttention
  import opened IncrementalMemory

  /** `a + w * v`. */
  function ScaledAdd(a: seq<real>, w: real, v: seq<real>): (r: seq<real>)
    requires |a| == |v|
    ensures |r| == |a|
  {
    seq(|a|, c requires 0 <= c < |a| => a[c] + w * v[c])
  }

  lemma {:induction false} ScaledAddAt(a: seq<real>, w: real, v: seq<real>, c: nat)
    requires |a| == |v|
    ensures M.Comp(ScaledAdd(a, w, v), c) == M.Comp(a, c) + w * M.Comp(v, c)
  {
  }

  /** `k * a`. */
  function Times(a: seq<real>, k: real): (r: seq<real>)
    ensures |r| == |a|
  {
    seq(|a|, c requires 0 <= c < |a| => a[c] * k)
  }

  class Store {
    const q: Query
    var m: S.Score
    var num: seq<real>
    var den: real
    var live: Live
    var nOps: nat
    var nRescales: nat

    constructor (q: Query)
      ensures this.q == q && Snapshot() == EmptyMemory(q)
      ensures live == map[] && m == S.NegInf && den == 0.0 && nOps == 0 && nRescales == 0
    {
      this.q := q;
      m, num, den := S.NegInf, Zeros(q.dV), 0.0;
      live, nOps, nRescales := map[], 0, 0;
    }

    function St(): State
      reads this
    {
      State(m, num, den)
    }

    function Snapshot(): Memory
      reads this
    {
      Memory(St(), live, nOps, nRescales)
    }

    method Insert(e: real -> real, id: string, k: seq<real>, v: seq<real>) returns (r: Result<(), Error>)
      requires Reachable(e, q, Snapshot()) && Meaningful(q, k)
      modifies this
      ensures Inserted(e, q, old(Snapshot()), id, k, v, r, Snapshot())
      ensures r.Ok? ==> nOps == old(nOps) + 1 && nRescales == old(nRescales)
    {
      if |k| != |q.x| {
        return Err(DimensionMismatch(|q.x|, |k|));
      }
      if |v| != q.dV {
        return Err(DimensionMismatch(q.dV, |v|));
      }
      if id in live {
        return Err(DuplicateKey(id));
      }
      var s := ScoreOf(q.sim, q.x, k);
      if q.eps.Zero? {
        InsertTropical(e, id, s, v);
      } else {
        InsertContinuous(e, id, s, v);
      }
      nOps := nOps + 1;
      return Ok(());
    }

    method InsertContinuous(e: real -> real, id: string, s: S.Score, v: seq<real>)
      requires q.eps.Valid() && !q.eps.Zero? && s.Fin? && m != S.PosInf && |v| == |num|
      modifies this
      ensures St() == InsertState(e, old(St()), s, v, q.eps)
      ensures live == old(live)[id := Entry(s, v)] && nOps == old(nOps) && nRescales == old(nRescales)
    {
      ghost var before := St();
      TimesOne(num, den);
      if S.Less(m, s) {
        if m.Fin? {
          var factor := Over(e, m.s, s.s, q.eps);
          num := Times(num, factor);
          den := den * factor;
        }
        m := s;
      }
      var w := Over(e, s.s, m.s, q.eps);
      num := ScaledAdd(num, w, v);
      den := den + w;
      live := live[id := Entry(s, v)];
      InsertContinuousState(e, before, s, v, q.eps);
    }

    method InsertTropical(e: real -> real, id: string, s: S.Score, v: seq<real>)
      requires q.eps.Zero? && s != S.PosInf && m != S.PosInf && |v| == |num|
      modifies this
      ensures St() == InsertState(e, old(St()), s, v, q.eps)
      ensures live == old(live)[id := Entry(s, v)] && nOps == old(nOps) && nRescales == old(nRescales)
    {
      ghost var before := St();
      if s == S.NegInf {
        live := live[id := Entry(s, v)];
        StateByComponents(St(), InsertState(e, before, s, v, q.eps));
        return;
      }
      if S.Less(m, s) {
        num := Zeros(|num|);
        den := 0.0;
        m := s;
      }
      if s == m {
        num := ScaledAdd(num, 1.0, v);
        den := den + 1.0;
      }
      live := live[id := Entry(s, v)];
      InsertTropicalState(e, before, s, v, q.eps);
    }

    method Delete(e: real -> real, id: string) returns (r: Result<(), Error>)
      requires IsExp(e) && Reachable(e, q, Snapshot())
      modifies this
      ensures Deleted(e, q, old(Snapshot()), id, r, Snapshot())
      ensures r.Ok? ==> id in old(live) && nOps == old(nOps) + 1
      ensures r.Ok? && q.eps.Zero? ==>
        nRescales == old(nRescales) + if old(live)[id].s == old(m) && old(den) == 1.0 then 1 else 0
      ensures r.Ok? && !q.eps.Zero? ==>
        && old(live)[id].s.Fin? && old(m).Fin?
        && nRescales == old(nRescales) + if old(live)[id].s.s >= old(m).s - 0.000000000001 then 1 else 0
    {
      if id !in live {
        return Err(KeyNotFound(id));
      }
      AnchorFinite(e, q, Snapshot(), id);
      var x := live[id];
      live := live - {id};
      if q.eps.Zero? {
        DeleteTropical(e, x);
      } else {
        DeleteContinuous(e, x);
      }
      nOps := nOps + 1;
      return Ok(());
    }

    method Subtract(w: real, v: seq<real>)
      requires |v| == |num|
      modifies `num, `den
      ensures St() == DropState(old(St()), w, v)
    {
      num := ScaledAdd(num, -w, v);
      den := den - w;
    }

    method DeleteContinuous(e: real -> real, x: Entry)
      requires IsExp(e) && q.eps.Valid() && !q.eps.Zero? && AllFinite(live) && x.s.Fin? && m.Fin?
      requires |num| == q.dV == |x.v| && forall k :: k in live ==> |live[k].v| == q.dV
      modifies `m, `num, `den, `nRescales
      ensures DeleteState(e, old(St()), x, live, q.eps, St())
      ensures nRescales == old(nRescales) + (if Rescales(old(View(St(), 0)), x.s, q.eps) then 1 else 0)
    {
      ghost var before := St();
      var w := Over(e, x.s.s, m.s, q.eps);
      var stale := x.s.s >= m.s - SLACK;
      Subtract(w, x.v);
      if stale {
        Rescale(e);
        RescaledIsDeleted(e, before, x, live, q.eps, St());
      } else {
        SubtractedIsDeleted(e, before, x, live, q.eps);
      }
    }

    method DeleteTropical(e: real -> real, x: Entry)
      requires q.eps.Zero? && |num| == q.dV == |x.v| && forall k :: k in live ==> |live[k].v| == q.dV
      modifies `m, `num, `den, `nRescales
      ensures DeleteState(e, old(St()), x, live, q.eps, St())
      ensures nRescales == old(nRescales) + (if Rescales(old(View(St(), 0)), x.s, q.eps) then 1 else 0)
    {
      ghost var before := St();
      if x.s == m {
        num := ScaledAdd(num, -1.0, x.v);
        den := den - 1.0;
        if den == 0.0 {
          RescaleTropical(e);
          RescaledIsDeleted(e, before, x, live, q.eps, St());
          return;
        }
      }
      DeleteTropicalState(e, before, x, live, q.eps);
    }

    method Rescale(e: real -> real)
      requires IsExp(e) && q.eps.Valid() && !q.eps.Zero? && AllFinite(live) && |num| == q.dV
      requires forall k :: k in live ==> |live[k].v| == q.dV
      modifies `m, `num, `den, `nRescales
      ensures |num| == q.dV && nRescales == old(nRescales) + 1
      ensures forall c: nat :: View(St(), c) == Rescale1(e, LiveRows(live, c), q.eps)
    {
      nRescales := nRescales + 1;
      if live == map[] {
        m, num, den := S.NegInf, Zeros(|num|), 0.0;
        NothingLive(e, live, St(), q.eps);
        return;
      }
      var newM, keys := MaxScore(live);
      TopIsLive(live, keys, newM);
      var num2, den2, seen := WeighLive(e, live, newM, q.eps, |num|);
      m, num, den := newM, num2, den2;
      forall c: nat ensures View(St(), c) == Rescale1(e, LiveRows(live, c), q.eps) {
        RescaleDone(e, live, keys, seen, newM, c, q.eps);
      }
    }

    method RescaleTropical(e: real -> real)
      requires q.eps.Zero? && |num| == q.dV
      requires forall k :: k in live ==> |live[k].v| == q.dV
      modifies `m, `num, `den, `nRescales
      ensures |num| == q.dV && nRescales == old(nRescales) + 1
      ensures forall c: nat :: View(St(), c) == Rescale1(e, LiveRows(live, c), q.eps)
    {
      nRescales := nRescales + 1;
      if live == map[] {
        m, num, den := S.NegInf, Zeros(|num|), 0.0;
        NothingLive(e, live, St(), q.eps);
        return;
      }
      var newM, keys := MaxScore(live);
      var num2, den2, seen := CountLive(live, newM, |num|);
      m, num, den := newM, num2, den2;
      forall c: nat ensures View(St(), c) == Rescale1(e, LiveRows(live, c), q.eps) {
        CountDone(e, live, keys, seen, newM, c);
      }
    }

    /** Delete, then insert. A failing insert does not bring the deleted record back. */
    method Update(e: real -> real, id: string, k: seq<real>, v: seq<real>) returns (r: Result<(), Error>)
      requires IsExp(e) && Reachable(e, q, Snapshot()) && Meaningful(q, k)
      modifies this
      ensures Updated(e, q, old(Snapshot()), id, k, v, r, Snapshot())
    {
      r := Delete(e, id);
      if r.Err? {
        return;
      }
      DeleteReachable(e, q, old(Snapshot()), id, Snapshot());
      ghost var mid := Snapshot();
      r := Insert(e, id, k, v);
      assert UpdatedVia(e, q, old(Snapshot()), id, k, v, r, Snapshot(), mid);
    }

    /** The maintained answer. */
    method Output() returns (out: seq<real>)
      ensures out == OutputOf(St())
    {
      if den <= 0.0 {
        return Zeros(|num|);
      }
      return seq(|num|, c requires 0 <= c < |num| reads this => if den == 0.0 then 0.0 else num[c] / den);
    }
  }

  function OutputOf(st: State): seq<real> {
    if st.den <= 0.0 then Zeros(|st.num|) else seq(|st.num|, c requires 0 <= c < |st.num| => st.num[c] / st.den)
  }

  // ------------------------------------------------------------------ the rescale loops

  /** One step of a walk over a set: `k` moves from what is left to what was seen. */
  lemma {:induction false} WalkOne(all: set<string>, todo: set<string>, seen: seq<string>, k: string)
    requires todo <= all && k in todo && multiset(seen) == multiset(all - todo)
    ensures multiset(seen + [k]) == multiset(all - (todo - {k}))
  {
    assert all - (todo - {k}) == (all - todo) + {k};
  }

  /** The largest live score, walking the map in any order. */
  method MaxScore(live: Live) returns (top: S.Score, ghost keys: seq<string>)
    ensures Lists(keys, live) && forall c: nat :: top == S.Top(Rows(live, keys, c))
  {
    top := S.NegInf;
    keys := [];
    var todo := live.Keys;
    while todo != {}
      invariant todo <= live.Keys && multiset(keys) == multiset(live.Keys - todo)
      invariant forall c: nat :: top == S.Top(Rows(live, keys, c))
      decreases todo
    {
      var k :| k in todo;
      TopSnoc(live, keys, k);
      top := S.Larger(top, live[k].s);
      WalkOne(live.Keys, todo, keys, k);
      todo := todo - {k};
      keys := keys + [k];
    }
    assert live.Keys - todo == live.Keys;
  }

  lemma {:induction false} TopSnoc(live: Live, keys: seq<string>, k: string)
    requires k in live
    ensures forall c: nat :: S.Top(Rows(live, keys + [k], c)) == S.Larger(S.Top(Rows(live, keys, c)), live[k].s)
  {
    forall c: nat ensures S.Top(Rows(live, keys + [k], c)) == S.Larger(S.Top(Rows(live, keys, c)), live[k].s) {
      RowsSnoc(live, keys, k, c);
      assert (Rows(live, keys, c) + [RowAt(live, k, c)])[..|keys|] == Rows(live, keys, c);
    }
  }

  /** The weight sums of the live records against `m`. */
  method WeighLive(e: real -> real, live: Live, m: S.Score, eps: S.Temp, dV: nat)
    returns (num: seq<real>, den: real, ghost seen: seq<string>)
    requires IsExp(e) && eps.Valid() && !eps.Zero? && AllFinite(live) && m.Fin?
    requires forall k :: k in live ==> |live[k].v| == dV
    ensures |num| == dV && Lists(seen, live)
    ensures forall c: nat :: S.Mass(den, M.Comp(num, c)) == S.Total(e, Rows(live, seen, c), m, eps)
  {
    var todo := live.Keys;
    num, den, seen := Zeros(dV), 0.0, [];
    while todo != {}
      invariant todo <= live.Keys && multiset(seen) == multiset(live.Keys - todo) && |num| == dV
      invariant forall c: nat :: S.Mass(den, M.Comp(num, c)) == S.Total(e, Rows(live, seen, c), m, eps)
      decreases todo
    {
      var k :| k in todo;
      var w := Over(e, live[k].s.s, m.s, eps);
      WeighOne(e, live, seen, k, m, eps, num, den);
      num := ScaledAdd(num, w, live[k].v);
      den := den + w;
      WalkOne(live.Keys, todo, seen, k);
      todo := todo - {k};
      seen := seen + [k];
    }
    assert live.Keys - todo == live.Keys;
  }

  /** How many live records score exactly `m`, and the sum of their values. */
  method CountLive(live: Live, m: S.Score, dV: nat) returns (num: seq<real>, den: real, ghost seen: seq<string>)
    requires forall k :: k in live ==> |live[k].v| == dV
    ensures |num| == dV && Lists(seen, live)
    ensures forall c: nat :: S.Mass(den, M.Comp(num, c)) == CountAt(Rows(live, seen, c), m, |seen|)
  {
    var todo := live.Keys;
    num, den, seen := Zeros(dV), 0.0, [];
    while todo != {}
      invariant todo <= live.Keys && multiset(seen) == multiset(live.Keys - todo) && |num| == dV
      invariant forall c: nat :: S.Mass(den, M.Comp(num, c)) == CountAt(Rows(live, seen, c), m, |seen|)
      decreases todo
    {
      var k :| k in todo;
      CountOne(live, seen, k, m, num, den);
      if live[k].s == m {
        num := ScaledAdd(num, 1.0, live[k].v);
        den := den + 1.0;
      }
      WalkOne(live.Keys, todo, seen, k);
      todo := todo - {k};
      seen := seen + [k];
    }
    assert live.Keys - todo == live.Keys;
  }

  lemma {:induction false} NothingLive(e: real -> real, live: Live, st: State, eps: S.Temp)
    requires eps.Valid() && live == map[] && st == State(S.NegInf, Zeros(|st.num|), 0.0)
    ensures forall c: nat :: View(st, c) == Rescale1(e, LiveRows(live, c), eps)
  {
    forall c: nat ensures View(st, c) == Rescale1(e, LiveRows(live, c), eps) {
      LiveRowsScores(live, c);
    }
  }

  lemma {:induction false} TopIsLive(live: Live, keys: seq<string>, top: S.Score)
    requires Lists(keys, live) && forall c: nat :: top == S.Top(Rows(live, keys, c))
    requires live != map[] && AllFinite(live)
    ensures top.Fin?
  {
    RowsPermutation(live, keys, Bags.Enum(live.Keys), 0);
    S.TopPermutation(Rows(live, keys, 0), LiveRows(live, 0));
    LiveRowsScores(live, 0);
    TopOfFinite(LiveRows(live, 0));
  }

  lemma {:induction false} WeighOne(e: real -> real, live: Live, seen: seq<string>, k: string, m: S.Score, eps: S.Temp,
                                    num: seq<real>, den: real)
    requires IsExp(e) && eps.Valid() && !eps.Zero? && k in live && live[k].s.Fin? && m.Fin?
    requires |num| == |live[k].v|
    requires forall c: nat :: S.Mass(den, M.Comp(num, c)) == S.Total(e, Rows(live, seen, c), m, eps)
    ensures
      var w := Over(e, live[k].s.s, m.s, eps);
      forall c: nat ::
        S.Mass(den + w, M.Comp(ScaledAdd(num, w, live[k].v), c)) == S.Total(e, Rows(live, seen + [k], c), m, eps)
  {
    hide *;
    var w := Over(e, live[k].s.s, m.s, eps);
    forall c: nat
      ensures S.Mass(den + w, M.Comp(ScaledAdd(num, w, live[k].v), c)) == S.Total(e, Rows(live, seen + [k], c), m, eps)
    {
      WeighOneAt(e, live, seen, k, m, eps, c);
      ScaledAddAt(num, w, live[k].v, c);
    }
  }

  lemma {:induction false} WeighOneAt(e: real -> real, live: Live, seen: seq<string>, k: string, m: S.Score, eps: S.Temp,
                                      c: nat)
    requires IsExp(e) && eps.Valid() && !eps.Zero? && k in live && live[k].s.Fin? && m.Fin?
    ensures
      var w, t := Over(e, live[k].s.s, m.s, eps), S.Total(e, Rows(live, seen, c), m, eps);
      S.Total(e, Rows(live, seen + [k], c), m, eps) == S.Mass(t.z + w, t.u + w * M.Comp(live[k].v, c))
  {
    hide S.Weight, S.Total, Over, Rows, IsExp;
    RowsSnoc(live, seen, k, c);
    S.TotalAppend(e, Rows(live, seen, c), [RowOf(live[k], c)], m, eps);
    S.TotalOne(e, RowOf(live[k], c), m, eps);
    OverIsWeight(e, live[k].s.s, m.s, eps);
  }

  lemma {:induction false} RescaleDone(e: real -> real, live: Live, keys: seq<string>, seen: seq<string>,
                                       m: S.Score, c: nat, eps: S.Temp)
    requires eps.Valid() && !eps.Zero? && live != map[] && Lists(keys, live) && Lists(seen, live)
    requires m == S.Top(Rows(live, keys, c))
    ensures
      var t := S.Total(e, Rows(live, seen, c), m, eps);
      S.Acc(m, t.z, t.u) == Rescale1(e, LiveRows(live, c), eps)
  {
    LiveRowsScores(live, c);
    ScratchOrder(e, live, keys, c, eps);
    ScratchOrder(e, live, seen, c, eps);
  }

  lemma {:induction false} CountOne(live: Live, seen: seq<string>, k: string, m: S.Score, num: seq<real>, den: real)
    requires k in live && |num| == |live[k].v|
    requires forall c: nat :: S.Mass(den, M.Comp(num, c)) == CountAt(Rows(live, seen, c), m, |seen|)
    ensures
      var hit := live[k].s == m;
      var num2, den2 := if hit then ScaledAdd(num, 1.0, live[k].v) else num, if hit then den + 1.0 else den;
      forall c: nat :: S.Mass(den2, M.Comp(num2, c)) == CountAt(Rows(live, seen + [k], c), m, |seen| + 1)
  {
    var hit := live[k].s == m;
    var num2, den2 := if hit then ScaledAdd(num, 1.0, live[k].v) else num, if hit then den + 1.0 else den;
    forall c: nat ensures S.Mass(den2, M.Comp(num2, c)) == CountAt(Rows(live, seen + [k], c), m, |seen| + 1) {
      CountAgree(Rows(live, seen + [k], c), Rows(live, seen, c), m, |seen|);
      if hit {
        ScaledAddAt(num, 1.0, live[k].v, c);
      }
    }
  }

  lemma {:induction false} CountAgree(a: seq<S.Row>, b: seq<S.Row>, m: S.Score, n: nat)
    requires n <= |a| && n <= |b| && forall i :: 0 <= i < n ==> a[i] == b[i]
    ensures CountAt(a, m, n) == CountAt(b, m, n)
  {
    if n > 0 {
      CountAgree(a, b, m, n - 1);
    }
  }

  lemma {:induction false} CountDone(e: real -> real, live: Live, keys: seq<string>, seen: seq<string>, m: S.Score,
                                     c: nat)
    requires live != map[] && Lists(keys, live) && Lists(seen, live)
    requires m == S.Top(Rows(live, keys, c))
    ensures
      var t := CountAt(Rows(live, seen, c), m, |seen|);
      S.Acc(m, t.z, t.u) == Rescale1(e, LiveRows(live, c), S.Zero)
  {
    LiveRowsScores(live, c);
    ScratchOrder(e, live, keys, c, S.Zero);
    ScratchOrder(e, live, seen, c, S.Zero);
    CountPermutation(e, Rows(live, seen, c), LiveRows(live, c), m);
  }

  lemma {:induction false} RescaledIsDeleted(e: real -> real, st: State, x: Entry, rest: Live, eps: S.Temp, st2: State)
    requires eps.Valid() && (!eps.Zero? ==> x.s.Fin? && st.m.Fin?) && |st2.num| == |st.num|
    requires Rescales(View(st, 0), x.s, eps)
    requires forall c: nat :: View(st2, c) == Rescale1(e, LiveRows(rest, c), eps)
    ensures DeleteState(e, st, x, rest, eps, st2)
  {
    forall c: nat ensures View(st2, c) == RestComponent(e, st, x, rest, c, eps) {
    }
  }

  lemma {:induction false} SubtractedIsDeleted(e: real -> real, st: State, x: Entry, rest: Live, eps: S.Temp)
    requires eps.Valid() && !eps.Zero? && x.s.Fin? && st.m.Fin? && |x.v| == |st.num|
    requires !Rescales(View(st, 0), x.s, eps)
    ensures DeleteState(e, st, x, rest, eps, DropState(st, Over(e, x.s.s, st.m.s, eps), x.v))
  {
    var st2 := DropState(st, Over(e, x.s.s, st.m.s, eps), x.v);
    forall c: nat ensures View(st2, c) == RestComponent(e, st, x, rest, c, eps) {
      DropStateAt(st, Over(e, x.s.s, st.m.s, eps), x.v, c);
    }
  }

  /** Re-base and add, on the whole state. */
  function RaiseState(st: State, m: S.Score, k: real, w: real, v: seq<real>): (st2: State)
    requires |v| == |st.num|
  {
    State(m, ScaledAdd(Times(st.num, k), w, v), st.den * k + w)
  }

  lemma {:induction false} RaiseStateAt(st: State, m: S.Score, k: real, w: real, v: seq<real>, c: nat)
    requires |v| == |st.num|
    ensures View(RaiseState(st, m, k, w, v), c) == Raise(View(st, c), m, k, w, M.Comp(v, c))
  {
  }

  /** Subtract, on the whole state. */
  function DropState(st: State, w: real, v: seq<real>): (st2: State)
    requires |v| == |st.num|
  {
    State(st.m, ScaledAdd(st.num, -w, v), st.den - w)
  }

  lemma {:induction false} DropStateAt(st: State, w: real, v: seq<real>, c: nat)
    requires |v| == |st.num|
    ensures View(DropState(st, w, v), c) == Drop(View(st, c), w, M.Comp(v, c))
  {
    ScaledAddAt(st.num, -w, v, c);
    assert (-w) * M.Comp(v, c) == -(w * M.Comp(v, c));
  }

  lemma {:induction false} TimesOne(a: seq<real>, x: real)
    ensures Times(a, 1.0) == a && x * 1.0 == x
  {
  }

  /** The in-place update of the continuous insert is the specified one. */
  lemma {:induction false} InsertContinuousState(e: real -> real, st: State, s: S.Score, v: seq<real>, eps: S.Temp)
    requires eps.Valid() && !eps.Zero? && s.Fin? && st.m != S.PosInf && |v| == |st.num|
    ensures
      var top := S.Larger(st.m, s);
      var k := if S.Less(st.m, s) && st.m.Fin? then Over(e, st.m.s, s.s, eps) else 1.0;
      InsertState(e, st, s, v, eps) == RaiseState(st, top, k, Over(e, s.s, top.s, eps), v)
  {
    var top := S.Larger(st.m, s);
    var k := if S.Less(st.m, s) && st.m.Fin? then Over(e, st.m.s, s.s, eps) else 1.0;
    var w := Over(e, s.s, top.s, eps);
    forall c: nat ensures View(RaiseState(st, top, k, w, v), c) == View(InsertState(e, st, s, v, eps), c) {
      RaiseStateAt(st, top, k, w, v, c);
    }
    StateByComponents(RaiseState(st, top, k, w, v), InsertState(e, st, s, v, eps));
  }

  /** The in-place update of the tropical insert is the specified one. */
  lemma {:induction false} InsertTropicalState(e: real -> real, st: State, s: S.Score, v: seq<real>, eps: S.Temp)
    requires eps.Zero? && s.Fin? && st.m != S.PosInf && |v| == |st.num|
    ensures
      var a := if S.Less(st.m, s) then State(s, Zeros(|st.num|), 0.0) else st;
      InsertState(e, st, s, v, eps) == if s == a.m then State(a.m, ScaledAdd(a.num, 1.0, v), a.den + 1.0) else a
  {
    var a := if S.Less(st.m, s) then State(s, Zeros(|st.num|), 0.0) else st;
    var st2 := if s == a.m then State(a.m, ScaledAdd(a.num, 1.0, v), a.den + 1.0) else a;
    forall c: nat ensures View(st2, c) == View(InsertState(e, st, s, v, eps), c) {
      ScaledAddAt(a.num, 1.0, v, c);
    }
    StateByComponents(st2, InsertState(e, st, s, v, eps));
  }

  /** The in-place update of a tropical delete that needs no rescale. */
  lemma {:induction false} DeleteTropicalState(e: real -> real, st: State, x: Entry, rest: Live, eps: S.Temp)
    requires eps.Zero? && |x.v| == |st.num| && !Rescales(View(st, 0), x.s, eps)
    ensures DeleteState(e, st, x, rest, eps,
              if x.s == st.m then State(st.m, ScaledAdd(st.num, -1.0, x.v), st.den - 1.0) else st)
  {
    var st2 := if x.s == st.m then State(st.m, ScaledAdd(st.num, -1.0, x.v), st.den - 1.0) else st;
    forall c: nat ensures View(st2, c) == RestComponent(e, st, x, rest, c, eps) {
      ScaledAddAt(st.num, -1.0, x.v, c);
    }
  }

  lemma {:induction false} StateByComponents(a: State, b: State)
    requires |a.num| == |b.num| && forall c: nat :: View(a, c) == View(b, c)
    ensures a == b
  {
    assert View(a, 0) == View(b, 0);
    forall c | 0 <= c < |a.num| ensures a.num[c] == b.num[c] {
      assert View(a, c) == View(b, c);
    }
  }

  // ------------------------------------------------------------------ update

  ghost predicate UpdatedVia(e: real -> real, q: Query, mem: Memory, id: string, k: seq<real>, v: seq<real>,
                             r: Result<(), Error>, mem2: Memory, mid: Memory)
    requires Reachable(e, q, mem) && Meaningful(q, k)
  {
    && Deleted(e, q, mem, id, Ok(()), mid)
    && Reachable(e, q, mid)
    && Inserted(e, q, mid, id, k, v, r, mem2)
  }

  ghost predicate Updated(e: real -> real, q: Query, mem: Memory, id: string, k: seq<real>, v: seq<real>,
                          r: Result<(), Error>, mem2: Memory)
    requires Reachable(e, q, mem) && Meaningful(q, k)
  {
    if id !in mem.live then r == Err(KeyNotFound(id)) && mem2 == mem
    else exists mid :: UpdatedVia(e, q, mem, id, k, v, r, mem2, mid)
  }

  /** A failed update leaves the memory alone exactly when the record was not there to begin with: an
      update of a live record that fails on a dimension has already dropped it. */
  lemma {:induction false} FailedUpdateKeepsIff(e: real -> real, q: Query, mem: Memory, id: string, k: seq<real>,
                                                v: seq<real>, r: Result<(), Error>, mem2: Memory)
    requires Reachable(e, q, mem) && Meaningful(q, k) && Updated(e, q, mem, id, k, v, r, mem2)
    ensures r.Err? <==> id !in mem.live || |k| != |q.x| || |v| != q.dV
    ensures r.Err? ==> (mem2 == mem <==> id !in mem.live)
    ensures r.Err? && id in mem.live ==> mem2.live == mem.live - {id}
  {
  }

  // ------------------------------------------------------------------ runs

  lemma {:induction false} InsertReachable(e: real -> real, q: Query, mem: Memory, id: string, k: seq<real>,
                                           v: seq<real>, mem2: Memory)
    requires IsExp(e) && Reachable(e, q, mem) && Meaningful(q, k)
    requires Inserted(e, q, mem, id, k, v, Ok(()), mem2)
    ensures Reachable(e, q, mem2)
  {
    var s := ScoreOf(q.sim, q.x, k);
    assert View(mem2.st, 0) == Insert1(e, View(mem.st, 0), S.Row(s, M.Comp(v, 0)), q.eps);
    if !q.eps.Zero? {
      InsertKeepsExact(e, q, mem, id, k, v, mem2);
    }
  }

  lemma {:induction false} DeleteReachable(e: real -> real, q: Query, mem: Memory, id: string, mem2: Memory)
    requires IsExp(e) && Reachable(e, q, mem) && id in mem.live && Deleted(e, q, mem, id, Ok(()), mem2)
    ensures Reachable(e, q, mem2)
  {
    AnchorFinite(e, q, mem, id);
    LiveRowsScores(mem2.live, 0);
    TopNotPosInf(LiveRows(mem2.live, 0));
    assert View(mem2.st, 0) == RestComponent(e, mem.st, mem.live[id], mem2.live, 0, q.eps);
    if !q.eps.Zero? {
      DeleteExactIff(e, q, mem, id, mem2);
    }
  }

  datatype Op =
    | Put(id: string, k: seq<real>, v: seq<real>)
    | Remove(id: string)
    | Replace(id: string, k: seq<real>, v: seq<real>)

  /** The score an operation brings in is finite, whatever the temperature. */
  predicate FiniteOp(q: Query, op: Op) {
    op.Remove? || (|op.k| == |q.x| ==> ScoreOf(q.sim, q.x, op.k).Fin?)
  }

  predicate OnlyFinite(q: Query, ops: seq<Op>) {
    forall i :: 0 <= i < |ops| ==> FiniteOp(q, ops[i])
  }

  predicate MeaningfulOp(q: Query, op: Op) {
    op.Remove? || Meaningful(q, op.k)
  }

  ghost predicate Step(e: real -> real, q: Query, mem: Memory, op: Op, r: Result<(), Error>, mem2: Memory)
    requires Reachable(e, q, mem) && MeaningfulOp(q, op)
  {
    match op
    case Put(id, k, v) => Inserted(e, q, mem, id, k, v, r, mem2)
    case Remove(id) => Deleted(e, q, mem, id, r, mem2)
    case Replace(id, k, v) => Updated(e, q, mem, id, k, v, r, mem2)
  }

  /** `mem` is reached from the empty memory by the operations `ops`. */
  ghost predicate Runs(e: real -> real, q: Query, ops: seq<Op>, mem: Memory)
    decreases |ops|
  {
    if ops == [] then mem == EmptyMemory(q)
    else
      var op := ops[|ops| - 1];
      MeaningfulOp(q, op) && exists before, r ::
        Runs(e, q, ops[..|ops| - 1], before) && Reachable(e, q, before) && Step(e, q, before, op, r, mem)
  }

  lemma {:induction false} StepExact(e: real -> real, q: Query, mem: Memory, op: Op, r: Result<(), Error>, mem2: Memory)
    requires IsExp(e) && Reachable(e, q, mem) && FiniteOp(q, op) && MeaningfulOp(q, op)
    requires Step(e, q, mem, op, r, mem2)
    requires AllFinite(mem.live) && Exact(e, mem.st, mem.live, q.eps)
    ensures Reachable(e, q, mem2) && AllFinite(mem2.live) && Exact(e, mem2.st, mem2.live, q.eps)
  {
    match op
    case Put(id, k, v) => PutExact(e, q, mem, id, k, v, r, mem2);
    case Remove(id) => RemoveExact(e, q, mem, id, r, mem2);
    case Replace(id, k, v) =>
      if id in mem.live {
        var mid :| UpdatedVia(e, q, mem, id, k, v, r, mem2, mid);
        RemoveExact(e, q, mem, id, Ok(()), mid);
        PutExact(e, q, mid, id, k, v, r, mem2);
      }
  }

  lemma {:induction false} PutExact(e: real -> real, q: Query, mem: Memory, id: string, k: seq<real>, v: seq<real>,
                                    r: Result<(), Error>, mem2: Memory)
    requires IsExp(e) && Reachable(e, q, mem) && FiniteOp(q, Put(id, k, v)) && Inserted(e, q, mem, id, k, v, r, mem2)
    requires AllFinite(mem.live) && Exact(e, mem.st, mem.live, q.eps)
    ensures Reachable(e, q, mem2) && AllFinite(mem2.live) && Exact(e, mem2.st, mem2.live, q.eps)
  {
    if r.Ok? {
      InsertReachable(e, q, mem, id, k, v, mem2);
      InsertKeepsExact(e, q, mem, id, k, v, mem2);
    }
  }

  lemma {:induction false} RemoveExact(e: real -> real, q: Query, mem: Memory, id: string, r: Result<(), Error>,
                                       mem2: Memory)
    requires IsExp(e) && Reachable(e, q, mem) && Deleted(e, q, mem, id, r, mem2)
    requires AllFinite(mem.live) && Exact(e, mem.st, mem.live, q.eps)
    ensures Reachable(e, q, mem2) && AllFinite(mem2.live) && Exact(e, mem2.st, mem2.live, q.eps)
  {
    if id in mem.live {
      DeleteReachable(e, q, mem, id, mem2);
      DeleteExactIff(e, q, mem, id, mem2);
      FiniteIsSafe(q, mem.live, id);
    }
  }

  lemma {:induction false} FiniteIsSafe(q: Query, live: Live, id: string)
    requires id in live && AllFinite(live)
    ensures DeleteSafe(q, live, id)
  {
    var others := live.Keys - {id};
    if others == {} {
      assert live.Keys == others + {id};
    } else {
      var k :| k in others;
      assert live[k].s.Fin?;
    }
  }

  lemma {:induction false} EmptyExact(e: real -> real, q: Query)
    requires q.eps.Valid()
    ensures Reachable(e, q, EmptyMemory(q))
    ensures Exact(e, EmptyMemory(q).st, EmptyMemory(q).live, q.eps)
  {
    var mem := EmptyMemory(q);
    forall c: nat ensures View(mem.st, c) == Scratch(e, LiveRows(mem.live, c), q.eps) {
      LiveRowsScores(mem.live, c);
      assert S.Masses(e, [], S.NegInf, q.eps) == [];
    }
  }

  // ------------------------------------------------------------------ minus-infinite scores at temperature zero

  predicate AnyLive(live: Live) {
    exists k :: k in live && live[k].s.Fin?
  }

  /** The accumulator is exact, or it holds no maximum while no record with a finite score is live. */
  ghost predicate Sound(e: real -> real, q: Query, mem: Memory)
    requires q.eps.Valid()
  {
    Exact(e, mem.st, mem.live, q.eps) || (q.eps.Zero? && mem.st.m == S.NegInf && !AnyLive(mem.live))
  }

  lemma {:induction false} PutSound(e: real -> real, q: Query, mem: Memory, id: string, k: seq<real>, v: seq<real>,
                                    r: Result<(), Error>, mem2: Memory)
    requires IsExp(e) && Reachable(e, q, mem) && Meaningful(q, k) && Inserted(e, q, mem, id, k, v, r, mem2)
    requires Sound(e, q, mem)
    ensures Reachable(e, q, mem2) && Sound(e, q, mem2)
  {
    hide Exact, ScoreOf;
    if r.Ok? {
      InsertReachable(e, q, mem, id, k, v, mem2);
      if Exact(e, mem.st, mem.live, q.eps) {
        InsertKeepsExact(e, q, mem, id, k, v, mem2);
      } else if mem2.live[id].s.Fin? {
        FirstFinite(e, q, mem, id, k, v, mem2);
      } else {
        assert View(mem2.st, 0) == Insert1(e, View(mem.st, 0), S.Row(mem2.live[id].s, M.Comp(v, 0)), q.eps);
      }
    }
  }

  lemma {:induction false} FirstFiniteRow(e: real -> real, acc: S.Acc, rows: seq<S.Row>, r: S.Row)
    requires IsExp(e) && NoPosInf(rows) && !AnyFinite(rows) && acc.mu == S.NegInf && r.score.Fin?
    ensures Insert1(e, acc, r, S.Zero) == Scratch(e, rows + [r], S.Zero)
  {
    AnyFiniteIsTop(rows);
    TopNotPosInf(rows);
    InsertExact(e, rows, r, S.Zero);
  }

  /** A finite score after none: whatever the sums held is dropped. */
  lemma {:induction false} FirstFinite(e: real -> real, q: Query, mem: Memory, id: string, k: seq<real>, v: seq<real>,
                                       mem2: Memory)
    requires IsExp(e) && Reachable(e, q, mem) && Meaningful(q, k) && Inserted(e, q, mem, id, k, v, Ok(()), mem2)
    requires q.eps.Zero? && mem.st.m == S.NegInf && !AnyLive(mem.live) && mem2.live[id].s.Fin?
    ensures Exact(e, mem2.st, mem2.live, q.eps)
  {
    hide ScoreOf, Insert1, Scratch;
    var x := mem2.live[id];
    forall c: nat ensures View(mem2.st, c) == Scratch(e, LiveRows(mem2.live, c), q.eps) {
      var rows := LiveRows(mem.live, c);
      LiveRowsScores(mem.live, c);
      assert View(mem2.st, c) == Insert1(e, View(mem.st, c), RowOf(x, c), q.eps);
      FirstFiniteRow(e, View(mem.st, c), rows, RowOf(x, c));
      LiveRowsAdd(mem.live, id, x, c);
      ScratchPermutation(e, rows + [RowOf(x, c)], LiveRows(mem2.live, c), q.eps);
    }
  }

  lemma {:induction false} RemoveSound(e: real -> real, q: Query, mem: Memory, id: string, r: Result<(), Error>,
                                       mem2: Memory)
    requires IsExp(e) && Reachable(e, q, mem) && Deleted(e, q, mem, id, r, mem2) && Sound(e, q, mem)
    ensures Reachable(e, q, mem2) && Sound(e, q, mem2)
  {
    hide Exact;
    if id in mem.live {
      DeleteReachable(e, q, mem, id, mem2);
      if Exact(e, mem.st, mem.live, q.eps) {
        DeleteExactIff(e, q, mem, id, mem2);
      }
      if q.eps.Zero? && !AnyLive(mem2.live) {
        NoMaximumLeft(e, q, mem, id, mem2);
      }
    }
  }

  /** Deleting a record so that no finite score is left leaves no maximum. */
  lemma {:induction false} NoMaximumLeft(e: real -> real, q: Query, mem: Memory, id: string, mem2: Memory)
    requires IsExp(e) && Reachable(e, q, mem) && id in mem.live && Deleted(e, q, mem, id, Ok(()), mem2)
    requires Sound(e, q, mem) && q.eps.Zero? && !AnyLive(mem2.live)
    ensures mem2.st.m == S.NegInf
  {
    var x, rest := mem.live[id], LiveRows(mem2.live, 0);
    LiveRowsScores(mem2.live, 0);
    AnyFiniteIsTop(rest);
    TopNotPosInf(rest);
    assert View(mem2.st, 0) == RestComponent(e, mem.st, x, mem2.live, 0, q.eps);
    if Exact(e, mem.st, mem.live, q.eps) {
      var rows := rest + [RowOf(x, 0)];
      LiveRowsTake(mem.live, id, 0);
      assert mem.live - {id} == mem2.live;
      ScratchPermutation(e, LiveRows(mem.live, 0), rows, q.eps);
      S.TopAppend(rest, [RowOf(x, 0)]);
      assert S.Top([RowOf(x, 0)]) == x.s by {
        assert [RowOf(x, 0)][..0] == [];
      }
      assert View(mem.st, 0) == Scratch(e, rows, q.eps);
      S.TotalAppend(e, rest, [RowOf(x, 0)], x.s, q.eps);
      S.TotalOfVacant(e, rest, x.s, q.eps);
      S.TotalOne(e, RowOf(x, 0), x.s, q.eps);
    } else {
      assert !x.s.Fin?;
    }
  }

  lemma {:induction false} StepSound(e: real -> real, q: Query, mem: Memory, op: Op, r: Result<(), Error>, mem2: Memory)
    requires IsExp(e) && Reachable(e, q, mem) && MeaningfulOp(q, op) && Step(e, q, mem, op, r, mem2) && Sound(e, q, mem)
    ensures Reachable(e, q, mem2) && Sound(e, q, mem2)
  {
    hide Sound, Reachable;
    match op
    case Put(id, k, v) => PutSound(e, q, mem, id, k, v, r, mem2);
    case Remove(id) => RemoveSound(e, q, mem, id, r, mem2);
    case Replace(id, k, v) =>
      if id in mem.live {
        var mid :| UpdatedVia(e, q, mem, id, k, v, r, mem2, mid);
        RemoveSound(e, q, mem, id, Ok(()), mid);
        PutSound(e, q, mid, id, k, v, r, mem2);
      }
  }

  // ------------------------------------------------------------------ every run

  lemma {:induction false} RunSound(e: real -> real, q: Query, ops: seq<Op>, mem: Memory)
    requires IsExp(e) && q.eps.Valid() && Runs(e, q, ops, mem)
    ensures Reachable(e, q, mem) && Sound(e, q, mem)
    ensures OnlyFinite(q, ops) ==> AllFinite(mem.live) && Exact(e, mem.st, mem.live, q.eps)
    decreases |ops|
  {
    if ops == [] {
      EmptyExact(e, q);
    } else {
      hide Reachable, Sound, Step, Exact, FiniteOp;
      var n := |ops| - 1;
      var before, r :| Runs(e, q, ops[..n], before) && Reachable(e, q, before) && Step(e, q, before, ops[n], r, mem);
      RunSound(e, q, ops[..n], before);
      StepSound(e, q, before, ops[n], r, mem);
      if OnlyFinite(q, ops) {
        StepExact(e, q, before, ops[n], r, mem);
      }
    }
  }

  /** After every run of inserts, deletes and updates, failed ones included, the accumulator is the from-scratch
      accumulator of the live set: when only finite scores came in, and, with minus-infinite ones, which are possible at
      temperature zero, whenever a record with a finite score is live. */
  lemma {:induction false} RunExact(e: real -> real, q: Query, ops: seq<Op>, mem: Memory)
    requires IsExp(e) && q.eps.Valid() && Runs(e, q, ops, mem)
    ensures Reachable(e, q, mem)
    ensures OnlyFinite(q, ops) ==> AllFinite(mem.live)
    ensures OnlyFinite(q, ops) || AnyLive(mem.live) || !q.eps.Zero? ==> Exact(e, mem.st, mem.live, q.eps)
  {
    hide Exact;
    RunSound(e, q, ops, mem);
  }

  /** Exact unlearning: two runs that leave the same records live leave the same accumulator, bit for bit,
      whatever was inserted and deleted on the way, maximal scorers included. */
  lemma {:induction false} Unlearning(e: real -> real, q: Query, ops: seq<Op>, mem: Memory, ops2: seq<Op>, mem2: Memory)
    requires IsExp(e) && q.eps.Valid() && Runs(e, q, ops, mem) && Runs(e, q, ops2, mem2)
    requires mem.live == mem2.live
    requires (OnlyFinite(q, ops) && OnlyFinite(q, ops2)) || AnyLive(mem.live) || !q.eps.Zero?
    ensures mem.st == mem2.st
  {
    RunExact(e, q, ops, mem);
    RunExact(e, q, ops2, mem2);
    forall c: nat ensures View(mem.st, c) == View(mem2.st, c) {
      assert View(mem.st, c) == Scratch(e, LiveRows(mem.live, c), q.eps);
      assert View(mem2.st, c) == Scratch(e, LiveRows(mem2.live, c), q.eps);
    }
    StateByComponents(mem.st, mem2.st);
  }

  /** What an operation does to the live set. An update that fails on a dimension has already dropped the record. */
  function LiveAfter(q: Query, live: Live, op: Op): Live {
    match op
    case Put(id, k, v) =>
      if |k| == |q.x| && |v| == q.dV && id !in live then live[id := Entry(ScoreOf(q.sim, q.x, k), v)] else live
    case Remove(id) => live - {id}
    case Replace(id, k, v) =>
      if id !in live then live
      else if |k| == |q.x| && |v| == q.dV then live[id := Entry(ScoreOf(q.sim, q.x, k), v)]
      else live - {id}
  }

  function LiveAfterAll(q: Query, ops: seq<Op>): Live
    decreases |ops|
  {
    if ops == [] then map[] else LiveAfter(q, LiveAfterAll(q, ops[..|ops| - 1]), ops[|ops| - 1])
  }

  /** Which records a run leaves live, failed operations included. */
  lemma {:induction false} RunLive(e: real -> real, q: Query, ops: seq<Op>, mem: Memory)
    requires Runs(e, q, ops, mem)
    ensures mem.live == LiveAfterAll(q, ops)
    decreases |ops|
  {
    hide Reachable, ScoreOf, DeleteState;
    if ops != [] {
      var n := |ops| - 1;
      var before, r :| Runs(e, q, ops[..n], before) && Reachable(e, q, before) && Step(e, q, before, ops[n], r, mem);
      RunLive(e, q, ops[..n], before);
      StepLive(e, q, before, ops[n], r, mem);
    }
  }

  lemma {:induction false} StepLive(e: real -> real, q: Query, mem: Memory, op: Op, r: Result<(), Error>, mem2: Memory)
    requires Reachable(e, q, mem) && MeaningfulOp(q, op) && Step(e, q, mem, op, r, mem2)
    ensures mem2.live == LiveAfter(q, mem.live, op)
  {
    hide Reachable, ScoreOf, DeleteState;
    match op
    case Put(id, k, v) =>
    case Remove(id) =>
      if id !in mem.live {
        assert mem.live - {id} == mem.live;
      }
    case Replace(id, k, v) =>
      if id in mem.live {
        var mid :| UpdatedVia(e, q, mem, id, k, v, r, mem2, mid);
        if |k| == |q.x| {
          var x := Entry(ScoreOf(q.sim, q.x, k), v);
          assert (mem.live - {id})[id := x] == mem.live[id := x];
        }
      }
  }

  /** Inserting a fresh record and deleting it again restores the accumulator and the live set. */
  lemma {:induction false} InsertDelete(e: real -> real, q: Query, ops: seq<Op>, mem: Memory, id: string,
                                        k: seq<real>, v: seq<real>, mem1: Memory, mem2: Memory)
    requires IsExp(e) && q.eps.Valid() && Runs(e, q, ops, mem) && Reachable(e, q, mem) && Reachable(e, q, mem1)
    requires OnlyFinite(q, ops) && FiniteOp(q, Put(id, k, v))
    requires Inserted(e, q, mem, id, k, v, Ok(()), mem1) && Deleted(e, q, mem1, id, Ok(()), mem2)
    ensures mem2.st == mem.st && mem2.live == mem.live
  {
    RunExact(e, q, ops, mem);
    PutExact(e, q, mem, id, k, v, Ok(()), mem1);
    RemoveExact(e, q, mem1, id, Ok(()), mem2);
    assert mem2.live == mem.live;
    forall c: nat ensures View(mem.st, c) == View(mem2.st, c) {
      assert View(mem.st, c) == Scratch(e, LiveRows(mem.live, c), q.eps);
      assert View(mem2.st, c) == Scratch(e, LiveRows(mem2.live, c), q.eps);
    }
    StateByComponents(mem.st, mem2.st);
  }

  /** The maintained answer over a non-empty live set is the reference soft mean of the live records. */
  lemma {:induction false} OutputIsSoftMean(e: real -> real, q: Query, mem: Memory, c: nat)
    requires IsExp(e) && q.eps.Valid() && |mem.st.num| == q.dV && c < q.dV
    requires AllFinite(mem.live) && mem.live != map[] && Exact(e, mem.st, mem.live, q.eps)
    ensures S.SoftMean(e, LiveRows(mem.live, c), q.eps) == Some(OutputOf(mem.st)[c])
  {
    var rows := LiveRows(mem.live, c);
    LiveRowsScores(mem.live, c);
    TopOfFinite(rows);
    assert View(mem.st, c) == Scratch(e, rows, q.eps);
    S.TotalAtLeastOne(e, rows, q.eps);
    if q.eps.Infinite? {
      UniformTotal(e, rows, S.Top(rows), S.NegInf);
    }
  }
}
