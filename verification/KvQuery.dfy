/** An attention query over the live rows of the key/value memory: first the largest score, then the sums against it. */
module KvQuery {
  import opened Wrappers
  import opened Exponential
  import opened SoftAccumulator
  import opened KvMemory
  import opened KvSnapshots
  import A = MaskedAttention
  import I = IncrementalMemory

  type VRow = A.VRow

  /** A query with the dimension of the keys, on a memory whose rows have its dimensions. */
  ghost predicate Fits(mem: Memory, x: seq<real>) {
    Sound(mem) && |x| == mem.dK
  }

  /** A live row as the query scores it. */
  function RowFor(mem: Memory, x: seq<real>, sim: I.Sim, id: string): VRow
    requires id in mem.rows && |mem.rows[id].k| == |x|
  {
    A.VRow(I.ScoreOf(sim, x, mem.rows[id].k), mem.rows[id].v)
  }

  /** The live rows of a list of ids, in its order. */
  ghost function Seen(mem: Memory, x: seq<real>, sim: I.Sim, order: seq<string>): seq<VRow>
    requires Fits(mem, x)
  {
    if order == [] then []
    else
      var id := order[|order| - 1];
      Seen(mem, x, sim, order[..|order| - 1]) + (if Alive(mem, id) then [RowFor(mem, x, sim, id)] else [])
  }

  /** They are the rows that a snapshot lists. */
  lemma {:induction false} SeenAreLive(mem: Memory, x: seq<real>, sim: I.Sim, order: seq<string>)
    requires Fits(mem, x)
    ensures |Seen(mem, x, sim, order)| == |Live(mem, order)|
    ensures forall i :: 0 <= i < |Live(mem, order)| ==>
      Alive(mem, Live(mem, order)[i]) && Seen(mem, x, sim, order)[i] == RowFor(mem, x, sim, Live(mem, order)[i])
  {
    hide Sound;
    if order != [] {
      SeenAreLive(mem, x, sim, order[..|order| - 1]);
    }
  }

  /** One more id of the list. */
  lemma {:induction false} SeenNext(mem: Memory, x: seq<real>, sim: I.Sim, i: nat)
    requires Fits(mem, x) && i < |mem.order|
    ensures Alive(mem, mem.order[i]) ==> |mem.rows[mem.order[i]].k| == |x| && |mem.rows[mem.order[i]].v| == mem.dV
    ensures
      var before := Seen(mem, x, sim, mem.order[..i]);
      Seen(mem, x, sim, mem.order[..i + 1])
      == if Alive(mem, mem.order[i]) then before + [RowFor(mem, x, sim, mem.order[i])] else before
  {
    assert mem.order[..i + 1][..i] == mem.order[..i];
    var before := Seen(mem, x, sim, mem.order[..i]);
    assert before + [] == before;
  }

  // ------------------------------------------------------------------ the answer

  /** The answer in one component; none is NaN. At temperature zero a maximum of minus infinity gives zero; at other
      temperatures minus infinity less minus infinity, and minus infinity over infinity, spoil the sums. */
  function Component(e: real -> real, rows: seq<SoftAccumulator.Row>, eps: Temp): Option<real>
    requires eps.Valid()
  {
    if eps.Zero? && Top(rows) == NegInf then Some(0.0)
    else if Top(rows) == NegInf || (eps.Infinite? && !AllFinite(rows)) then None
    else SoftMean(e, rows, eps)
  }

  function Components(e: real -> real, rows: seq<VRow>, d: nat, eps: Temp): (out: seq<Option<real>>)
    requires eps.Valid()
    ensures |out| == d && forall c :: 0 <= c < d ==> out[c] == Component(e, A.Project(rows, c), eps)
  {
    seq(d, c requires 0 <= c => Component(e, A.Project(rows, c), eps))
  }

  /** Nothing for a query of another dimension, and nothing without live rows. */
  ghost function Answered(e: real -> real, mem: Memory, x: seq<real>, eps: Temp, sim: I.Sim): Option<seq<Option<real>>>
    requires eps.Valid() && Sound(mem)
  {
    if |x| != mem.dK || Seen(mem, x, sim, mem.order) == [] then None
    else Some(Components(e, Seen(mem, x, sim, mem.order), mem.dV, eps))
  }

  /** Read off the memory: the rows without a tombstone among the first `n` ids, each as the similarity of its own key to
      the query and component `c` of its own value. */
  ghost function ReadRows(mem: Memory, x: seq<real>, sim: I.Sim, c: nat, n: nat): seq<SoftAccumulator.Row>
    requires n <= |mem.order| && forall id :: id in mem.rows ==> |mem.rows[id].k| == |x|
  {
    if n == 0 then []
    else
      var id := mem.order[n - 1];
      ReadRows(mem, x, sim, c, n - 1) +
      if id in mem.rows && mem.rows[id].deleted == false then
        [SoftAccumulator.Row(I.ScoreOf(sim, x, mem.rows[id].k), if c < |mem.rows[id].v| then mem.rows[id].v[c] else 0.0)]
      else []
  }

  /** One component: the soft mean of the rows, with two exceptions. When all scores are minus infinity it is zero at
      temperature zero and NaN (`None`) at any other, and at infinite temperature one such score is enough for NaN. */
  ghost predicate AnswersIn(e: real -> real, rows: seq<SoftAccumulator.Row>, eps: Temp, out: Option<real>)
    requires eps.Valid()
  {
    var none := forall i :: 0 <= i < |rows| ==> rows[i].score == NegInf;
    var some := exists i :: 0 <= i < |rows| && rows[i].score == NegInf;
    if none && eps == Zero then out == Some(0.0)
    else if none || (some && eps == Infinite) then out == None
    else out == SoftMean(e, rows, eps) && out != None
  }

  /** No answer for a query of another dimension or without a live row, and otherwise one for every component. */
  ghost predicate AnswersQuery(e: real -> real, mem: Memory, x: seq<real>, eps: Temp, sim: I.Sim,
                               r: Option<seq<Option<real>>>)
    requires eps.Valid() && Sound(mem)
  {
    if |x| != mem.dK || (forall id :: id in mem.rows ==> mem.rows[id].deleted == true) then r == None
    else
      && r.Some? && |r.value| == mem.dV
      && forall c :: 0 <= c < mem.dV ==> AnswersIn(e, ReadRows(mem, x, sim, c, |mem.order|), eps, r.value[c])
  }

  lemma {:induction false} ReadRowsAre(mem: Memory, x: seq<real>, sim: I.Sim, c: nat, n: nat)
    requires Fits(mem, x) && n <= |mem.order|
    ensures ReadRows(mem, x, sim, c, n) == A.Project(Seen(mem, x, sim, mem.order[..n]), c)
  {
    hide I.ScoreOf, Seen;
    if n > 0 {
      ReadRowsAre(mem, x, sim, c, n - 1);
      SeenNext(mem, x, sim, n - 1);
      var id := mem.order[n - 1];
      if Alive(mem, id) {
        A.ProjectAppend(Seen(mem, x, sim, mem.order[..n - 1]), [RowFor(mem, x, sim, id)], c);
        assert A.Project([RowFor(mem, x, sim, id)], c) == [A.ProjectRow(RowFor(mem, x, sim, id), c)];
      }
    } else {
      SeenNone(mem, x, sim);
    }
  }

  lemma {:induction false} SeenNone(mem: Memory, x: seq<real>, sim: I.Sim)
    requires Fits(mem, x)
    ensures Seen(mem, x, sim, mem.order[..0]) == []
  {
  }

  lemma {:induction false} SeenNothing(mem: Memory, x: seq<real>, sim: I.Sim)
    requires Fits(mem, x)
    ensures Seen(mem, x, sim, mem.order) == [] <==> forall id :: id in mem.rows ==> mem.rows[id].deleted
  {
    SeenAreLive(mem, x, sim, mem.order);
    LiveAre(mem, mem.order);
    hide Seen, Live;
    if Live(mem, mem.order) != [] {
      var id := Live(mem, mem.order)[0];
      assert id in Live(mem, mem.order) && Alive(mem, id);
    } else {
      forall id | id in mem.rows ensures mem.rows[id].deleted {
        assert id in mem.order && (Alive(mem, id) ==> id in Live(mem, mem.order));
      }
    }
  }

  ghost predicate NoneIsPosInf(rows: seq<SoftAccumulator.Row>) {
    forall i :: 0 <= i < |rows| ==> !rows[i].score.PosInf?
  }

  lemma {:induction false} NoneFinite(rows: seq<SoftAccumulator.Row>)
    requires NoneIsPosInf(rows)
    ensures Top(rows) == NegInf <==> forall i :: 0 <= i < |rows| ==> rows[i].score == NegInf
    ensures !Top(rows).PosInf?
  {
    TopBounds(rows);
    forall i | 0 <= i < |rows| && Top(rows) == NegInf ensures rows[i].score == NegInf {
      assert AtMost(rows[i].score, Top(rows));
    }
  }

  lemma {:induction false} SeenScores(mem: Memory, x: seq<real>, sim: I.Sim, c: nat, n: nat)
    requires Fits(mem, x) && n <= |mem.order|
    ensures NoneIsPosInf(ReadRows(mem, x, sim, c, n))
  {
    if n > 0 {
      SeenScores(mem, x, sim, c, n - 1);
      ScoreIsNotPosInf(sim, x, mem.rows[mem.order[n - 1]].k);
      hide I.ScoreOf;
    }
  }

  /** The answer, read off the memory. */
  lemma {:induction false} AnsweredIs(e: real -> real, mem: Memory, x: seq<real>, eps: Temp, sim: I.Sim)
    requires eps.Valid() && IsExp(e) && Sound(mem)
    ensures AnswersQuery(e, mem, x, eps, sim, Answered(e, mem, x, eps, sim))
  {
    if |x| == mem.dK {
      SeenNothing(mem, x, sim);
      hide Seen, ReadRows, I.ScoreOf, IsExp, Sound, Component, AnswersIn;
      if Seen(mem, x, sim, mem.order) != [] {
        assert mem.order[..|mem.order|] == mem.order;
        var r := Answered(e, mem, x, eps, sim);
        forall c | 0 <= c < mem.dV ensures AnswersIn(e, ReadRows(mem, x, sim, c, |mem.order|), eps, r.value[c]) {
          ReadRowsAre(mem, x, sim, c, |mem.order|);
          SeenScores(mem, x, sim, c, |mem.order|);
          ComponentIs(e, ReadRows(mem, x, sim, c, |mem.order|), eps);
        }
      }
    }
  }

  lemma {:induction false} ComponentIs(e: real -> real, rows: seq<SoftAccumulator.Row>, eps: Temp)
    requires eps.Valid() && IsExp(e) && rows != [] && NoneIsPosInf(rows)
    ensures AnswersIn(e, rows, eps, Component(e, rows, eps))
  {
    NoneFinite(rows);
    EmptyIffVacant(e, rows, eps);
    if exists i :: 0 <= i < |rows| && rows[i].score == NegInf {
      var i :| 0 <= i < |rows| && rows[i].score == NegInf;
      assert !AllFinite(rows);
    }
  }

  // ------------------------------------------------------------------ the sums

  predicate NoPosInf(rows: seq<VRow>) {
    forall i :: 0 <= i < |rows| ==> !rows[i].score.PosInf?
  }

  function TopOf(rows: seq<VRow>): Score {
    Top(A.Project(rows, 0))
  }

  lemma {:induction false} TopNext(rows: seq<VRow>, r: VRow)
    ensures TopOf(rows + [r]) == Larger(TopOf(rows), r.score)
  {
    A.ProjectAppend(rows, [r], 0);
    var a := A.Project(rows, 0);
    assert (a + A.Project([r], 0))[..|a|] == a;
  }

  lemma {:induction false} NoRowsSeen(e: real -> real, mu: Score, eps: Temp)
    requires eps.Valid()
    ensures TopOf([]) == NegInf && forall c: nat :: Total(e, A.Project([], c), mu, eps) == Mass(0.0, 0.0)
  {
  }

  /** Scores do not depend on the component. */
  lemma {:induction false} SameTop(rows: seq<VRow>, c: nat)
    ensures Top(A.Project(rows, c)) == TopOf(rows)
  {
    if rows != [] {
      var n := |rows| - 1;
      SameTop(rows[..n], c);
      assert rows == rows[..n] + [rows[n]];
      A.ProjectAppend(rows[..n], [rows[n]], c);
      A.ProjectAppend(rows[..n], [rows[n]], 0);
      var a, b := A.Project(rows[..n], c), A.Project(rows[..n], 0);
      assert (a + A.Project([rows[n]], c))[..n] == a && (b + A.Project([rows[n]], 0))[..n] == b;
    }
  }

  /** The sums of some rows, in every component: weight `den`, values `num`. */
  ghost predicate Sums(e: real -> real, rows: seq<VRow>, mu: Score, eps: Temp, num: seq<real>, den: real)
    requires eps.Valid()
  {
    forall c: nat :: Total(e, A.Project(rows, c), mu, eps) == Mass(den, A.Comp(num, c))
  }

  function AddScaled(num: seq<real>, w: real, v: seq<real>): (r: seq<real>)
    requires |num| == |v|
    ensures |r| == |num| && forall c: nat :: A.Comp(r, c) == A.Comp(num, c) + w * A.Comp(v, c)
  {
    seq(|num|, c requires 0 <= c < |num| => num[c] + w * v[c])
  }

  /** One more row. */
  lemma {:induction false} SumsNext(e: real -> real, rows: seq<VRow>, r: VRow, mu: Score, eps: Temp, num: seq<real>,
                                    den: real, w: real)
    requires eps.Valid() && Sums(e, rows, mu, eps, num, den) && |num| == |r.v| && w == Weight(e, r.score, mu, eps)
    ensures Sums(e, rows + [r], mu, eps, AddScaled(num, w, r.v), den + w)
  {
    hide Weight, AddScaled, Total, A.Project, A.Comp;
    forall c: nat
      ensures Total(e, A.Project(rows + [r], c), mu, eps) == Mass(den + w, A.Comp(AddScaled(num, w, r.v), c))
    {
      NextTotal(e, rows, r, c, mu, eps);
    }
  }

  lemma {:induction false} NextTotal(e: real -> real, rows: seq<VRow>, r: VRow, c: nat, mu: Score, eps: Temp)
    requires eps.Valid()
    ensures
      var w, was := Weight(e, r.score, mu, eps), Total(e, A.Project(rows, c), mu, eps);
      Total(e, A.Project(rows + [r], c), mu, eps) == Mass(was.z + w, was.u + w * A.Comp(r.v, c))
  {
    hide Weight;
    A.ProjectAppend(rows, [r], c);
    assert A.Project([r], c) == [A.ProjectRow(r, c)];
    TotalAppend(e, A.Project(rows, c), A.Project([r], c), mu, eps);
    TotalOne(e, A.ProjectRow(r, c), mu, eps);
  }

  /** A row without weight changes nothing. */
  lemma {:induction false} WeightlessRow(e: real -> real, rows: seq<VRow>, r: VRow, mu: Score, eps: Temp, num: seq<real>,
                                         den: real)
    requires eps.Valid() && Sums(e, rows, mu, eps, num, den) && Weight(e, r.score, mu, eps) == 0.0
    ensures Sums(e, rows + [r], mu, eps, num, den)
  {
    hide Weight, Total, A.Project, A.Comp;
    forall c: nat ensures Total(e, A.Project(rows + [r], c), mu, eps) == Mass(den, A.Comp(num, c)) {
      NextTotal(e, rows, r, c, mu, eps);
    }
  }

  /** `exp((s - m) / eps)` when both may be minus infinity. */
  function QueryWeight(e: real -> real, s: Score, m: Score, eps: Temp): Option<real>
    requires eps.Valid() && !s.PosInf? && !m.PosInf? && !eps.Zero?
  {
    if m == NegInf then None
    else if s == NegInf then (if eps.Infinite? then None else Some(0.0))
    else if eps.Infinite? then Some(e(0.0))
    else Some(e((s.s - m.s) / eps.t))
  }

  lemma {:induction false} QueryWeightIs(e: real -> real, s: Score, m: Score, mu: Score, eps: Temp)
    requires eps.Valid() && IsExp(e) && !s.PosInf? && !m.PosInf? && !eps.Zero?
    requires eps.Infinite? || mu == m
    ensures QueryWeight(e, s, m, eps).Some? ==> QueryWeight(e, s, m, eps).value == Weight(e, s, mu, eps)
  {
    WeightIsFactor(e, s, mu, eps);
  }

  lemma {:induction false} TieWeight(e: real -> real, s: Score, m: Score)
    requires !s.PosInf?
    ensures Weight(e, s, m, Zero) == if s == m && s.Fin? then 1.0 else 0.0
  {
  }

  lemma {:induction false} ScoreIsNotPosInf(sim: I.Sim, x: seq<real>, k: seq<real>)
    requires |x| == |k|
    ensures !I.ScoreOf(sim, x, k).PosInf?
  {
  }

  lemma {:induction false} TopIsNotPosInf(rows: seq<VRow>)
    requires NoPosInf(rows)
    ensures !TopOf(rows).PosInf?
  {
    TopBounds(A.Project(rows, 0));
  }

  lemma {:induction false} NothingSummed(e: real -> real, mu: Score, eps: Temp, d: nat)
    requires eps.Valid()
    ensures Sums(e, [], mu, eps, I.Zeros(d), 0.0) && forall m :: AllWeighed([], m, eps)
  {
    NoRowsSeen(e, mu, eps);
  }

  predicate AllFin(rows: seq<VRow>) {
    forall i :: 0 <= i < |rows| ==> rows[i].score.Fin?
  }

  /** No weight of these rows is NaN. */
  predicate AllWeighed(rows: seq<VRow>, m: Score, eps: Temp) {
    (rows == [] || m != NegInf) && (eps.Infinite? ==> AllFin(rows))
  }

  lemma {:induction false} WeighedNext(e: real -> real, rows: seq<VRow>, r: VRow, m: Score, eps: Temp)
    requires eps.Valid() && !r.score.PosInf? && !m.PosInf? && !eps.Zero?
    ensures AllWeighed(rows + [r], m, eps) <==> AllWeighed(rows, m, eps) && QueryWeight(e, r.score, m, eps).Some?
  {
    assert (rows + [r])[|rows|] == r;
    assert forall i :: 0 <= i < |rows| ==> (rows + [r])[i] == rows[i];
  }

  // ------------------------------------------------------------------ from the sums to the answer

  /** The mean of the values at the maximum. */
  lemma {:induction false} TiesAnswer(e: real -> real, rows: seq<VRow>, num: seq<real>, n: nat)
    requires IsExp(e) && NoPosInf(rows) && Sums(e, rows, TopOf(rows), Zero, num, n as real)
    ensures Components(e, rows, |num|, Zero)
            == seq(|num|, c requires 0 <= c < |num| => Some(if n == 0 then num[c] else num[c] / n as real))
  {
    hide IsExp;
    forall c | 0 <= c < |num|
      ensures Component(e, A.Project(rows, c), Zero) == Some(if n == 0 then num[c] else num[c] / n as real)
    {
      SameTop(rows, c);
      assert Total(e, A.Project(rows, c), TopOf(rows), Zero) == Mass(n as real, A.Comp(num, c));
      if TopOf(rows) == NegInf {
        TotalOfVacant(e, A.Project(rows, c), NegInf, Zero);
      } else {
        TotalAtLeastOne(e, A.Project(rows, c), Zero);
      }
    }
  }

  /** The quotient of the sums, or NaN when one of the weights was. */
  lemma {:induction false} SumsAnswer(e: real -> real, rows: seq<VRow>, eps: Temp, num: seq<real>, den: real)
    requires eps.Valid() && !eps.Zero? && IsExp(e) && NoPosInf(rows) && rows != [] && AllWeighed(rows, TopOf(rows), eps)
    requires Sums(e, rows, if eps.Infinite? then NegInf else TopOf(rows), eps, num, den)
    ensures den != 0.0
    ensures Components(e, rows, |num|, eps) == seq(|num|, c requires 0 <= c < |num| => Some(num[c] / den))
  {
    hide IsExp;
    assert Total(e, A.Project(rows, 0), Anchor(A.Project(rows, 0), eps), eps) == Mass(den, A.Comp(num, 0));
    TotalAtLeastOne(e, A.Project(rows, 0), eps);
    forall c | 0 <= c < |num|
      ensures Component(e, A.Project(rows, c), eps) == Some(num[c] / den)
    {
      SameTop(rows, c);
      assert Total(e, A.Project(rows, c), Anchor(A.Project(rows, c), eps), eps) == Mass(den, A.Comp(num, c));
      TotalAtLeastOne(e, A.Project(rows, c), eps);
    }
  }

  /** A weight that is not a number makes every component one. */
  lemma {:induction false} SpoiledAnswer(e: real -> real, rows: seq<VRow>, d: nat, eps: Temp)
    requires eps.Valid() && !eps.Zero? && rows != []
    requires !AllWeighed(rows, TopOf(rows), eps)
    ensures Components(e, rows, d, eps) == seq(d, c => None)
  {
    forall c | 0 <= c < d ensures Component(e, A.Project(rows, c), eps) == None {
      SameTop(rows, c);
      if eps.Infinite? && !AllFin(rows) {
        var i :| 0 <= i < |rows| && !rows[i].score.Fin?;
        assert !A.Project(rows, c)[i].score.Fin?;
      }
    }
  }
}
