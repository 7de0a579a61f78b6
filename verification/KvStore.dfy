/** The key/value memory as it is updated in place. */
module KvStore {
  import opened Wrappers
  import opened KvMemory
  import opened KvSnapshots
  import opened KvAudit
  import opened Exponential
  import S = SoftAccumulator
  import I = IncrementalMemory
  import Q = KvQuery

  class KvStore {
    const dK: nat
    const dV: nat
    var rows: map<string, Row>
    var insertionOrder: seq<string>
    var log: seq<AuditEntry>

    function View(): Memory
      reads this
    {
      Memory(dK, dV, rows, insertionOrder, log)
    }

    /** Sound, and accounted for by the log unless it was restored from a snapshot, which carries none. */
    ghost predicate Valid()
      reads this
    {
      Sound(View())
    }

    constructor (dK: nat, dV: nat)
      ensures View() == Empty(dK, dV) && Valid() && Audited(View())
    {
      this.dK, this.dV := dK, dV;
      rows, insertionOrder, log := map[], [], [];
    }

    method LenAlive() returns (n: nat)
      requires Valid()
      ensures n == |Live(View(), insertionOrder)|
    {
      n := |set id | id in rows && !rows[id].deleted|;
      LiveCount(View());
    }

    method Write(id: string, k: seq<real>, v: seq<real>, owner: string, now: real) returns (r: Result<(), Error>)
      requires Valid()
      modifies this
      ensures Valid() && (old(Audited(View())) ==> Audited(View()))
      ensures r.Ok? ==> KvMemory.Write(old(View()), id, k, v, owner, now) == Ok(View()) && ReadExact(View(), id) == Some((k, v))
      ensures r.Err? ==> KvMemory.Write(old(View()), id, k, v, owner, now) == Err(r.error) && View() == old(View())
    {
      if |k| != dK {
        return Err(DimensionMismatch(dK, |k|));
      }
      if |v| != dV {
        return Err(DimensionMismatch(dV, |v|));
      }
      ghost var was := View();
      var act := Act.Insert;
      if id in rows {
        if !rows[id].deleted && rows[id].owner != owner {
          return Err(PermissionDenied(id, rows[id].owner, owner));
        }
        act := Act.Update;
      } else {
        insertionOrder := insertionOrder + [id];
      }
      rows := rows[id := Row(k, v, owner, now, false)];
      log := log + [AuditEntry(act, id, owner, now)];
      PutSound(was, id, k, v, owner, now);
      if Audited(was) {
        PutAudited(was, id, k, v, owner, now);
      }
      hide Sound, Audited;
      return Ok(());
    }

    method Delete(id: string, owner: string, now: real) returns (r: Result<(), Error>)
      requires Valid()
      modifies this
      ensures Valid() && (old(Audited(View())) ==> Audited(View()))
      ensures r.Ok? ==> Remove(old(View()), id, owner, now) == Ok(View()) && ReadExact(View(), id) == None
      ensures r.Err? ==> Remove(old(View()), id, owner, now) == Err(r.error) && View() == old(View())
    {
      ghost var was := View();
      if id !in rows {
        return Err(KeyNotFound(id));
      }
      if rows[id].owner != owner {
        return Err(PermissionDenied(id, rows[id].owner, owner));
      }
      if rows[id].deleted {
        return Err(KeyNotFound(id));
      }
      rows := rows[id := rows[id].(deleted := true)];
      log := log + [AuditEntry(Act.Delete, id, owner, now)];
      RemoveSound(was, id, owner, now);
      if Audited(was) {
        RemoveAudited(was, id, owner, now);
      }
      hide Sound, Audited;
      return Ok(());
    }

    /** All or nothing: the whole batch is checked before the first row goes in. */
    method BulkInsert(b: Batch, now: real) returns (r: Result<nat, Error>)
      requires Valid()
      modifies this
      ensures Valid() && (old(Audited(View())) ==> Audited(View()))
      ensures r.Ok? ==> r.value == |b.ids| && KvMemory.BulkInsert(old(View()), b, now) == Ok(View())
      ensures r.Err? ==> KvMemory.BulkInsert(old(View()), b, now) == Err(r.error) && View() == old(View())
    {
      hide Sound, Audited, Part;
      var n := |b.ids|;
      if |b.keys| != Cells(n, dK) {
        return Err(DimensionMismatch(Cells(n, dK), |b.keys|));
      }
      if |b.values| != Cells(n, dV) {
        return Err(DimensionMismatch(Cells(n, dV), |b.values|));
      }
      ghost var was := View();
      for i := 0 to n
        invariant View() == was && FirstRefused(was, b, 0) == FirstRefused(was, b, i)
      {
        if b.ids[i] in rows && !rows[b.ids[i]].deleted && rows[b.ids[i]].owner != b.owner {
          return Err(PermissionDenied(b.ids[i], rows[b.ids[i]].owner, b.owner));
        }
      }
      for i := 0 to n
        invariant View() == PutEach(was, b, now, i)
      {
        var id := b.ids[i];
        var act := Act.Update;
        if id !in rows {
          insertionOrder := insertionOrder + [id];
          act := Act.Insert;
        }
        rows := rows[id := Row(KeyOf(View(), b, i), ValueOf(View(), b, i), b.owner, now, false)];
        log := log + [AuditEntry(act, id, b.owner, now)];
      }
      BulkAcceptsIff(was, b, now);
      PutEachSound(was, b, now, n);
      if Audited(was) {
        PutEachAudited(was, b, now, n);
      }
      return Ok(n);
    }

    method TakeSnapshot() returns (snap: Snapshot)
      requires Valid()
      ensures snap == SnapshotOf(View())
    {
      hide Live, Flatten;
      snap := NoRows(dK, dV);
      ghost var m := View();
      FlattenNone(m);
      LiveAre(m, m.order);
      for i := 0 to |insertionOrder|
        invariant forall id :: id in Live(m, m.order[..i]) ==> id in m.rows
        invariant snap == Flatten(m, Live(m, m.order[..i]))
      {
        LiveStep(m, i);
        LiveAre(m, m.order[..i + 1]);
        var id := insertionOrder[i];
        if id in rows && !rows[id].deleted {
          snap := Extend(snap, id, rows[id]);
        }
      }
      assert m.order[..|m.order|] == m.order;
    }

    /** An attention query over the live rows, in insertion order. */
    method AttentionQuery(e: real -> real, x: seq<real>, eps: S.Temp, sim: I.Sim) returns (r: Option<seq<Option<real>>>)
      requires Valid() && eps.Valid() && IsExp(e)
      ensures r == Q.Answered(e, View(), x, eps, sim) && Q.AnswersQuery(e, View(), x, eps, sim, r)
    {
      hide IsExp, I.ScoreOf, Q.TopOf, Q.Components, Sound, Q.AnswersQuery;
      Q.AnsweredIs(e, View(), x, eps, sim);
      if |x| != dK {
        return None;
      }
      ghost var mem := View();
      var m, any := S.NegInf, false;
      Q.NoRowsSeen(e, m, eps);
      for i := 0 to |insertionOrder|
        invariant m == Q.TopOf(Q.Seen(mem, x, sim, mem.order[..i])) && any == (Q.Seen(mem, x, sim, mem.order[..i]) != [])
        invariant Q.NoPosInf(Q.Seen(mem, x, sim, mem.order[..i]))
      {
        var id := insertionOrder[i];
        Q.SeenNext(mem, x, sim, i);
        if id in rows && !rows[id].deleted {
          Q.TopNext(Q.Seen(mem, x, sim, mem.order[..i]), Q.RowFor(mem, x, sim, id));
          Q.ScoreIsNotPosInf(sim, x, rows[id].k);
          any := true;
          var s := I.ScoreOf(sim, x, rows[id].k);
          if S.Less(m, s) {
            m := s;
          }
        }
      }
      assert mem.order[..|mem.order|] == mem.order;
      if !any {
        return None;
      }
      if eps.Zero? {
        r := QueryTies(e, x, sim, m);
      } else {
        r := QuerySums(e, x, eps, sim, m);
      }
    }

    /** At temperature zero: the mean of the values at the maximum. */
    method QueryTies(e: real -> real, x: seq<real>, sim: I.Sim, m: S.Score) returns (r: Option<seq<Option<real>>>)
      requires Valid() && IsExp(e) && |x| == dK
      requires m == Q.TopOf(Q.Seen(View(), x, sim, insertionOrder)) && Q.NoPosInf(Q.Seen(View(), x, sim, insertionOrder))
      ensures r == Some(Q.Components(e, Q.Seen(View(), x, sim, insertionOrder), dV, S.Zero))
    {
      hide IsExp, I.ScoreOf, Q.TopOf, Q.Components, Sound, Q.Sums, Q.AddScaled;
      ghost var mem := View();
      var sum, n := I.Zeros(dV), 0;
      Q.NothingSummed(e, m, S.Zero, dV);
      for i := 0 to |insertionOrder|
        invariant n >= 0 && |sum| == dV
        invariant Q.Sums(e, Q.Seen(mem, x, sim, mem.order[..i]), m, S.Zero, sum, n as real)
      {
        var id := insertionOrder[i];
        Q.SeenNext(mem, x, sim, i);
        if id in rows && !rows[id].deleted {
          ghost var before, row := Q.Seen(mem, x, sim, mem.order[..i]), Q.RowFor(mem, x, sim, id);
          var s := I.ScoreOf(sim, x, rows[id].k);
          Q.ScoreIsNotPosInf(sim, x, rows[id].k);
          Q.TieWeight(e, s, m);
          if s == m && s.Fin? {
            Q.SumsNext(e, before, row, m, S.Zero, sum, n as real, 1.0);
            sum := Q.AddScaled(sum, 1.0, rows[id].v);
            n := n + 1;
          } else {
            Q.WeightlessRow(e, before, row, m, S.Zero, sum, n as real);
          }
        }
      }
      assert mem.order[..|mem.order|] == mem.order;
      Q.TiesAnswer(e, Q.Seen(mem, x, sim, mem.order), sum, n);
      r := Some(seq(dV, c requires 0 <= c < dV => Some(if n == 0 then sum[c] else sum[c] / n as real)));
    }

    /** At other temperatures: the quotient of the sums; a weight that is not a number spoils them. */
    method QuerySums(e: real -> real, x: seq<real>, eps: S.Temp, sim: I.Sim, m: S.Score)
        returns (r: Option<seq<Option<real>>>)
      requires Valid() && IsExp(e) && eps.Valid() && !eps.Zero? && |x| == dK
      requires Q.Seen(View(), x, sim, insertionOrder) != []
      requires m == Q.TopOf(Q.Seen(View(), x, sim, insertionOrder)) && Q.NoPosInf(Q.Seen(View(), x, sim, insertionOrder))
      ensures r == Some(Q.Components(e, Q.Seen(View(), x, sim, insertionOrder), dV, eps))
    {
      hide IsExp, I.ScoreOf, Q.TopOf, Q.Components, Sound, Q.Sums, Q.AddScaled, Q.AllWeighed, Q.QueryWeight;
      ghost var mem := View();
      ghost var mu := if eps.Infinite? then S.NegInf else m;
      var num, den, numbers := I.Zeros(dV), 0.0, true;
      Q.TopIsNotPosInf(Q.Seen(mem, x, sim, mem.order));
      Q.NothingSummed(e, mu, eps, dV);
      for i := 0 to |insertionOrder|
        invariant |num| == dV
        invariant numbers == Q.AllWeighed(Q.Seen(mem, x, sim, mem.order[..i]), m, eps)
        invariant numbers ==> Q.Sums(e, Q.Seen(mem, x, sim, mem.order[..i]), mu, eps, num, den)
      {
        var id := insertionOrder[i];
        Q.SeenNext(mem, x, sim, i);
        if id in rows && !rows[id].deleted {
          ghost var before, row := Q.Seen(mem, x, sim, mem.order[..i]), Q.RowFor(mem, x, sim, id);
          var s := I.ScoreOf(sim, x, rows[id].k);
          Q.ScoreIsNotPosInf(sim, x, rows[id].k);
          var w := Q.QueryWeight(e, s, m, eps);
          Q.QueryWeightIs(e, s, m, mu, eps);
          Q.WeighedNext(e, before, row, m, eps);
          if w.None? || !numbers {
            numbers := false;
          } else {
            Q.SumsNext(e, before, row, mu, eps, num, den, w.value);
            num := Q.AddScaled(num, w.value, rows[id].v);
            den := den + w.value;
          }
        }
      }
      assert mem.order[..|mem.order|] == mem.order;
      if numbers {
        Q.SumsAnswer(e, Q.Seen(mem, x, sim, mem.order), eps, num, den);
        r := Some(seq(dV, c requires 0 <= c < dV => Some(num[c] / den)));
      } else {
        Q.SpoiledAnswer(e, Q.Seen(mem, x, sim, mem.order), dV, eps);
        r := Some(seq(dV, c => None));
      }
    }
  }

  /** A memory rebuilt from a snapshot's buffers, or what is wrong with them. */
  method RestoreFrom(snap: Snapshot) returns (r: Result<KvStore, Error>)
    ensures r.Ok? ==> fresh(r.value) && r.value.Valid() && Restore(snap) == Ok(r.value.View())
    ensures r.Err? ==> Restore(snap) == Err(r.error)
  {
    hide RowAt, Sound, Distinct, Part, Audited, Rebuilt, FirstRepeat, Cells;
    var n := |snap.ids|;
    if |snap.owners| != n || |snap.writtenAt| != n {
      return Err(InvalidArgument);
    }
    if |snap.keys| != Cells(n, snap.dK) {
      return Err(DimensionMismatch(Cells(n, snap.dK), |snap.keys|));
    }
    if |snap.values| != Cells(n, snap.dV) {
      return Err(DimensionMismatch(Cells(n, snap.dV), |snap.values|));
    }
    var m := new KvStore(snap.dK, snap.dV);
    RebuiltNone(snap);
    for i := 0 to n
      invariant m.View() == Rebuilt(snap, i) && FirstRepeat(snap, 0) == FirstRepeat(snap, i)
    {
      RestoreStep(snap, i);
      if snap.ids[i] in m.rows {
        return Err(DuplicateKey(snap.ids[i]));
      }
      m.insertionOrder := m.insertionOrder + [snap.ids[i]];
      m.rows := m.rows[snap.ids[i] := RowAt(snap, i)];
    }
    RestoreAcceptsIff(snap);
    return Ok(m);
  }

  lemma {:induction false} RebuiltNone(s: Snapshot)
    requires Shapely(s)
    ensures Rebuilt(s, 0) == Empty(s.dK, s.dV)
  {
  }

  lemma {:induction false} RestoreStep(s: Snapshot, i: nat)
    requires Shapely(s) && i < |s.ids|
    ensures FirstRepeat(s, i) == if s.ids[i] in s.ids[..i] then i else FirstRepeat(s, i + 1)
    ensures Rebuilt(s, i + 1) == Rebuilt(s, i).(rows := Rebuilt(s, i).rows[s.ids[i] := RowAt(s, i)],
                                                order := Rebuilt(s, i).order + [s.ids[i]])
  {
    hide RowAt, Shapely;
  }

  lemma {:induction false} FlattenNone(m: Memory)
    ensures Live(m, m.order[..0]) == [] && Flatten(m, []) == NoRows(m.dK, m.dV)
  {
  }

  lemma {:induction false} LiveStep(m: Memory, i: nat)
    requires i < |m.order| && forall id :: id in Live(m, m.order[..i]) ==> id in m.rows
    ensures Live(m, m.order[..i + 1]) == if Alive(m, m.order[i]) then Live(m, m.order[..i]) + [m.order[i]] else Live(m, m.order[..i])
    ensures Alive(m, m.order[i]) ==>
      Flatten(m, Live(m, m.order[..i]) + [m.order[i]]) == Extend(Flatten(m, Live(m, m.order[..i])), m.order[i], m.rows[m.order[i]])
  {
    assert m.order[..i + 1][..i] == m.order[..i];
    var l := Live(m, m.order[..i]);
    assert (l + [m.order[i]])[..|l|] == l;
  }
}
