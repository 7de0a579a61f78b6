/** Snapshots of the key/value memory: the live rows in insertion order, flattened, and back again. */
module KvSnapshots {
  import opened Wrappers
  import opened Counting
  import opened KvMemory

  datatype Snapshot = Snapshot(dK: nat, dV: nat, ids: seq<string>, owners: seq<string>, writtenAt: seq<real>,
                               keys: seq<real>, values: seq<real>)

  // ------------------------------------------------------------------ taking one

  /** The live ids of a list, in its order. */
  function Live(m: Memory, order: seq<string>): seq<string> {
    if order == [] then []
    else Live(m, order[..|order| - 1]) + (if Alive(m, order[|order| - 1]) then [order[|order| - 1]] else [])
  }

  /** The snapshot with one more row. */
  function Extend(s: Snapshot, id: string, r: Row): Snapshot {
    s.(ids := s.ids + [id], owners := s.owners + [r.owner], writtenAt := s.writtenAt + [r.writtenAt],
       keys := s.keys + r.k, values := s.values + r.v)
  }

  function NoRows(dK: nat, dV: nat): Snapshot {
    Snapshot(dK, dV, [], [], [], [], [])
  }

  function Flatten(m: Memory, ids: seq<string>): (s: Snapshot)
    requires forall id :: id in ids ==> id in m.rows
    ensures s.dK == m.dK && s.dV == m.dV
  {
    if ids == [] then NoRows(m.dK, m.dV)
    else Extend(Flatten(m, ids[..|ids| - 1]), ids[|ids| - 1], m.rows[ids[|ids| - 1]])
  }

  lemma {:induction false} LiveAre(m: Memory, order: seq<string>)
    ensures forall id :: id in Live(m, order) <==> id in order && Alive(m, id)
  {
    if order != [] {
      LiveAre(m, order[..|order| - 1]);
      assert order == order[..|order| - 1] + [order[|order| - 1]];
    }
  }

  lemma {:induction false} LiveDistinct(m: Memory, order: seq<string>)
    requires forall i, j :: 0 <= i < j < |order| ==> order[i] != order[j]
    ensures forall i, j :: 0 <= i < j < |Live(m, order)| ==> Live(m, order)[i] != Live(m, order)[j]
  {
    if order != [] {
      var most, last := order[..|order| - 1], order[|order| - 1];
      LiveDistinct(m, most);
      LiveAre(m, most);
      assert last !in most;
    }
  }

  function SnapshotOf(m: Memory): Snapshot {
    LiveAre(m, m.order);
    Flatten(m, Live(m, m.order))
  }

  /** As many live rows as the snapshot lists. */
  lemma {:induction false} LiveCount(m: Memory)
    requires Sound(m)
    ensures |set id | id in m.rows && !m.rows[id].deleted| == |Live(m, m.order)|
  {
    LiveAre(m, m.order);
    LiveDistinct(m, m.order);
    DistinctSize(Live(m, m.order));
    assert Members(Live(m, m.order)) == set id | id in m.rows && !m.rows[id].deleted;
  }

  // ------------------------------------------------------------------ restoring one

  ghost predicate Shapely(s: Snapshot) {
    && |s.owners| == |s.ids| && |s.writtenAt| == |s.ids|
    && |s.keys| == Cells(|s.ids|, s.dK) && |s.values| == Cells(|s.ids|, s.dV)
  }

  function RowAt(s: Snapshot, i: nat): (r: Row)
    requires Shapely(s) && i < |s.ids|
    ensures |r.k| == s.dK && |r.v| == s.dV
  {
    PartFits(|s.ids|, s.dK, i);
    PartFits(|s.ids|, s.dV, i);
    Row(Part(s.keys, s.dK, i), Part(s.values, s.dV, i), s.owners[i], s.writtenAt[i], false)
  }

  /** The memory rebuilt from the first `n` rows. */
  function Rebuilt(s: Snapshot, n: nat): (m: Memory)
    requires Shapely(s) && n <= |s.ids|
    ensures m.dK == s.dK && m.dV == s.dV && m.order == s.ids[..n] && m.log == []
    ensures forall id :: id in m.rows <==> id in s.ids[..n]
  {
    if n == 0 then
      Empty(s.dK, s.dV)
    else
      var m := Rebuilt(s, n - 1);
      assert s.ids[..n] == s.ids[..n - 1] + [s.ids[n - 1]];
      m.(rows := m.rows[s.ids[n - 1] := RowAt(s, n - 1)], order := m.order + [s.ids[n - 1]])
  }

  /** The first position, counted from `n`, whose id has occurred before. */
  ghost function FirstRepeat(s: Snapshot, n: nat): (k: nat)
    requires n <= |s.ids|
    ensures n <= k <= |s.ids| && (k < |s.ids| ==> s.ids[k] in s.ids[..k])
    ensures forall j :: n <= j < k ==> s.ids[j] !in s.ids[..j]
    decreases |s.ids| - n
  {
    if n == |s.ids| || s.ids[n] in s.ids[..n] then n else FirstRepeat(s, n + 1)
  }

  ghost function Restore(s: Snapshot): Result<Memory, Error> {
    var n := |s.ids|;
    if |s.owners| != n || |s.writtenAt| != n then Err(InvalidArgument)
    else if |s.keys| != Cells(n, s.dK) then Err(DimensionMismatch(Cells(n, s.dK), |s.keys|))
    else if |s.values| != Cells(n, s.dV) then Err(DimensionMismatch(Cells(n, s.dV), |s.values|))
    else if FirstRepeat(s, 0) < n then Err(DuplicateKey(s.ids[FirstRepeat(s, 0)]))
    else Ok(Rebuilt(s, n))
  }

  ghost predicate Distinct(ids: seq<string>) {
    forall i, j :: 0 <= i < j < |ids| ==> ids[i] != ids[j]
  }

  /** A snapshot is accepted exactly when its buffers have its shape and no id occurs twice; what is rebuilt is sound. */
  lemma {:induction false} RestoreAcceptsIff(s: Snapshot)
    ensures Restore(s).Ok? <==> Shapely(s) && Distinct(s.ids)
    ensures Restore(s).Ok? ==> Sound(Restore(s).value)
  {
    var k := FirstRepeat(s, 0);
    if k < |s.ids| {
      var i :| 0 <= i < k && s.ids[..k][i] == s.ids[k];
      assert s.ids[i] == s.ids[k];
    } else {
      forall i, j | 0 <= i < j < |s.ids| ensures s.ids[i] != s.ids[j] {
        assert s.ids[i] in s.ids[..j];
      }
    }
    if Restore(s).Ok? {
      RebuiltShape(s, |s.ids|);
      assert s.ids[..|s.ids|] == s.ids;
    }
  }

  lemma {:induction false} RebuiltRows(s: Snapshot, n: nat)
    requires Shapely(s) && n <= |s.ids| && Distinct(s.ids)
    ensures forall i :: 0 <= i < n ==> s.ids[i] in Rebuilt(s, n).rows && Rebuilt(s, n).rows[s.ids[i]] == RowAt(s, i)
  {
    hide RowAt, Shapely, Rebuilt, Distinct;
    if n > 0 {
      RebuiltRows(s, n - 1);
      RebuiltStep(s, n);
      forall i | 0 <= i < n ensures s.ids[i] in Rebuilt(s, n).rows && Rebuilt(s, n).rows[s.ids[i]] == RowAt(s, i) {
        if i < n - 1 {
          Differ(s.ids, i, n - 1);
        }
      }
    }
  }

  lemma {:induction false} Differ(ids: seq<string>, i: nat, j: nat)
    requires Distinct(ids) && i < j < |ids|
    ensures ids[i] != ids[j]
  {
  }

  lemma {:induction false} RebuiltStep(s: Snapshot, n: nat)
    requires Shapely(s) && 0 < n <= |s.ids|
    ensures Rebuilt(s, n).rows == Rebuilt(s, n - 1).rows[s.ids[n - 1] := RowAt(s, n - 1)]
  {
  }

  lemma {:induction false} RebuiltShape(s: Snapshot, n: nat)
    requires Shapely(s) && n <= |s.ids|
    ensures forall id :: id in Rebuilt(s, n).rows ==> |Rebuilt(s, n).rows[id].k| == s.dK && |Rebuilt(s, n).rows[id].v| == s.dV
  {
    hide RowAt, Shapely;
    if n > 0 {
      RebuiltShape(s, n - 1);
      RebuiltStep(s, n);
      hide Rebuilt;
    }
  }

  // ------------------------------------------------------------------ there and back

  /** Only the live rows, with no history. */
  ghost function LiveOnly(m: Memory): Memory {
    Memory(m.dK, m.dV, map id | id in m.rows && Alive(m, id) :: m.rows[id], Live(m, m.order), [])
  }

  /** Flattening keeps the parts apart. */
  lemma {:induction false} FlattenParts(m: Memory, ids: seq<string>)
    requires forall id :: id in ids ==>
      id in m.rows && !m.rows[id].deleted && |m.rows[id].k| == m.dK && |m.rows[id].v| == m.dV
    ensures Shapely(Flatten(m, ids)) && Flatten(m, ids).ids == ids
    ensures forall i :: 0 <= i < |ids| ==> RowAt(Flatten(m, ids), i) == m.rows[ids[i]]
  {
    hide Cells, Part;
    if ids == [] {
      CellsStep(0, m.dK);
      CellsStep(0, m.dV);
    } else {
      var most, last := ids[..|ids| - 1], ids[|ids| - 1];
      assert ids == most + [last];
      FlattenParts(m, most);
      var s, t := Flatten(m, most), Flatten(m, ids);
      assert t == Extend(s, last, m.rows[last]);
      hide Flatten, Shapely, RowAt;
      ExtendParts(s, last, m.rows[last]);
      forall i | 0 <= i < |ids| ensures RowAt(t, i) == m.rows[ids[i]] {
        if i < |most| {
          assert RowAt(s, i) == m.rows[most[i]];
        }
      }
    }
  }

  lemma {:induction false} ExtendParts(s: Snapshot, id: string, r: Row)
    requires Shapely(s) && |r.k| == s.dK && |r.v| == s.dV && !r.deleted
    ensures Shapely(Extend(s, id, r)) && RowAt(Extend(s, id, r), |s.ids|) == r
    ensures forall i :: 0 <= i < |s.ids| ==> RowAt(Extend(s, id, r), i) == RowAt(s, i)
  {
    hide Cells, Part;
    var t, n := Extend(s, id, r), |s.ids|;
    OneMorePart(s.keys, s.dK, n, r.k);
    OneMorePart(s.values, s.dV, n, r.v);
    forall i | 0 <= i < n ensures RowAt(t, i) == RowAt(s, i) {
      PartPrefix(s.keys, r.k, s.dK, n, i);
      PartPrefix(s.values, r.v, s.dV, n, i);
    }
  }

  lemma {:induction false} OneMorePart(buffer: seq<real>, d: nat, n: nat, part: seq<real>)
    requires |buffer| == Cells(n, d) && |part| == d
    ensures |buffer + part| == Cells(n + 1, d) && Part(buffer + part, d, n) == part
  {
    CellsStep(n, d);
  }

  lemma {:induction false} PartPrefix(buffer: seq<real>, more: seq<real>, d: nat, n: nat, i: nat)
    requires |buffer| == Cells(n, d) && i < n
    ensures Cells(i + 1, d) <= |buffer| && Part(buffer + more, d, i) == Part(buffer, d, i)
  {
    hide Cells;
    PartFits(n, d, i);
    CellsStep(i, d);
  }

  /** Restoring a snapshot gives the memory's live rows, in their order, with their owners and times, and an empty log. */
  lemma {:induction false} RestoreSnapshot(m: Memory)
    requires Sound(m)
    ensures Restore(SnapshotOf(m)) == Ok(LiveOnly(m))
  {
    hide Flatten, Live, Rebuilt;
    LiveAre(m, m.order);
    LiveDistinct(m, m.order);
    var ids, s := Live(m, m.order), SnapshotOf(m);
    FlattenParts(m, ids);
    RestoreAcceptsIff(s);
    RebuiltFlatten(m, ids);
    assert ids[..|ids|] == ids;
    assert Rebuilt(s, |ids|).rows == LiveOnly(m).rows;
  }

  lemma {:induction false} RebuiltFlatten(m: Memory, ids: seq<string>)
    requires Distinct(ids)
    requires forall id :: id in ids ==>
      id in m.rows && !m.rows[id].deleted && |m.rows[id].k| == m.dK && |m.rows[id].v| == m.dV
    ensures Shapely(Flatten(m, ids)) && Flatten(m, ids).ids == ids
    ensures Rebuilt(Flatten(m, ids), |ids|).rows == map id | id in ids :: m.rows[id]
  {
    hide Flatten, RowAt, Shapely, Rebuilt;
    FlattenParts(m, ids);
    var s := Flatten(m, ids);
    RebuiltRows(s, |ids|);
    assert ids[..|ids|] == ids;
    var r := Rebuilt(s, |ids|).rows;
    forall id | id in ids ensures r[id] == m.rows[id] {
      var i :| 0 <= i < |ids| && ids[i] == id;
      assert r[ids[i]] == RowAt(s, i);
    }
  }

  lemma {:induction false} AllLive(m: Memory, order: seq<string>)
    requires forall id :: id in order ==> Alive(m, id)
    ensures Live(m, order) == order
  {
    if order != [] {
      AllLive(m, order[..|order| - 1]);
      assert order == order[..|order| - 1] + [order[|order| - 1]];
    }
  }

  lemma {:induction false} FlattenSame(m: Memory, r: Memory, ids: seq<string>)
    requires forall id :: id in ids ==> id in m.rows && id in r.rows && m.rows[id] == r.rows[id]
    requires m.dK == r.dK && m.dV == r.dV
    ensures Flatten(m, ids) == Flatten(r, ids)
  {
    if ids != [] {
      FlattenSame(m, r, ids[..|ids| - 1]);
    }
  }

  /** Every read of the restored memory is what it was: each id, the whole snapshot, and who may write or delete. */
  lemma {:induction false} ReadsSurvive(m: Memory, id: string, owner: string)
    requires Sound(m)
    ensures ReadExact(LiveOnly(m), id) == ReadExact(m, id) && Refused(LiveOnly(m), id, owner) == Refused(m, id, owner)
    ensures SnapshotOf(LiveOnly(m)) == SnapshotOf(m)
    ensures Sound(LiveOnly(m))
  {
    hide Flatten, Live;
    LiveAre(m, m.order);
    LiveDistinct(m, m.order);
    var r := LiveOnly(m);
    assert forall x :: Alive(r, x) <==> Alive(m, x);
    AllLive(r, r.order);
    LiveAre(r, r.order);
    FlattenSame(m, r, r.order);
  }

  /** And the other way round: what an accepted snapshot restores to has that snapshot. */
  lemma {:induction false} SnapshotRestore(s: Snapshot)
    requires Restore(s).Ok?
    ensures SnapshotOf(Restore(s).value) == s
  {
    hide Flatten, RowAt, Live, Part, Shapely, Rebuilt, Distinct, Sound, Restore;
    var m := Restore(s).value;
    RestoredRows(s);
    AllLive(m, m.order);
    LiveAre(m, m.order);
    FlattenParts(m, s.ids);
    SameRows(s, Flatten(m, s.ids));
  }

  /** The restored memory holds the snapshot's rows under its ids, all of them live. */
  lemma {:induction false} RestoredRows(s: Snapshot)
    requires Restore(s).Ok?
    ensures
      var m := Restore(s).value;
      && Shapely(s) && m.dK == s.dK && m.dV == s.dV && m.order == s.ids
      && (forall i :: 0 <= i < |s.ids| ==> s.ids[i] in m.rows && m.rows[s.ids[i]] == RowAt(s, i))
      && (forall id :: id in s.ids ==>
        id in m.rows && !m.rows[id].deleted && |m.rows[id].k| == m.dK && |m.rows[id].v| == m.dV)
  {
    hide RowAt, Part, Shapely, Rebuilt, Distinct;
    RestoreAcceptsIff(s);
    RebuiltRows(s, |s.ids|);
    assert s.ids[..|s.ids|] == s.ids;
    var m := Restore(s).value;
    forall id | id in s.ids
      ensures id in m.rows && !m.rows[id].deleted && |m.rows[id].k| == m.dK && |m.rows[id].v| == m.dV
    {
      var i :| 0 <= i < |s.ids| && s.ids[i] == id;
      RowAtAlive(s, i);
    }
  }

  lemma {:induction false} RowAtAlive(s: Snapshot, i: nat)
    requires Shapely(s) && i < |s.ids|
    ensures !RowAt(s, i).deleted
  {
  }

  /** Snapshots with the same ids and the same rows are the same. */
  lemma {:induction false} SameRows(s: Snapshot, t: Snapshot)
    requires Shapely(s) && Shapely(t) && s.ids == t.ids && s.dK == t.dK && s.dV == t.dV
    requires forall i :: 0 <= i < |s.ids| ==> RowAt(s, i) == RowAt(t, i)
    ensures s == t
  {
    ShapelySizes(s);
    ShapelySizes(t);
    hide Part, RowAt, Shapely, Cells, SamePart;
    forall i | 0 <= i < |s.ids|
      ensures s.owners[i] == t.owners[i] && s.writtenAt[i] == t.writtenAt[i]
      ensures SamePart(s.keys, t.keys, s.dK, i) && SamePart(s.values, t.values, s.dV, i)
    {
      SameRow(s, t, i);
    }
    SameBuffer(s.keys, t.keys, s.dK, |s.ids|);
    SameBuffer(s.values, t.values, s.dV, |s.ids|);
  }

  lemma {:induction false} ShapelySizes(s: Snapshot)
    requires Shapely(s)
    ensures |s.owners| == |s.writtenAt| == |s.ids| && |s.keys| == Cells(|s.ids|, s.dK) && |s.values| == Cells(|s.ids|, s.dV)
  {
  }

  lemma {:induction false} SameRow(s: Snapshot, t: Snapshot, i: nat)
    requires Shapely(s) && Shapely(t) && s.ids == t.ids && s.dK == t.dK && s.dV == t.dV && i < |s.ids|
    requires RowAt(s, i) == RowAt(t, i)
    ensures s.owners[i] == t.owners[i] && s.writtenAt[i] == t.writtenAt[i]
    ensures SamePart(s.keys, t.keys, s.dK, i) && SamePart(s.values, t.values, s.dV, i)
  {
    hide Part;
    PartFits(|s.ids|, s.dK, i);
    PartFits(|s.ids|, s.dV, i);
  }

  ghost predicate SamePart(a: seq<real>, b: seq<real>, d: nat, i: nat) {
    Cells(i + 1, d) <= |a| == |b| && Part(a, d, i) == Part(b, d, i)
  }

  lemma {:induction false} SameBuffer(a: seq<real>, b: seq<real>, d: nat, n: nat)
    requires |a| == |b| == Cells(n, d)
    requires forall i :: 0 <= i < n ==> SamePart(a, b, d, i)
    ensures a == b
    decreases n
  {
    hide Part, Cells;
    if n == 0 {
      CellsStep(0, d);
    } else {
      var c := Cells(n - 1, d);
      LastPart(a, d, n);
      LastPart(b, d, n);
      forall i | 0 <= i < n - 1 ensures SamePart(a[..c], b[..c], d, i) {
        assert SamePart(a, b, d, i);
        PartPrefix(a[..c], a[c..], d, n - 1, i);
        PartPrefix(b[..c], b[c..], d, n - 1, i);
      }
      SameBuffer(a[..c], b[..c], d, n - 1);
      assert SamePart(a, b, d, n - 1);
    }
  }

  lemma {:induction false} LastPart(a: seq<real>, d: nat, n: nat)
    requires |a| == Cells(n, d) && n > 0
    ensures Cells(n - 1, d) <= |a| && a[Cells(n - 1, d)..] == Part(a, d, n - 1)
    ensures a == a[..Cells(n - 1, d)] + a[Cells(n - 1, d)..]
  {
    hide Cells;
    CellsStep(n - 1, d);
  }

  // ------------------------------------------------------------------ writing after a restore

  /** The id is deleted and a live row comes after it in the insertion order. */
  ghost predicate LeavesAGap(m: Memory, id: string) {
    id in m.rows && m.rows[id].deleted
    && exists i, j :: 0 <= i < j < |m.order| && m.order[i] == id && Alive(m, m.order[j])
  }

  lemma {:induction false} LiveConcat(m: Memory, a: seq<string>, b: seq<string>)
    ensures Live(m, a + b) == Live(m, a) + Live(m, b)
    decreases |b|
  {
    if b == [] {
      assert a + b == a;
    } else {
      var most, last := b[..|b| - 1], b[|b| - 1];
      LiveConcat(m, a, most);
      assert a + b == a + most + [last];
      assert (a + b)[..|a + b| - 1] == a + most;
    }
  }

  lemma {:induction false} LiveSame(m: Memory, r: Memory, order: seq<string>)
    requires forall id :: id in order ==> (Alive(m, id) <==> Alive(r, id))
    ensures Live(m, order) == Live(r, order)
  {
    if order != [] {
      LiveSame(m, r, order[..|order| - 1]);
      assert order == order[..|order| - 1] + [order[|order| - 1]];
    }
  }

  /** The live ids after a write, in order: a deleted id comes back at its old place. */
  lemma {:induction false} PlaceOf(m: Memory, id: string) returns (i: nat)
    requires Sound(m)
    ensures i <= |m.order| && (id in m.rows <==> i < |m.order|) && (i < |m.order| ==> m.order[i] == id)
    ensures id !in m.order[..i] && (i < |m.order| ==> id !in m.order[i + 1..])
  {
    if id in m.rows {
      assert id in m.order;
      i :| 0 <= i < |m.order| && m.order[i] == id;
    } else {
      i := |m.order|;
      assert id !in m.order;
    }
  }

  lemma {:induction false} LiveAfterPut(m: Memory, id: string, k: seq<real>, v: seq<real>, owner: string, now: real)
    returns (i: nat)
    requires Sound(m)
    ensures i <= |m.order| && (id in m.rows <==> i < |m.order|) && (i < |m.order| ==> m.order[i] == id)
    ensures
      var r, rest := Put(m, id, k, v, owner, now), if i < |m.order| then m.order[i + 1..] else [];
      && Live(r, r.order) == Live(m, m.order[..i]) + [id] + Live(m, rest)
      && Live(m, m.order) == Live(m, m.order[..i]) + (if Alive(m, id) then [id] else []) + Live(m, rest)
  {
    hide Live;
    var r := Put(m, id, k, v, owner, now);
    i := PlaceOf(m, id);
    var front, rest := m.order[..i], if i < |m.order| then m.order[i + 1..] else [];
    assert r.order == front + [id] + rest;
    hide Sound;
    LiveSame(m, r, front);
    LiveSame(m, r, rest);
    LiveAround(r, front, id, rest);
    if i < |m.order| {
      assert m.order == front + [id] + rest;
      LiveAround(m, front, id, rest);
    } else {
      assert m.order == front;
      LiveNone(m);
    }
  }

  lemma {:induction false} LiveAround(m: Memory, front: seq<string>, id: string, rest: seq<string>)
    ensures Live(m, front + [id] + rest) == Live(m, front) + (if Alive(m, id) then [id] else []) + Live(m, rest)
  {
    hide Live;
    LiveConcat(m, front + [id], rest);
    LiveConcat(m, front, [id]);
    LiveOne(m, id);
  }

  lemma {:induction false} LiveOne(m: Memory, id: string)
    ensures Live(m, [id]) == if Alive(m, id) then [id] else []
  {
    assert Live(m, [id][..0]) == [];
  }

  lemma {:induction false} LiveNone(m: Memory)
    ensures Live(m, []) == []
  {
  }

  /** A write to a restored memory keeps the order that the original would have, exactly when it does not bring back a
      deleted id that live rows follow: the original puts it at its old place, the restored memory at the end. */
  lemma {:induction false} WriteAfterRestoreIff(m: Memory, id: string, k: seq<real>, v: seq<real>, owner: string,
                                                now: real)
    requires Sound(m) && Write(m, id, k, v, owner, now).Ok?
    ensures Write(LiveOnly(m), id, k, v, owner, now).Ok?
    ensures
      var a, b := Write(m, id, k, v, owner, now).value, Write(LiveOnly(m), id, k, v, owner, now).value;
      && (forall x :: ReadExact(b, x) == ReadExact(a, x))
      && (SnapshotOf(b).ids == SnapshotOf(a).ids <==> !LeavesAGap(m, id))
  {
    hide Live, Flatten, SnapshotOf, LeavesAGap;
    var c := LiveOnly(m);
    ReadsSurvive(m, id, owner);
    var a, b := Put(m, id, k, v, owner, now), Put(c, id, k, v, owner, now);
    PutSound(m, id, k, v, owner, now);
    PutSound(c, id, k, v, owner, now);
    SnapshotIds(a);
    SnapshotIds(b);
    OrderAfterRestore(m, id, k, v, owner, now);
  }

  lemma {:induction false} OrderAfterRestore(m: Memory, id: string, k: seq<real>, v: seq<real>, owner: string,
                                             now: real)
    requires Sound(m) && Sound(LiveOnly(m))
    ensures
      var a, b := Put(m, id, k, v, owner, now), Put(LiveOnly(m), id, k, v, owner, now);
      Live(b, b.order) == Live(a, a.order) <==> !LeavesAGap(m, id)
  {
    hide Live, LeavesAGap;
    var c := LiveOnly(m);
    var a, b := Put(m, id, k, v, owner, now), Put(c, id, k, v, owner, now);
    LiveAre(m, m.order);
    assert forall x :: Alive(c, x) <==> Alive(m, x);
    AllLive(c, c.order);
    LiveAre(c, c.order);
    var i := LiveAfterPut(m, id, k, v, owner, now);
    var j := LiveAfterPut(c, id, k, v, owner, now);
    var after := if i < |m.order| then m.order[i + 1..] else [];
    var front, rest := Live(m, m.order[..i]), Live(m, after);
    if Alive(m, id) {
      NoGap(m, id);
    } else {
      assert id !in c.rows && b.order == c.order + [id];
      assert c.order[..j] == c.order;
      LiveNone(c);
      assert Live(b, b.order) == front + rest + [id];
      GapIff(m, id, i);
      LiveAre(m, after);
      EndOrPlace(front, rest, id);
    }
  }

  lemma {:induction false} NoGap(m: Memory, id: string)
    requires Alive(m, id)
    ensures !LeavesAGap(m, id)
  {
  }

  lemma {:induction false} SnapshotIds(m: Memory)
    requires Sound(m)
    ensures SnapshotOf(m).ids == Live(m, m.order)
  {
    hide Live, Flatten;
    LiveAre(m, m.order);
    FlattenParts(m, Live(m, m.order));
  }

  /** Row `i` of the snapshot is that row: owner and time at `i`, cells at the `i`-th stretches of the two buffers. */
  ghost predicate Lists(s: Snapshot, i: nat, row: Row) {
    && i < |s.owners| && i < |s.writtenAt| && row.deleted == false
    && s.owners[i] == row.owner && s.writtenAt[i] == row.writtenAt
    && CellsOf(row.k, s.keys, s.dK, i) && CellsOf(row.v, s.values, s.dV, i)
  }

  lemma {:induction false} RowAtLists(s: Snapshot, i: nat)
    requires Shapely(s) && i < |s.ids|
    ensures Lists(s, i, RowAt(s, i))
  {
    hide CellsOf;
    PartIs(s.keys, |s.ids|, s.dK, i);
    PartIs(s.values, |s.ids|, s.dV, i);
  }

  /** Before or after in the order is before or after among the live. */
  lemma {:induction false} LiveInOrder(m: Memory, a: nat, b: nat)
    requires a < b < |m.order| && Alive(m, m.order[a]) && Alive(m, m.order[b])
    ensures exists i, j :: 0 <= i < j < |Live(m, m.order)|
                           && Live(m, m.order)[i] == m.order[a] && Live(m, m.order)[j] == m.order[b]
  {
    hide Live;
    var front, rest := Live(m, m.order[..b]), Live(m, m.order[b..]);
    assert m.order == m.order[..b] + m.order[b..];
    LiveConcat(m, m.order[..b], m.order[b..]);
    LiveAre(m, m.order[..b]);
    LiveAre(m, m.order[b..]);
    assert m.order[..b][a] == m.order[a] && m.order[b..][0] == m.order[b];
    var i :| 0 <= i < |front| && front[i] == m.order[a];
    var j :| 0 <= j < |rest| && rest[j] == m.order[b];
    assert (front + rest)[i] == m.order[a] && (front + rest)[|front| + j] == m.order[b];
  }

  /** A snapshot lists every live row once and nothing else, in insertion order, its cells side by side. */
  lemma {:induction false} SnapshotIs(m: Memory)
    requires Sound(m)
    ensures
      var s := SnapshotOf(m);
      && s.dK == m.dK && s.dV == m.dV && |s.keys| == |s.ids| * m.dK && |s.values| == |s.ids| * m.dV
      && |s.owners| == |s.ids| && |s.writtenAt| == |s.ids|
      && (forall i :: 0 <= i < |s.ids| ==> s.ids[i] in m.rows && Lists(s, i, m.rows[s.ids[i]]))
      && (forall i, j :: 0 <= i < j < |s.ids| ==> s.ids[i] != s.ids[j])
      && (forall id :: id in m.rows && m.rows[id].deleted == false ==> id in s.ids)
      && (forall a, b :: 0 <= a < b < |m.order| && m.order[a] in s.ids && m.order[b] in s.ids ==>
            exists i, j :: 0 <= i < j < |s.ids| && s.ids[i] == m.order[a] && s.ids[j] == m.order[b])
  {
    hide Live, Flatten, Lists, RowAt;
    LiveAre(m, m.order);
    LiveDistinct(m, m.order);
    FlattenParts(m, Live(m, m.order));
    var s := SnapshotOf(m);
    forall i | 0 <= i < |s.ids| ensures Lists(s, i, m.rows[s.ids[i]]) {
      RowAtLists(s, i);
    }
    forall a, b | 0 <= a < b < |m.order| && m.order[a] in s.ids && m.order[b] in s.ids
      ensures exists i, j :: 0 <= i < j < |s.ids| && s.ids[i] == m.order[a] && s.ids[j] == m.order[b]
    {
      LiveInOrder(m, a, b);
    }
  }

  lemma {:induction false} GapIff(m: Memory, id: string, i: nat)
    requires Sound(m) && !Alive(m, id) && i <= |m.order|
    requires (id in m.rows <==> i < |m.order|) && (i < |m.order| ==> m.order[i] == id)
    ensures LeavesAGap(m, id) <==> Live(m, if i < |m.order| then m.order[i + 1..] else []) != []
  {
    hide Live;
    var rest := if i < |m.order| then m.order[i + 1..] else [];
    LiveAre(m, rest);
    var live := Live(m, rest);
    if live != [] {
      assert live[0] in rest && Alive(m, live[0]);
      var j :| 0 <= j < |rest| && rest[j] == live[0];
      assert m.order[i + 1 + j] == live[0];
    }
    if LeavesAGap(m, id) {
      var a, b :| 0 <= a < b < |m.order| && m.order[a] == id && Alive(m, m.order[b]);
      assert a == i;
      assert m.order[b] == rest[b - i - 1];
      assert m.order[b] in live;
    }
  }

  lemma {:induction false} EndOrPlace(front: seq<string>, rest: seq<string>, id: string)
    requires id !in rest
    ensures front + rest + [id] == front + [id] + rest <==> rest == []
  {
    if rest != [] {
      assert (front + [id] + rest)[|front|] == id;
      assert (front + rest + [id])[|front|] == rest[0];
    } else {
      assert front + rest == front && front + [id] + rest == front + [id];
    }
  }
}
