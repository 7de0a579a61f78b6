/** The key/value memory with owners and an audit log: what each operation does, as functions on values. */
module KvMemory {
  import opened Wrappers
  import opened Counting

  datatype Row = Row(k: seq<real>, v: seq<real>, owner: string, writtenAt: real, deleted: bool)

  datatype Act = Insert | Update | Delete

  datatype AuditEntry = AuditEntry(act: Act, id: string, owner: string, at: real)

  datatype Error =
    | DimensionMismatch(expected: nat, got: nat)
    | PermissionDenied(id: string, holder: string, requester: string)
    | KeyNotFound(id: string)
    | DuplicateKey(id: string)
    | InvalidArgument

  datatype Memory = Memory(dK: nat, dV: nat, rows: map<string, Row>, order: seq<string>, log: seq<AuditEntry>)

  function Empty(dK: nat, dV: nat): Memory {
    Memory(dK, dV, map[], [], [])
  }

  /** The rows have the memory's dimensions, and the insertion order lists the row ids once each. */
  ghost predicate Sound(m: Memory) {
    && (forall i, j :: 0 <= i < j < |m.order| ==> m.order[i] != m.order[j])
    && (forall id :: id in m.order <==> id in m.rows)
    && (forall id :: id in m.rows ==> |m.rows[id].k| == m.dK && |m.rows[id].v| == m.dV)
  }

  predicate Alive(m: Memory, id: string) {
    id in m.rows && !m.rows[id].deleted
  }

  /** A live row belongs to somebody else. */
  predicate Refused(m: Memory, id: string, owner: string) {
    Alive(m, id) && m.rows[id].owner != owner
  }

  /** What a write does once nothing speaks against it. */
  function Put(m: Memory, id: string, k: seq<real>, v: seq<real>, owner: string, now: real): Memory {
    m.(rows := m.rows[id := Row(k, v, owner, now, false)],
       order := if id in m.rows then m.order else m.order + [id],
       log := m.log + [AuditEntry(if id in m.rows then Update else Insert, id, owner, now)])
  }

  function Write(m: Memory, id: string, k: seq<real>, v: seq<real>, owner: string, now: real): Result<Memory, Error> {
    if |k| != m.dK then Err(DimensionMismatch(m.dK, |k|))
    else if |v| != m.dV then Err(DimensionMismatch(m.dV, |v|))
    else if Refused(m, id, owner) then Err(PermissionDenied(id, m.rows[id].owner, owner))
    else Ok(Put(m, id, k, v, owner, now))
  }

  /** The owner is checked before the tombstone is. */
  function Remove(m: Memory, id: string, owner: string, now: real): Result<Memory, Error> {
    if id !in m.rows then Err(KeyNotFound(id))
    else if m.rows[id].owner != owner then Err(PermissionDenied(id, m.rows[id].owner, owner))
    else if m.rows[id].deleted then Err(KeyNotFound(id))
    else Ok(m.(rows := m.rows[id := m.rows[id].(deleted := true)], log := m.log + [AuditEntry(Delete, id, owner, now)]))
  }

  function ReadExact(m: Memory, id: string): Option<(seq<real>, seq<real>)> {
    if Alive(m, id) then Some((m.rows[id].k, m.rows[id].v)) else None
  }

  // ------------------------------------------------------------------ what readers see

  /** Nothing but the row of `id` differs. */
  ghost predicate OthersKept(m: Memory, r: Memory, id: string) {
    && r.dK == m.dK && r.dV == m.dV
    && forall x :: x != id ==> (x in r.rows <==> x in m.rows) && (x in m.rows ==> r.rows[x] == m.rows[x])
                               && ReadExact(r, x) == ReadExact(m, x)
  }

  /** A write is accepted unless a length is wrong or the id is live and somebody else's. Then the id reads as what was
      written, it is the writer's, and no other id is touched. */
  lemma {:induction false} WriteIs(m: Memory, id: string, k: seq<real>, v: seq<real>, owner: string, now: real)
    ensures
      var r := Write(m, id, k, v, owner, now);
      && (r.Ok? <==> |k| == m.dK && |v| == m.dV
                     && !(id in m.rows && m.rows[id].deleted == false && m.rows[id].owner != owner))
      && (r.Err? ==> r.error == (if |k| != m.dK then DimensionMismatch(m.dK, |k|)
                                 else if |v| != m.dV then DimensionMismatch(m.dV, |v|)
                                 else PermissionDenied(id, m.rows[id].owner, owner)))
      && (r.Ok? ==>
            && ReadExact(r.value, id) == Some((k, v)) && OthersKept(m, r.value, id)
            && r.value.rows[id].owner == owner && r.value.rows[id].writtenAt == now
            && r.value.order == m.order + (if id in m.rows then [] else [id])
            && |r.value.log| == |m.log| + 1 && m.log <= r.value.log
            && r.value.log[|m.log|] == AuditEntry(if id !in m.rows then Insert else Update, id, owner, now))
  {
  }

  /** A delete is accepted when the id is live and the caller's. Then it reads as absent, and keeps its place and owner. */
  lemma {:induction false} RemoveIs(m: Memory, id: string, owner: string, now: real)
    ensures
      var r := Remove(m, id, owner, now);
      && (r.Ok? <==> id in m.rows && m.rows[id].deleted == false && m.rows[id].owner == owner)
      && (r.Err? ==> r.error == (if id in m.rows && m.rows[id].owner != owner
                                 then PermissionDenied(id, m.rows[id].owner, owner) else KeyNotFound(id)))
      && (r.Ok? ==>
            && ReadExact(r.value, id) == None && OthersKept(m, r.value, id)
            && id in r.value.rows && r.value.rows[id].owner == owner && r.value.order == m.order
            && r.value.log == m.log + [AuditEntry(Delete, id, owner, now)])
  {
  }

  // ------------------------------------------------------------------ batches

  /** The length of `n` rows of a row-major buffer. */
  function Cells(n: nat, d: nat): nat {
    n * d
  }

  lemma {:induction false} CellsStep(n: nat, d: nat)
    ensures Cells(n + 1, d) == Cells(n, d) + d && Cells(0, d) == 0
  {
  }

  lemma {:induction false} PartFits(n: nat, d: nat, i: nat)
    requires i < n
    ensures Cells(i + 1, d) <= Cells(n, d)
    decreases n
  {
    if i < n - 1 {
      PartFits(n - 1, d, i);
      CellsStep(n - 1, d);
    }
  }

  /** Row `i` of a row-major buffer. */
  function Part(buffer: seq<real>, d: nat, i: nat): (r: seq<real>)
    requires Cells(i + 1, d) <= |buffer|
    ensures |r| == d
  {
    CellsStep(i, d);
    buffer[Cells(i, d)..Cells(i + 1, d)]
  }

  datatype Batch = Batch(ids: seq<string>, keys: seq<real>, values: seq<real>, owner: string)

  ghost predicate Shaped(m: Memory, b: Batch) {
    |b.keys| == Cells(|b.ids|, m.dK) && |b.values| == Cells(|b.ids|, m.dV)
  }

  function KeyOf(m: Memory, b: Batch, i: nat): (r: seq<real>)
    requires Shaped(m, b) && i < |b.ids|
    ensures |r| == m.dK
  {
    PartFits(|b.ids|, m.dK, i);
    Part(b.keys, m.dK, i)
  }

  function ValueOf(m: Memory, b: Batch, i: nat): (r: seq<real>)
    requires Shaped(m, b) && i < |b.ids|
    ensures |r| == m.dV
  {
    PartFits(|b.ids|, m.dV, i);
    Part(b.values, m.dV, i)
  }

  /** The first `n` rows of a batch written one by one, each at its own time, until one is refused. */
  ghost function WriteEach(m: Memory, b: Batch, times: seq<real>, n: nat): (r: Result<Memory, Error>)
    requires Shaped(m, b) && n <= |b.ids| == |times|
    ensures r.Ok? ==> r.value.dK == m.dK && r.value.dV == m.dV
  {
    if n == 0 then
      Ok(m)
    else
      var sofar :- WriteEach(m, b, times, n - 1);
      Write(sofar, b.ids[n - 1], KeyOf(m, b, n - 1), ValueOf(m, b, n - 1), b.owner, times[n - 1])
  }

  /** The row is the `i`-th stretch of `d` cells of the buffer. */
  ghost predicate CellsOf(row: seq<real>, buffer: seq<real>, d: nat, i: nat) {
    |row| == d && forall j :: 0 <= j < d ==> 0 <= i * d + j < |buffer| && row[j] == buffer[i * d + j]
  }

  lemma {:induction false} PartIs(buffer: seq<real>, n: nat, d: nat, i: nat)
    requires |buffer| == Cells(n, d) && i < n
    ensures Cells(i + 1, d) <= |buffer| && CellsOf(Part(buffer, d, i), buffer, d, i)
  {
    PartFits(n, d, i);
    CellsStep(i, d);
  }

  /** Nothing in the batch is refused by the memory as it stands. */
  ghost predicate Permitted(m: Memory, b: Batch, n: nat)
    requires n <= |b.ids|
  {
    forall i :: 0 <= i < n ==> !Refused(m, b.ids[i], b.owner)
  }

  /** The batch put in row by row without a check, all at one time. */
  ghost function PutEach(m: Memory, b: Batch, now: real, n: nat): (r: Memory)
    requires Shaped(m, b) && n <= |b.ids|
    ensures r.dK == m.dK && r.dV == m.dV
  {
    if n == 0 then m
    else Put(PutEach(m, b, now, n - 1), b.ids[n - 1], KeyOf(m, b, n - 1), ValueOf(m, b, n - 1), b.owner, now)
  }

  function Forever(now: real, n: nat): (r: seq<real>)
    ensures |r| == n && forall i :: 0 <= i < n ==> r[i] == now
  {
    seq(n, i requires 0 <= i < n => now)
  }

  /** A live row is refused after part of the batch is in exactly when it was refused before: rows of the batch itself
      carry the batch's owner. */
  lemma {:induction false} RefusedLater(m: Memory, b: Batch, now: real, n: nat, id: string)
    requires Shaped(m, b) && n <= |b.ids|
    ensures
      var r := PutEach(m, b, now, n);
      if id in b.ids[..n] then Alive(r, id) && r.rows[id].owner == b.owner
      else (id in r.rows <==> id in m.rows) && (id in m.rows ==> r.rows[id] == m.rows[id])
  {
    if n > 0 {
      RefusedLater(m, b, now, n - 1, id);
      assert b.ids[..n] == b.ids[..n - 1] + [b.ids[n - 1]];
    }
  }

  /** The id occurs in row `i` of the batch and in no later row before row `n`. */
  ghost predicate LastAt(b: Batch, id: string, n: nat, i: nat)
    requires n <= |b.ids|
  {
    i < n && b.ids[i] == id && forall j :: i < j < n ==> b.ids[j] != id
  }

  /** The row is row `i` of the batch: its cells of both buffers, the batch's owner, the batch's time. */
  ghost predicate IsBatchRow(m: Memory, b: Batch, now: real, i: nat, row: Row) {
    && CellsOf(row.k, b.keys, m.dK, i) && CellsOf(row.v, b.values, m.dV, i)
    && row.owner == b.owner && row.writtenAt == now && row.deleted == false
  }

  lemma {:induction false} BatchRowIs(m: Memory, b: Batch, now: real, i: nat)
    requires Shaped(m, b) && i < |b.ids|
    ensures IsBatchRow(m, b, now, i, Row(KeyOf(m, b, i), ValueOf(m, b, i), b.owner, now, false))
  {
    hide CellsOf;
    PartIs(b.keys, |b.ids|, m.dK, i);
    PartIs(b.values, |b.ids|, m.dV, i);
  }

  lemma {:induction false} LastRowReads(m: Memory, b: Batch, now: real, n: nat, id: string, i: nat)
    requires Shaped(m, b) && n <= |b.ids| && LastAt(b, id, n, i)
    ensures
      var r := PutEach(m, b, now, n);
      id in r.rows && IsBatchRow(m, b, now, i, r.rows[id])
  {
    hide IsBatchRow;
    if i == n - 1 {
      BatchRowIs(m, b, now, i);
    } else {
      LastRowReads(m, b, now, n - 1, id, i);
    }
  }

  /** The log entry of row `i`: an update when the id was there already, before the batch or earlier in it. */
  ghost function BatchEntry(m: Memory, b: Batch, now: real, i: nat): AuditEntry
    requires i < |b.ids|
  {
    AuditEntry(if b.ids[i] in m.rows || b.ids[i] in b.ids[..i] then Update else Insert, b.ids[i], b.owner, now)
  }

  lemma {:induction false} EachLogged(m: Memory, b: Batch, now: real, n: nat)
    requires Shaped(m, b) && n <= |b.ids|
    ensures PutEach(m, b, now, n).log == m.log + seq(n, i requires 0 <= i < n => BatchEntry(m, b, now, i))
  {
    if n > 0 {
      EachLogged(m, b, now, n - 1);
      RefusedLater(m, b, now, n - 1, b.ids[n - 1]);
      var before := PutEach(m, b, now, n - 1);
      assert b.ids[n - 1] in before.rows <==> b.ids[n - 1] in m.rows || b.ids[n - 1] in b.ids[..n - 1];
      assert PutEach(m, b, now, n).log == before.log + [BatchEntry(m, b, now, n - 1)];
    }
  }

  /** Writing the rows one by one at one time gives what the batch gives, as long as nothing is refused beforehand. */
  lemma {:induction false} EachIsBatch(m: Memory, b: Batch, now: real, n: nat)
    requires Shaped(m, b) && n <= |b.ids| && Permitted(m, b, n)
    ensures WriteEach(m, b, Forever(now, |b.ids|), n) == Ok(PutEach(m, b, now, n))
  {
    if n > 0 {
      EachIsBatch(m, b, now, n - 1);
      RefusedLater(m, b, now, n - 1, b.ids[n - 1]);
    }
  }

  /** The first refusal the batch's check meets is the one the loop of writes stops at. */
  lemma {:induction false} EachIsRefused(m: Memory, b: Batch, now: real, i: nat, n: nat)
    requires Shaped(m, b) && i < n <= |b.ids| && Permitted(m, b, i) && Refused(m, b.ids[i], b.owner)
    ensures WriteEach(m, b, Forever(now, |b.ids|), n) == Err(PermissionDenied(b.ids[i], m.rows[b.ids[i]].owner, b.owner))
  {
    if n == i + 1 {
      EachIsBatch(m, b, now, i);
      RefusedLater(m, b, now, i, b.ids[i]);
    } else {
      EachIsRefused(m, b, now, i, n - 1);
    }
  }

  // ------------------------------------------------------------------ up to the clock

  function RowTimeless(r: Row): Row {
    r.(writtenAt := 0.0)
  }

  function EntryTimeless(e: AuditEntry): AuditEntry {
    e.(at := 0.0)
  }

  function Timeless(m: Memory): Memory {
    m.(rows := map id | id in m.rows :: RowTimeless(m.rows[id]),
       log := seq(|m.log|, i requires 0 <= i < |m.log| => EntryTimeless(m.log[i])))
  }

  lemma {:induction false} PutTimeless(m: Memory, id: string, k: seq<real>, v: seq<real>, owner: string, now: real)
    ensures Timeless(Put(m, id, k, v, owner, now)) == Put(Timeless(m), id, k, v, owner, 0.0)
  {
    var a, c := Timeless(Put(m, id, k, v, owner, now)), Put(Timeless(m), id, k, v, owner, 0.0);
    assert a.rows == c.rows;
    assert a.log == c.log;
  }

  /** A write does the same to a memory whatever the clock says, except for the times it records. */
  lemma {:induction false} WriteTimeless(m: Memory, id: string, k: seq<real>, v: seq<real>, owner: string, now: real)
    ensures
      match Write(m, id, k, v, owner, now)
      case Ok(r) => Write(Timeless(m), id, k, v, owner, 0.0) == Ok(Timeless(r))
      case Err(e) => Write(Timeless(m), id, k, v, owner, 0.0) == Err(e)
  {
    hide Timeless, Put;
    PutTimeless(m, id, k, v, owner, now);
    TimelessRows(m, id);
  }

  lemma {:induction false} TimelessRows(m: Memory, id: string)
    ensures Timeless(m).dK == m.dK && Timeless(m).dV == m.dV && (id in Timeless(m).rows <==> id in m.rows)
    ensures id in m.rows ==> Timeless(m).rows[id] == RowTimeless(m.rows[id])
  {
  }

  lemma {:induction false} EachTimeless(m: Memory, b: Batch, times: seq<real>, n: nat)
    requires Shaped(m, b) && n <= |b.ids| == |times|
    ensures Shaped(Timeless(m), b)
    ensures
      match WriteEach(m, b, times, n)
      case Ok(r) => WriteEach(Timeless(m), b, Forever(0.0, |b.ids|), n) == Ok(Timeless(r))
      case Err(e) => WriteEach(Timeless(m), b, Forever(0.0, |b.ids|), n) == Err(e)
  {
    hide Timeless, Write;
    TimelessRows(m, "");
    if n > 0 {
      EachTimeless(m, b, times, n - 1);
      var r := WriteEach(m, b, times, n - 1);
      if r.Ok? {
        WriteTimeless(r.value, b.ids[n - 1], KeyOf(m, b, n - 1), ValueOf(m, b, n - 1), b.owner, times[n - 1]);
      }
    }
  }

  /** The first of the batch's ids that the memory refuses, counted from `i`. */
  ghost function FirstRefused(m: Memory, b: Batch, i: nat): (k: nat)
    requires i <= |b.ids|
    ensures i <= k <= |b.ids|
    ensures k < |b.ids| ==> Refused(m, b.ids[k], b.owner)
    ensures forall j :: i <= j < k ==> !Refused(m, b.ids[j], b.owner)
    decreases |b.ids| - i
  {
    if i == |b.ids| || Refused(m, b.ids[i], b.owner) then i else FirstRefused(m, b, i + 1)
  }

  /** The shape and all the owners are checked before any row is put in. */
  ghost function BulkInsert(m: Memory, b: Batch, now: real): Result<Memory, Error> {
    var n, k := |b.ids|, FirstRefused(m, b, 0);
    if |b.keys| != Cells(n, m.dK) then Err(DimensionMismatch(Cells(n, m.dK), |b.keys|))
    else if |b.values| != Cells(n, m.dV) then Err(DimensionMismatch(Cells(n, m.dV), |b.values|))
    else if k < n then Err(PermissionDenied(b.ids[k], m.rows[b.ids[k]].owner, b.owner))
    else Ok(PutEach(m, b, now, n))
  }

  /** A batch does what writing its rows one by one does, each whenever it likes, except for the times recorded; and it
      fails exactly when that loop does, with the loop's own error. */
  lemma {:induction false} BulkIsWrites(m: Memory, b: Batch, now: real, times: seq<real>)
    requires Shaped(m, b) && |times| == |b.ids|
    ensures
      match WriteEach(m, b, times, |b.ids|)
      case Ok(r) => BulkInsert(m, b, now).Ok? && Timeless(BulkInsert(m, b, now).value) == Timeless(r)
      case Err(e) => BulkInsert(m, b, now) == Err(e)
  {
    hide Timeless, PutEach, WriteEach;
    var n, k, same := |b.ids|, FirstRefused(m, b, 0), Forever(now, |b.ids|);
    EachTimeless(m, b, times, n);
    EachTimeless(m, b, same, n);
    if k < n {
      EachIsRefused(m, b, now, k, n);
      assert WriteEach(m, b, same, n).Err?;
    } else {
      EachIsBatch(m, b, now, n);
    }
  }

  /** An accepted batch: every id in it reads as its last row in the batch, no other id is touched, and every row is
      logged. */
  lemma {:induction false} BulkReads(m: Memory, b: Batch, now: real, id: string)
    requires BulkInsert(m, b, now).Ok?
    ensures
      var r := BulkInsert(m, b, now).value;
      && (forall i :: LastAt(b, id, |b.ids|, i) ==> id in r.rows && IsBatchRow(m, b, now, i, r.rows[id]))
      && (id in b.ids ==> exists i :: LastAt(b, id, |b.ids|, i))
      && (id !in b.ids ==> (id in r.rows <==> id in m.rows) && (id in m.rows ==> r.rows[id] == m.rows[id]))
      && r.log == m.log + seq(|b.ids|, i requires 0 <= i < |b.ids| => BatchEntry(m, b, now, i))
  {
    hide IsBatchRow, PutEach;
    var n := |b.ids|;
    forall i | LastAt(b, id, n, i)
      ensures id in PutEach(m, b, now, n).rows && IsBatchRow(m, b, now, i, PutEach(m, b, now, n).rows[id])
    {
      LastRowReads(m, b, now, n, id, i);
    }
    assert b.ids[..n] == b.ids;
    RefusedLater(m, b, now, n, id);
    EachLogged(m, b, now, n);
    LastOccurs(b, id, n);
  }

  lemma {:induction false} LastOccurs(b: Batch, id: string, n: nat)
    requires n <= |b.ids|
    ensures id in b.ids[..n] ==> exists i :: LastAt(b, id, n, i)
  {
    if id in b.ids[..n] {
      if b.ids[n - 1] == id {
        assert LastAt(b, id, n, n - 1);
      } else {
        LastOccurs(b, id, n - 1);
        assert b.ids[..n] == b.ids[..n - 1] + [b.ids[n - 1]];
        var i :| LastAt(b, id, n - 1, i);
        assert LastAt(b, id, n, i);
      }
    }
  }

  /** A batch goes in exactly when its buffers have its shape and no live row of another owner is in its way. */
  lemma {:induction false} BulkAcceptsIff(m: Memory, b: Batch, now: real)
    ensures BulkInsert(m, b, now).Ok? <==>
      && |b.keys| == |b.ids| * m.dK && |b.values| == |b.ids| * m.dV
      && forall id :: id in b.ids && id in m.rows && m.rows[id].owner != b.owner ==> m.rows[id].deleted == true
    ensures BulkInsert(m, b, now).Ok? <==> Shaped(m, b) && Permitted(m, b, |b.ids|)
  {
    var k := FirstRefused(m, b, 0);
    if k < |b.ids| {
      assert !Permitted(m, b, |b.ids|);
    }
  }

  // ------------------------------------------------------------------ soundness

  lemma {:induction false} PutSound(m: Memory, id: string, k: seq<real>, v: seq<real>, owner: string, now: real)
    requires Sound(m) && |k| == m.dK && |v| == m.dV
    ensures Sound(Put(m, id, k, v, owner, now))
  {
    var r := Put(m, id, k, v, owner, now);
    if id !in m.rows {
      assert id !in m.order;
      assert r.order == m.order + [id];
    }
  }

  lemma {:induction false} RemoveSound(m: Memory, id: string, owner: string, now: real)
    requires Sound(m) && Remove(m, id, owner, now).Ok?
    ensures Sound(Remove(m, id, owner, now).value)
  {
  }

  lemma {:induction false} PutEachSound(m: Memory, b: Batch, now: real, n: nat)
    requires Sound(m) && Shaped(m, b) && n <= |b.ids|
    ensures Sound(PutEach(m, b, now, n))
  {
    hide Sound, Put;
    if n > 0 {
      PutEachSound(m, b, now, n - 1);
      PutSound(PutEach(m, b, now, n - 1), b.ids[n - 1], KeyOf(m, b, n - 1), ValueOf(m, b, n - 1), b.owner, now);
    }
  }
}
