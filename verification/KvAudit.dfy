/** The audit log of the key/value memory: replaying it gives back who owns what, and it is a legal history. */
module KvAudit {
  import opened Wrappers
  import opened KvMemory

  /** What the log says of an id: its owner, whether it is live, and when it was last written. */
  datatype Standing = Standing(owner: string, alive: bool, since: real)

  /** The entries played back from the first. */
  function Replay(log: seq<AuditEntry>): map<string, Standing> {
    if log == [] then map[]
    else Play(Replay(log[..|log| - 1]), log[|log| - 1])
  }

  function Play(s: map<string, Standing>, e: AuditEntry): map<string, Standing> {
    match e.act
    case Delete => if e.id in s then s[e.id := s[e.id].(alive := false)] else s
    case _ => s[e.id := Standing(e.owner, true, e.at)]
  }

  /** What an entry presupposes: inserts are of new ids, updates of known ones that are dead or the owner's, and only the
      owner deletes, and only live rows. */
  predicate MayFollow(s: map<string, Standing>, e: AuditEntry) {
    match e.act
    case Insert => e.id !in s
    case Update => e.id in s && (s[e.id].alive ==> s[e.id].owner == e.owner)
    case Delete => e.id in s && s[e.id].alive && s[e.id].owner == e.owner
  }

  ghost predicate Legal(log: seq<AuditEntry>) {
    forall n :: 0 <= n < |log| ==> MayFollow(Replay(log[..n]), log[n])
  }

  /** The ids in the order in which the log inserts them. */
  function Inserted(log: seq<AuditEntry>): seq<string> {
    if log == [] then []
    else Inserted(log[..|log| - 1]) + (if log[|log| - 1].act.Insert? then [log[|log| - 1].id] else [])
  }

  function StandingsOf(m: Memory): map<string, Standing> {
    map id | id in m.rows :: Standing(m.rows[id].owner, !m.rows[id].deleted, m.rows[id].writtenAt)
  }

  /** The log accounts for the rows, their owners and their order. */
  ghost predicate Audited(m: Memory) {
    Replay(m.log) == StandingsOf(m) && Legal(m.log) && Inserted(m.log) == m.order
  }

  lemma {:induction false} OneMoreEntry(log: seq<AuditEntry>, e: AuditEntry)
    requires Legal(log) && MayFollow(Replay(log), e)
    ensures Legal(log + [e]) && Replay(log + [e]) == Play(Replay(log), e)
    ensures Inserted(log + [e]) == Inserted(log) + if e.act.Insert? then [e.id] else []
  {
    hide MayFollow;
    var longer := log + [e];
    assert longer[..|log|] == log;
    forall n | 0 <= n < |longer| ensures MayFollow(Replay(longer[..n]), longer[n]) {
      if n < |log| {
        assert longer[..n] == log[..n];
      }
    }
  }

  lemma {:induction false} PutAudited(m: Memory, id: string, k: seq<real>, v: seq<real>, owner: string, now: real)
    requires Audited(m) && !Refused(m, id, owner)
    ensures Audited(Put(m, id, k, v, owner, now))
  {
    hide Legal, Replay, Inserted;
    var r := Put(m, id, k, v, owner, now);
    OneMoreEntry(m.log, r.log[|m.log|]);
    assert StandingsOf(r) == Play(StandingsOf(m), r.log[|m.log|]);
  }

  lemma {:induction false} RemoveAudited(m: Memory, id: string, owner: string, now: real)
    requires Audited(m) && Remove(m, id, owner, now).Ok?
    ensures Audited(Remove(m, id, owner, now).value)
  {
    hide Legal, Replay, Inserted;
    var r := Remove(m, id, owner, now).value;
    OneMoreEntry(m.log, r.log[|m.log|]);
    assert StandingsOf(r) == Play(StandingsOf(m), r.log[|m.log|]);
  }

  lemma {:induction false} PutEachAudited(m: Memory, b: Batch, now: real, n: nat)
    requires Audited(m) && Shaped(m, b) && n <= |b.ids| && Permitted(m, b, n)
    ensures Audited(PutEach(m, b, now, n))
  {
    hide Audited, Put;
    if n > 0 {
      PutEachAudited(m, b, now, n - 1);
      RefusedLater(m, b, now, n - 1, b.ids[n - 1]);
      assert !Refused(m, b.ids[n - 1], b.owner);
      PutAudited(PutEach(m, b, now, n - 1), b.ids[n - 1], KeyOf(m, b, n - 1), ValueOf(m, b, n - 1), b.owner, now);
    }
  }

  // ------------------------------------------------------------------ whole runs

  datatype Request =
    | WriteRow(id: string, k: seq<real>, v: seq<real>, owner: string)
    | RemoveRow(id: string, owner: string)
    | WriteBatch(batch: Batch)

  /** A request that fails leaves the memory as it was. */
  ghost function Serve(m: Memory, q: Request, now: real): Memory {
    var r :=
      match q
      case WriteRow(id, k, v, owner) => Write(m, id, k, v, owner, now)
      case RemoveRow(id, owner) => Remove(m, id, owner, now)
      case WriteBatch(b) => BulkInsert(m, b, now);
    if r.Ok? then r.value else m
  }

  /** The memory after requests served from empty, each at its own time. */
  ghost function Run(dK: nat, dV: nat, requests: seq<(Request, real)>): Memory {
    if requests == [] then Empty(dK, dV)
    else
      var last := requests[|requests| - 1];
      Serve(Run(dK, dV, requests[..|requests| - 1]), last.0, last.1)
  }

  lemma {:induction false} ServeKeeps(m: Memory, q: Request, now: real)
    requires Sound(m) && Audited(m)
    ensures Sound(Serve(m, q, now)) && Audited(Serve(m, q, now))
  {
    hide Sound, Audited, Put, PutEach;
    match q
    case WriteRow(id, k, v, owner) =>
      if Write(m, id, k, v, owner, now).Ok? {
        PutSound(m, id, k, v, owner, now);
        PutAudited(m, id, k, v, owner, now);
      }
    case RemoveRow(id, owner) =>
      if Remove(m, id, owner, now).Ok? {
        RemoveSound(m, id, owner, now);
        RemoveAudited(m, id, owner, now);
      }
    case WriteBatch(b) =>
      BulkAcceptsIff(m, b, now);
      if BulkInsert(m, b, now).Ok? {
        PutEachSound(m, b, now, |b.ids|);
        PutEachAudited(m, b, now, |b.ids|);
      }
  }

  /** After every run from empty the insertion order lists every id once, in the order of the log's inserts, and replaying
      the log gives every row's owner, liveness and time. */
  lemma {:induction false} EveryRunIsAudited(dK: nat, dV: nat, requests: seq<(Request, real)>)
    ensures Sound(Run(dK, dV, requests)) && Audited(Run(dK, dV, requests))
  {
    hide Serve;
    if requests != [] {
      hide Sound, Audited;
      var most, last := requests[..|requests| - 1], requests[|requests| - 1];
      EveryRunIsAudited(dK, dV, most);
      ServeKeeps(Run(dK, dV, most), last.0, last.1);
    }
  }

  // ------------------------------------------------------------------ what readers see over a run

  datatype Fact = Fact(k: seq<real>, v: seq<real>, owner: string, since: real)

  ghost function LastIndex(ids: seq<string>, id: string): nat
    requires id in ids
  {
    if ids[|ids| - 1] == id then |ids| - 1 else LastIndex(ids[..|ids| - 1], id)
  }

  /** The `i`-th stretch of `d` cells of a buffer. */
  ghost function Stretch(buffer: seq<real>, d: nat, i: nat): seq<real> {
    seq(d, j requires 0 <= j < d => if i * d + j < |buffer| then buffer[i * d + j] else 0.0)
  }

  /** The memory as a plain map from ids to facts: a write puts a fact in unless a length is wrong or the id is somebody
      else's, a delete takes out a fact of one's own, and of a batch the last row of every id goes in, or none at all. */
  ghost function FactStep(dK: nat, dV: nat, facts: map<string, Fact>, q: Request, now: real): map<string, Fact> {
    match q
    case WriteRow(id, k, v, owner) =>
      if |k| == dK && |v| == dV && (id in facts ==> facts[id].owner == owner) then facts[id := Fact(k, v, owner, now)]
      else facts
    case RemoveRow(id, owner) =>
      if id in facts && facts[id].owner == owner then facts - {id} else facts
    case WriteBatch(b) =>
      if |b.keys| == |b.ids| * dK && |b.values| == |b.ids| * dV
         && (forall id :: id in b.ids && id in facts ==> facts[id].owner == b.owner)
      then facts + (map id | id in b.ids ::
             Fact(Stretch(b.keys, dK, LastIndex(b.ids, id)), Stretch(b.values, dV, LastIndex(b.ids, id)), b.owner, now))
      else facts
  }

  ghost function FactRun(dK: nat, dV: nat, requests: seq<(Request, real)>): map<string, Fact> {
    if requests == [] then map[]
    else
      var last := requests[|requests| - 1];
      FactStep(dK, dV, FactRun(dK, dV, requests[..|requests| - 1]), last.0, last.1)
  }

  ghost function FactsOf(m: Memory): map<string, Fact> {
    map id | id in m.rows && m.rows[id].deleted == false ::
      Fact(m.rows[id].k, m.rows[id].v, m.rows[id].owner, m.rows[id].writtenAt)
  }

  lemma {:induction false} WriteRefines(m: Memory, id: string, k: seq<real>, v: seq<real>, owner: string, now: real)
    ensures FactsOf(Serve(m, WriteRow(id, k, v, owner), now))
            == FactStep(m.dK, m.dV, FactsOf(m), WriteRow(id, k, v, owner), now)
  {
    WriteIs(m, id, k, v, owner, now);
  }

  lemma {:induction false} RemoveRefines(m: Memory, id: string, owner: string, now: real)
    ensures FactsOf(Serve(m, RemoveRow(id, owner), now)) == FactStep(m.dK, m.dV, FactsOf(m), RemoveRow(id, owner), now)
  {
    RemoveIs(m, id, owner, now);
  }

  lemma {:induction false} LastIndexIs(b: Batch, id: string, n: nat)
    requires n <= |b.ids| && id in b.ids[..n]
    ensures LastAt(b, id, n, LastIndex(b.ids[..n], id))
  {
    if b.ids[n - 1] != id {
      assert b.ids[..n][..n - 1] == b.ids[..n - 1];
      LastIndexIs(b, id, n - 1);
    }
  }

  lemma {:induction false} BatchFact(m: Memory, b: Batch, now: real, id: string)
    requires BulkInsert(m, b, now).Ok?
    ensures
      var r, i := BulkInsert(m, b, now).value, if id in b.ids then LastIndex(b.ids, id) else 0;
      if id in b.ids then
        id in FactsOf(r) && FactsOf(r)[id] == Fact(Stretch(b.keys, m.dK, i), Stretch(b.values, m.dV, i), b.owner, now)
      else (id in FactsOf(r) <==> id in FactsOf(m)) && (id in FactsOf(m) ==> FactsOf(r)[id] == FactsOf(m)[id])
  {
    hide BulkInsert;
    BulkReads(m, b, now, id);
    if id in b.ids {
      assert b.ids[..|b.ids|] == b.ids;
      LastIndexIs(b, id, |b.ids|);
      var row, i := BulkInsert(m, b, now).value.rows[id], LastIndex(b.ids, id);
      assert IsBatchRow(m, b, now, i, row);
      assert row.k == Stretch(b.keys, m.dK, i);
      assert row.v == Stretch(b.values, m.dV, i);
    }
  }

  lemma {:induction false} BatchRefines(m: Memory, b: Batch, now: real)
    ensures FactsOf(Serve(m, WriteBatch(b), now)) == FactStep(m.dK, m.dV, FactsOf(m), WriteBatch(b), now)
  {
    BulkAcceptsIff(m, b, now);
    hide BulkInsert, Shaped, Permitted, Stretch;
    if BulkInsert(m, b, now).Ok? {
      forall id ensures
        var r, i := BulkInsert(m, b, now).value, if id in b.ids then LastIndex(b.ids, id) else 0;
        if id in b.ids then
          id in FactsOf(r) && FactsOf(r)[id] == Fact(Stretch(b.keys, m.dK, i), Stretch(b.values, m.dV, i), b.owner, now)
        else (id in FactsOf(r) <==> id in FactsOf(m)) && (id in FactsOf(m) ==> FactsOf(r)[id] == FactsOf(m)[id])
      {
        BatchFact(m, b, now, id);
      }
    }
  }

  lemma {:induction false} ServeDimensions(m: Memory, q: Request, now: real)
    ensures Serve(m, q, now).dK == m.dK && Serve(m, q, now).dV == m.dV
  {
  }

  /** Over every run from empty, the memory with its tombstones, order and log answers reads as the plain map of facts
      does: an exact read gives the last accepted write that no accepted delete followed, and that writer owns it. */
  lemma {:induction false} RunRefines(dK: nat, dV: nat, requests: seq<(Request, real)>)
    ensures
      var m, facts := Run(dK, dV, requests), FactRun(dK, dV, requests);
      && m.dK == dK && m.dV == dV && FactsOf(m) == facts
      && forall id :: ReadExact(m, id) == if id in facts then Some((facts[id].k, facts[id].v)) else None
  {
    if requests != [] {
      hide FactStep, FactsOf, Serve, ReadExact;
      var most, last := requests[..|requests| - 1], requests[|requests| - 1];
      RunRefines(dK, dV, most);
      ServeDimensions(Run(dK, dV, most), last.0, last.1);
      match last.0
      case WriteRow(id, k, v, owner) => WriteRefines(Run(dK, dV, most), id, k, v, owner, last.1);
      case RemoveRow(id, owner) => RemoveRefines(Run(dK, dV, most), id, owner, last.1);
      case WriteBatch(b) => BatchRefines(Run(dK, dV, most), b, last.1);
    }
    forall id ensures ReadExact(Run(dK, dV, requests), id)
                      == var facts := FactsOf(Run(dK, dV, requests));
                         if id in facts then Some((facts[id].k, facts[id].v)) else None
    {
      FactIsRead(Run(dK, dV, requests), id);
    }
  }

  lemma {:induction false} FactIsRead(m: Memory, id: string)
    ensures ReadExact(m, id) == if id in FactsOf(m) then Some((FactsOf(m)[id].k, FactsOf(m)[id].v)) else None
  {
  }

  // ------------------------------------------------------------------ what a legal log guarantees

  /** Whoever owns a live row keeps it until they delete it themselves. */
  lemma {:induction false} OwnerKeepsRow(log: seq<AuditEntry>, p: nat, q: nat, id: string)
    requires Legal(log) && p <= q <= |log|
    requires id in Replay(log[..p]) && Replay(log[..p])[id].alive
    ensures
      var owner := Replay(log[..p])[id].owner;
      || (id in Replay(log[..q]) && Replay(log[..q])[id].alive && Replay(log[..q])[id].owner == owner)
      || exists i :: p <= i < q && log[i].act.Delete? && log[i].id == id && log[i].owner == owner
    decreases q
  {
    if q > p {
      OneMorePlayed(log, q);
      hide Replay, Legal;
      OwnerKeepsRow(log, p, q - 1, id);
    }
  }

  lemma {:induction false} OneMorePlayed(log: seq<AuditEntry>, q: nat)
    requires Legal(log) && 0 < q <= |log|
    ensures MayFollow(Replay(log[..q - 1]), log[q - 1])
    ensures Replay(log[..q]) == Play(Replay(log[..q - 1]), log[q - 1])
  {
    hide MayFollow, Play;
    assert log[..q][..q - 1] == log[..q - 1];
  }
}
