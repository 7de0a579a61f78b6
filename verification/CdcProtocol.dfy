/** The sidecar as a protocol: a server that commits, streams and remembers what was acknowledged, and a process
    that applies, saves and acknowledges, under cut connections, lost acknowledgements and crashes. */
module CdcProtocol {
  import opened Wrappers
  import opened Bytes
  import opened Counting
  import opened MirrorTable
  import opened TxAssembler
  import M = Mirror
  import MirrorSnapshot

  // ------------------------------------------------------------------ the server's side

  /** A committed transaction: what is sent, with its texts as they are received, and what it did to the table upstream,
      step by step. */
  datatype Logged = Logged(server: ServerTx, changes: seq<M.UpChange>, ups: seq<M.Upstream>)

  /** What does not change: the mapping, the slot's consistent point, the table upstream at that point, and
      whether the process keeps its state on disk. */
  datatype World = World(m: M.TableMap, parse: M.Parse, consistentPoint: nat, initial: M.Upstream, durable: bool)

  function Lsn(l: Logged): nat {
    l.server.endLsn
  }

  ghost predicate Recorded(log: seq<Logged>) {
    forall i :: 0 <= i < |log| ==> log[i].ups != []
  }

  /** Positions increase. */
  ghost predicate Rising(log: seq<Logged>) {
    forall i, j :: 0 <= i < j < |log| ==> Lsn(log[i]) < Lsn(log[j])
  }

  ghost predicate After(log: seq<Logged>, lsn: nat) {
    forall i :: 0 <= i < |log| ==> Lsn(log[i]) > lsn
  }

  /** The table upstream after the first `n` transactions since the consistent point. */
  ghost function UpAt(w: World, log: seq<Logged>, n: nat): M.Upstream
    requires n <= |log| && Recorded(log)
  {
    if n == 0 then w.initial else log[n - 1].ups[|log[n - 1].ups| - 1]
  }

  /** A truncation is one upstream, of the mirrored table or of others. */
  ghost predicate SameKind(table: Text, sent: ServerChange, c: M.UpChange) {
    match sent
    case RowOp(_, _, _) => !c.Truncates()
    case Truncation(tables) => c == if table in tables then M.UpTruncate else M.TruncateElsewhere
  }

  ghost predicate SameKinds(table: Text, l: Logged) {
    |l.server.changes| == |l.changes|
    && forall k :: 0 <= k < |l.changes| ==> SameKind(table, l.server.changes[k], l.changes[k])
  }

  ghost predicate LoggedOk(w: World, up: M.Upstream, l: Logged)
    requires M.MapOk(w.m)
  {
    && AllSendable(l.server.changes) && SameKinds(w.m.table, l)
    && M.ReportsTx(w.m, w.parse, up, l.changes, l.ups, MeantTx(l.server))
  }

  /** Transactions committed after the consistent point, each from where the one before it ended, with
      increasing positions. */
  ghost predicate LogOk(w: World, log: seq<Logged>) {
    && M.MapOk(w.m)
    && Recorded(log) && Rising(log) && After(log, w.consistentPoint)
    && forall i :: 0 <= i < |log| ==> LoggedOk(w, UpAt(w, log, i), log[i])
  }

  /** In the first `n` transactions no truncation of the mirrored table finds a row. */
  ghost predicate Clean(log: seq<Logged>, n: nat) {
    forall i :: 0 <= i < |log| && i < n ==> M.TruncatesNothing(log[i].changes, log[i].ups)
  }

  /** Exactly the first `n` transactions are at or below `lsn`. */
  ghost predicate Covers(log: seq<Logged>, lsn: nat, n: nat) {
    && n <= |log|
    && (forall i :: 0 <= i < n ==> Lsn(log[i]) <= lsn)
    && (forall i :: n <= i < |log| ==> Lsn(log[i]) > lsn)
  }

  /** One connection: from which transaction it streams, what it has sent, and how far that was read. */
  datatype Conn = Conn(from: nat, chunks: seq<Chunk>, i: nat, j: nat)

  ghost predicate ConnOk(log: seq<Logged>, c: Conn) {
    && c.from + |c.chunks| <= |log| && CutOk(c.chunks, c.i, c.j)
    && forall k :: 0 <= k < |c.chunks| ==> Sends(KnownAt(c.chunks, k), c.chunks[k], log[c.from + k].server)
  }

  /** The assembler is where the reading of the connection is. */
  ghost predicate AsmOk(a: Asm, log: seq<Logged>, c: Conn)
    requires ConnOk(log, c)
  {
    if c.i < |c.chunks| then Midway(a, KnownAt(c.chunks, c.i), c.chunks[c.i], c.j)
    else a.relations == KnownAt(c.chunks, c.i)
  }

  // ------------------------------------------------------------------ the process

  /** Where the loop is: waiting, holding a transaction, past applying it, past saving it. */
  datatype Phase = Polling | Got(tx: CommittedTx) | Applied(tx: CommittedTx, changed: bool) | Saved(tx: CommittedTx)

  datatype Proc = Proc(mirror: M.State, asm: Asm, conn: Option<Conn>, lastAck: nat, phase: Phase)

  datatype Sys = Sys(log: seq<Logged>, slot: nat, inFlight: set<nat>, proc: Option<Proc>, disk: Option<M.State>)

  /** A process that has made the slot and its mirror from the slot's snapshot. Whatever an earlier slot may have left
      on disk is still there: it is not read now. */
  ghost predicate Starts(w: World, s: Sys) {
    && M.MapOk(w.m) && s.log == [] && s.slot == w.consistentPoint && s.inFlight == {}
    && s.proc.Some?
    && var p := s.proc.value;
       && M.Mirrors(w.m, p.mirror.cols, w.initial) && p.mirror.lastLsn == 0
       && p.asm.relations == map[] && p.conn == None && p.lastAck == 0 && p.phase == Polling
  }

  /** A snapshot whose rows are complete and have different keys gives such a process, and the table it starts from. */
  lemma {:induction false} SnapshotStarts(w: World, names: seq<Text>, rows: seq<MirrorSnapshot.TextRow>, cols: Columns,
                                          disk: Option<M.State>)
    requires MirrorSnapshot.BuiltFrom(w.m, w.parse, names, rows, cols)
    requires MirrorSnapshot.KeysDiffer(w.m, w.parse, names, rows) && w.initial == MirrorSnapshot.TableOf(w.m, cols)
    ensures
      var p := Proc(M.State(cols, 0, 0, 0), Asm(map[], [], 0), None, 0, Polling);
      Starts(w, Sys([], w.consistentPoint, {}, Some(p), disk))
  {
    MirrorSnapshot.SnapshotMirrorsIff(w.m, w.parse, names, rows, cols);
  }

  /** No transaction can change the table upstream, except by a truncation. */
  ghost predicate Quiet(w: World) {
    forall l :: LogOk(w, [l]) && Clean([l], 1) ==> UpAt(w, [l], 1) == w.initial
  }

  /** What is on disk at the start does no harm: the process does not use it, or there is nothing, or it is the table at
      the consistent point under a watermark that skips nothing which changes the table later. */
  ghost predicate Harmless(w: World, disk: Option<M.State>) {
    || !w.durable || disk.None?
    || (M.Mirrors(w.m, disk.value.cols, w.initial) && (disk.value.lastLsn <= w.consistentPoint || Quiet(w)))
  }

  ghost predicate Init(w: World, s: Sys) {
    Starts(w, s) && Harmless(w, s.disk)
  }

  datatype Action =
    | Commit(l: Logged)
    | Send(chunk: Chunk)
    | Deliver
    | Apply
    | Save
    | Ack
    | ReplyKeepalive
    | Flush(lsn: nat)
    | LoseAcks(left: set<nat>)
    | Cut
    | Dial(from: nat)
    | Crash
    | Restart

  /** A transaction commits upstream. */
  ghost predicate Commits(w: World, s: Sys, s': Sys, l: Logged) {
    s' == s.(log := s.log + [l]) && LogOk(w, s'.log)
  }

  /** The server sends the next transaction of the log on the connection. */
  ghost predicate SendsNext(s: Sys, s': Sys, chunk: Chunk) {
    && s.proc.Some? && s.proc.value.conn.Some?
    && var p := s.proc.value;
       var c := p.conn.value;
       && c.from + |c.chunks| < |s.log|
       && Sends(KnownAt(c.chunks, |c.chunks|), chunk, s.log[c.from + |c.chunks|].server)
       && s' == s.(proc := Some(p.(conn := Some(c.(chunks := c.chunks + [chunk])))))
  }

  /** The process reads one message. */
  ghost predicate Delivers(s: Sys, s': Sys) {
    && s.proc.Some? && s.proc.value.conn.Some? && s.proc.value.phase == Polling
    && var p := s.proc.value;
       var c := p.conn.value;
       && c.i < |c.chunks| && c.from + c.i < |s.log| && c.j <= |c.chunks[c.i].body| + 1
       && var (a, r) := Step(p.asm, ChunkMsg(c.chunks[c.i], s.log[c.from + c.i].server, c.j));
          var c' := if c.j <= |c.chunks[c.i].body| then c.(j := c.j + 1) else c.(i := c.i + 1, j := 0);
          s' == s.(proc := match r
                           case Err(_) => None
                           case Ok(None) => Some(p.(asm := a, conn := Some(c')))
                           case Ok(Some(tx)) => Some(p.(asm := a, conn := Some(c'), phase := Got(tx))))
  }

  /** The process applies the transaction it holds, or gives up. */
  ghost predicate Applies(w: World, s: Sys, s': Sys) {
    && s.proc.Some? && s.proc.value.phase.Got? && M.MapOk(w.m) && M.Shape(w.m, s.proc.value.mirror.cols)
    && var p := s.proc.value;
       var (mirror, r) := M.TxOutcome(w.m, w.parse, p.mirror, p.phase.tx);
       s' == s.(proc := if r.Err? then None
                        else Some(p.(mirror := mirror,
                                     phase := Applied(p.phase.tx, mirror.lastLsn != p.mirror.lastLsn))))
  }

  /** With a state file, a mirror that moved is written to it, in one step. */
  ghost predicate Saves(w: World, s: Sys, s': Sys) {
    && s.proc.Some? && s.proc.value.phase.Applied?
    && var p := s.proc.value;
       s' == s.(disk := if w.durable && p.phase.changed then Some(p.mirror) else s.disk,
                proc := Some(p.(phase := Saved(p.phase.tx))))
  }

  ghost predicate Acks(s: Sys, s': Sys) {
    && s.proc.Some? && s.proc.value.phase.Saved? && s.proc.value.conn.Some?
    && var p := s.proc.value;
       var ack := Max(p.lastAck, p.phase.tx.endLsn);
       s' == s.(proc := Some(p.(lastAck := ack, phase := Polling)), inFlight := s.inFlight + {ack})
  }

  /** A keepalive that asks for a reply is answered with what was acknowledged last. */
  ghost predicate Replies(s: Sys, s': Sys) {
    && s.proc.Some? && s.proc.value.conn.Some? && s.proc.value.phase == Polling
    && s' == s.(inFlight := s.inFlight + {s.proc.value.lastAck})
  }

  /** The server takes notice of an acknowledgement; the slot only moves forward. */
  ghost predicate Flushes(s: Sys, s': Sys, lsn: nat) {
    lsn in s.inFlight && s' == s.(slot := Max(s.slot, lsn))
  }

  /** A new connection streams from the first transaction after the slot's position. */
  ghost predicate Dials(s: Sys, s': Sys, from: nat) {
    && s.proc.Some? && s.proc.value.conn == None && !s.proc.value.phase.Got? && !s.proc.value.phase.Applied?
    && Covers(s.log, s.slot, from)
    && var p := s.proc.value;
       s' == s.(proc := Some(p.(conn := Some(Conn(from, [], 0, 0)), asm := Asm(map[], [], p.asm.pendingTs))))
  }

  /** A new process finds the slot and continues from the state file, if there is one. */
  ghost predicate Restarts(w: World, s: Sys, s': Sys) {
    && s.proc == None && w.durable && s.disk.Some?
    && s' == s.(proc := Some(Proc(s.disk.value, Asm(map[], [], 0), None, 0, Polling)))
  }

  ghost predicate ActionOk(w: World, s: Sys, s': Sys, action: Action) {
    match action
    case Commit(l) => Commits(w, s, s', l)
    case Send(chunk) => SendsNext(s, s', chunk)
    case Deliver => Delivers(s, s')
    case Apply => Applies(w, s, s')
    case Save => Saves(w, s, s')
    case Ack => Acks(s, s')
    case ReplyKeepalive => Replies(s, s')
    case Flush(lsn) => Flushes(s, s', lsn)
    case LoseAcks(left) => left <= s.inFlight && s' == s.(inFlight := left)
    case Cut => s.proc.Some? && s' == s.(proc := Some(s.proc.value.(conn := None)))
    case Dial(from) => Dials(s, s', from)
    case Crash => s' == s.(proc := None)
    case Restart => Restarts(w, s, s')
  }

  ghost predicate Next(w: World, s: Sys, s': Sys) {
    exists action :: ActionOk(w, s, s', action)
  }

  // ------------------------------------------------------------------ the invariant

  /** The mirror is the table upstream after exactly the transactions up to its watermark, if none of these truncates
      rows. */
  ghost predicate OnTrack(w: World, log: seq<Logged>, mirror: M.State)
    requires LogOk(w, log)
  {
    && M.Shape(w.m, mirror.cols)
    && exists n :: Covers(log, mirror.lastLsn, n) && (Clean(log, n) ==> M.Mirrors(w.m, mirror.cols, UpAt(w, log, n)))
  }

  /** The watermark is the position of a transaction, or comes before all of them; in a quiet world it does not matter. */
  ghost predicate Anchored(w: World, log: seq<Logged>, lsn: nat) {
    lsn <= w.consistentPoint || Quiet(w) || exists i :: 0 <= i < |log| && Lsn(log[i]) == lsn
  }

  function SavedLsn(s: Sys): nat {
    if s.disk.Some? then s.disk.value.lastLsn else 0
  }

  /** How far acknowledgements may go: up to what is saved and applied, or, without a state file, up to what is
      applied. */
  function Safe(w: World, s: Sys): nat {
    if w.durable && s.proc.None? then SavedLsn(s)
    else if s.proc.None? then 0
    else if w.durable && SavedLsn(s) < s.proc.value.mirror.lastLsn then SavedLsn(s)
    else s.proc.value.mirror.lastLsn
  }

  ghost predicate AcksCovered(w: World, s: Sys) {
    (w.durable || s.proc.Some?) ==>
      && s.slot <= Max(w.consistentPoint, Safe(w, s))
      && (forall l :: l in s.inFlight ==> l <= Safe(w, s))
      && (s.proc.Some? ==> s.proc.value.lastAck <= Safe(w, s))
  }

  /** All transactions before `k` are covered by the watermark. */
  ghost predicate Behind(log: seq<Logged>, lsn: nat, k: nat) {
    k <= |log| && forall i :: 0 <= i < k ==> Lsn(log[i]) <= lsn
  }

  /** A transaction that is held is one of the log, and all before it are covered. */
  ghost predicate Held(log: seq<Logged>, lsn: nat, tx: CommittedTx, k: nat) {
    k < |log| && AllSendable(log[k].server.changes) && tx == MeantTx(log[k].server) && Behind(log, lsn, k)
  }

  ghost predicate PhaseOk(w: World, s: Sys)
    requires s.proc.Some?
  {
    var p := s.proc.value;
    var lsn := p.mirror.lastLsn;
    && (w.durable && !(p.phase.Applied? && p.phase.changed) && lsn > 0 ==> s.disk == Some(p.mirror))
    && match p.phase
       case Polling => p.conn.Some? ==> Behind(s.log, lsn, p.conn.value.from + p.conn.value.i)
       case Got(tx) =>
         && (exists k :: Held(s.log, lsn, tx, k))
         && (p.conn.Some? ==> p.conn.value.from + p.conn.value.i > 0
                              && Held(s.log, lsn, tx, p.conn.value.from + p.conn.value.i - 1))
       case Applied(tx, _) =>
         && 0 < tx.endLsn <= lsn
         && (p.conn.Some? ==> Behind(s.log, lsn, p.conn.value.from + p.conn.value.i))
       case Saved(tx) =>
         && 0 < tx.endLsn <= lsn
         && (p.conn.Some? ==> Behind(s.log, lsn, p.conn.value.from + p.conn.value.i))
  }

  ghost predicate ProcOk(w: World, s: Sys)
    requires s.proc.Some? && LogOk(w, s.log)
  {
    var p := s.proc.value;
    && OnTrack(w, s.log, p.mirror) && Anchored(w, s.log, p.mirror.lastLsn)
    && (p.conn.Some? ==> ConnOk(s.log, p.conn.value) && AsmOk(p.asm, s.log, p.conn.value))
    && PhaseOk(w, s)
  }

  ghost predicate Inv(w: World, s: Sys) {
    && LogOk(w, s.log) && AcksCovered(w, s)
    && (w.durable && s.disk.Some? ==> OnTrack(w, s.log, s.disk.value) && Anchored(w, s.log, s.disk.value.lastLsn))
    && (s.proc.Some? ==> ProcOk(w, s))
  }

  lemma {:induction false} InitInv(w: World, s: Sys)
    requires Init(w, s)
    ensures Inv(w, s)
  {
    assert UpAt(w, s.log, 0) == w.initial;
    if w.durable && s.disk.Some? {
      assert Covers(s.log, s.disk.value.lastLsn, 0);
    }
    assert Covers(s.log, s.proc.value.mirror.lastLsn, 0);
  }

  // ------------------------------------------------------------------ every step keeps it

  lemma {:induction false} CoversUnique(log: seq<Logged>, lsn: nat, a: nat, b: nat)
    requires Covers(log, lsn, a) && Covers(log, lsn, b)
    ensures a == b
  {
    assert a < |log| ==> Lsn(log[a]) > lsn;
    assert b < |log| ==> Lsn(log[b]) > lsn;
  }

  /** The log grows behind every watermark, or it does not matter. */
  lemma {:induction false} AnchoredGrown(w: World, log: seq<Logged>, l: Logged, lsn: nat)
    requires Rising(log + [l]) && Lsn(l) > w.consistentPoint && Anchored(w, log, lsn)
    ensures Anchored(w, log + [l], lsn) && (Lsn(l) > lsn || Quiet(w))
  {
    hide Quiet;
    var log' := log + [l];
    if lsn > w.consistentPoint && !Quiet(w) {
      var i :| 0 <= i < |log| && Lsn(log[i]) == lsn;
      assert Lsn(log'[i]) < Lsn(log'[|log|]);
    }
  }

  lemma {:induction false} OnTrackGrown(w: World, log: seq<Logged>, l: Logged, mirror: M.State)
    requires LogOk(w, log) && LogOk(w, log + [l]) && Anchored(w, log, mirror.lastLsn) && OnTrack(w, log, mirror)
    ensures OnTrack(w, log + [l], mirror) && Anchored(w, log + [l], mirror.lastLsn)
  {
    hide M.Mirrors, M.Shape, LoggedOk, Rising, Anchored, UpAt, Quiet, Clean;
    assert After(log + [l], w.consistentPoint) && (log + [l])[|log|] == l;
    var n :| Covers(log, mirror.lastLsn, n) && (Clean(log, n) ==> M.Mirrors(w.m, mirror.cols, UpAt(w, log, n)));
    CoversBound(log, mirror.lastLsn, n);
    UpAtGrown(w, log, l, n);
    CleanGrown(log, l, n);
    AnchoredGrown(w, log, l, mirror.lastLsn);
    if Lsn(l) > mirror.lastLsn {
      assert Covers(log + [l], mirror.lastLsn, n);
    } else {
      var n' := CoverExists(log + [l], mirror.lastLsn);
      assert n <= n';
      if Clean(log + [l], n') {
        CleanLess(log + [l], n, n');
        QuietLog(w, log + [l], n);
        QuietLog(w, log + [l], n');
      }
    }
  }

  lemma {:induction false} CleanGrown(log: seq<Logged>, l: Logged, n: nat)
    requires n <= |log|
    ensures Clean(log + [l], n) == Clean(log, n)
  {
    assert forall i :: 0 <= i < n ==> (log + [l])[i] == log[i];
  }

  lemma {:induction false} CleanLess(log: seq<Logged>, a: nat, b: nat)
    requires Clean(log, b) && a <= b
    ensures Clean(log, a)
  {
  }

  lemma {:induction false} CoverExists(log: seq<Logged>, lsn: nat) returns (n: nat)
    requires Rising(log)
    ensures Covers(log, lsn, n)
  {
    n := 0;
    while n < |log| && Lsn(log[n]) <= lsn
      invariant n <= |log| && forall i :: 0 <= i < n ==> Lsn(log[i]) <= lsn
    {
      n := n + 1;
    }
    forall i | n <= i < |log| ensures Lsn(log[i]) > lsn {
      assert i > n ==> Lsn(log[n]) < Lsn(log[i]);
    }
  }

  /** When no single transaction without truncations can change the table, no log of such does. */
  lemma {:induction false} QuietLog(w: World, log: seq<Logged>, n: nat)
    requires Quiet(w) && LogOk(w, log) && n <= |log| && Clean(log, n)
    ensures UpAt(w, log, n) == w.initial
  {
    hide Quiet, LoggedOk, Rising, After, M.MapOk, M.TruncatesNothing;
    if n > 0 {
      QuietLog(w, log, n - 1);
      AloneOk(w, log, n - 1);
      assert Clean([log[n - 1]], 1);
      QuietOne(w, log[n - 1]);
    }
  }

  lemma {:induction false} QuietOne(w: World, l: Logged)
    requires Quiet(w) && LogOk(w, [l]) && Clean([l], 1)
    ensures UpAt(w, [l], 1) == w.initial
  {
  }

  lemma {:induction false} AloneOk(w: World, log: seq<Logged>, k: nat)
    requires LogOk(w, log) && k < |log| && UpAt(w, log, k) == w.initial
    ensures LogOk(w, [log[k]])
  {
    hide LoggedOk;
    assert UpAt(w, [log[k]], 0) == w.initial;
    assert LoggedOk(w, UpAt(w, log, k), log[k]);
  }

  lemma {:induction false} UpAtGrown(w: World, log: seq<Logged>, l: Logged, n: nat)
    requires n <= |log| && Recorded(log) && Recorded(log + [l])
    ensures UpAt(w, log + [l], n) == UpAt(w, log, n)
  {
  }

  lemma {:induction false} CoversBound(log: seq<Logged>, lsn: nat, n: nat)
    requires Covers(log, lsn, n)
    ensures n <= |log|
  {
  }

  lemma {:induction false} ConnGrown(log: seq<Logged>, l: Logged, a: Asm, c: Conn)
    requires ConnOk(log, c) && AsmOk(a, log, c)
    ensures ConnOk(log + [l], c) && AsmOk(a, log + [l], c)
  {
    hide Sends, Midway, KnownAt;
    forall k | 0 <= k < |c.chunks| ensures Sends(KnownAt(c.chunks, k), c.chunks[k], (log + [l])[c.from + k].server) {
    }
  }

  lemma {:induction false} BehindGrown(log: seq<Logged>, l: Logged, lsn: nat, k: nat)
    requires Behind(log, lsn, k)
    ensures Behind(log + [l], lsn, k)
  {
  }

  lemma {:induction false} HeldGrown(log: seq<Logged>, l: Logged, lsn: nat, tx: CommittedTx, k: nat)
    requires Held(log, lsn, tx, k)
    ensures Held(log + [l], lsn, tx, k)
  {
    hide AllSendable;
    assert (log + [l])[k] == log[k];
  }

  lemma {:induction false} PhaseGrown(w: World, s: Sys, s': Sys, l: Logged)
    requires s.proc.Some? && PhaseOk(w, s) && s' == s.(log := s.log + [l])
    ensures PhaseOk(w, s')
  {
    hide Held, Behind;
    var p := s.proc.value;
    var lsn := p.mirror.lastLsn;
    if p.conn.Some? {
      var k := p.conn.value.from + p.conn.value.i;
      match p.phase
      case Got(tx) => HeldGrown(s.log, l, lsn, tx, k - 1);
      case _ => BehindGrown(s.log, l, lsn, k);
    }
    if p.phase.Got? {
      var k :| Held(s.log, lsn, p.phase.tx, k);
      HeldGrown(s.log, l, lsn, p.phase.tx, k);
    }
  }

  lemma {:induction false} CommitKeeps(w: World, s: Sys, s': Sys, l: Logged)
    requires Inv(w, s) && Commits(w, s, s', l)
    ensures Inv(w, s')
  {
    hide LogOk, OnTrack, Anchored, ConnOk, AsmOk, PhaseOk;
    if w.durable && s.disk.Some? {
      OnTrackGrown(w, s.log, l, s.disk.value);
    }
    if s.proc.Some? {
      var p := s.proc.value;
      OnTrackGrown(w, s.log, l, p.mirror);
      PhaseGrown(w, s, s', l);
      if p.conn.Some? {
        ConnGrown(s.log, l, p.asm, p.conn.value);
      }
    }
  }

  lemma {:induction false} KnownAtPrefix(chunks: seq<Chunk>, chunk: Chunk, i: nat)
    requires i <= |chunks|
    ensures KnownAt(chunks + [chunk], i) == KnownAt(chunks, i)
  {
    if i > 0 {
      KnownAtPrefix(chunks, chunk, i - 1);
      assert (chunks + [chunk])[i - 1] == chunks[i - 1];
    }
  }

  lemma {:induction false} ConnSends(log: seq<Logged>, a: Asm, c: Conn, chunk: Chunk)
    requires ConnOk(log, c) && AsmOk(a, log, c) && c.from + |c.chunks| < |log|
    requires Sends(KnownAt(c.chunks, |c.chunks|), chunk, log[c.from + |c.chunks|].server)
    ensures ConnOk(log, c.(chunks := c.chunks + [chunk])) && AsmOk(a, log, c.(chunks := c.chunks + [chunk]))
  {
    hide Sends, Known, KnownAt, Changes, AllSendable;
    var c' := c.(chunks := c.chunks + [chunk]);
    forall k | 0 <= k < |c'.chunks| ensures Sends(KnownAt(c'.chunks, k), c'.chunks[k], log[c'.from + k].server) {
      KnownAtPrefix(c.chunks, chunk, k);
    }
    KnownAtPrefix(c.chunks, chunk, c.i);
    SendsSendable(KnownAt(c'.chunks, c'.i), c'.chunks[c'.i], log[c'.from + c'.i].server);
  }

  lemma {:induction false} SendsSendable(known: map<nat, RelMeta>, chunk: Chunk, tx: ServerTx)
    requires Sends(known, chunk, tx)
    ensures AllSendable(Changes(chunk.body, |chunk.body|)) && AllSendable(tx.changes)
  {
  }

  lemma {:induction false} SendKeeps(w: World, s: Sys, s': Sys, chunk: Chunk)
    requires Inv(w, s) && SendsNext(s, s', chunk)
    ensures Inv(w, s')
  {
    hide LogOk, OnTrack, Anchored, ConnOk, AsmOk, Behind, Held, Sends;
    var p := s.proc.value;
    ConnBounds(s.log, p.conn.value);
    ConnSends(s.log, p.asm, p.conn.value, chunk);
  }

  lemma {:induction false} ConnBounds(log: seq<Logged>, c: Conn)
    requires ConnOk(log, c)
    ensures c.from + |c.chunks| <= |log| && CutOk(c.chunks, c.i, c.j)
  {
  }

  /** What one delivered message does to the assembler and the connection. */
  lemma {:induction false} Delivered(log: seq<Logged>, a: Asm, c: Conn)
    requires ConnOk(log, c) && AsmOk(a, log, c) && c.i < |c.chunks|
    ensures c.from + c.i < |log| && c.j <= |c.chunks[c.i].body| + 1
    ensures
      var tx := log[c.from + c.i].server;
      var (a', r) := Step(a, ChunkMsg(c.chunks[c.i], tx, c.j));
      if c.j <= |c.chunks[c.i].body| then
        r == Ok(None) && ConnOk(log, c.(j := c.j + 1)) && AsmOk(a', log, c.(j := c.j + 1))
      else
        && AllSendable(tx.changes) && r == Ok(Some(MeantTx(tx)))
        && ConnOk(log, c.(i := c.i + 1, j := 0)) && AsmOk(a', log, c.(i := c.i + 1, j := 0))
  {
    hide Step, Known, KnownAt, ChunkMsg, MeantTx, Changes, AllSendable, Sends, Midway;
    var tx := log[c.from + c.i].server;
    StepOfChunk(a, KnownAt(c.chunks, c.i), c.chunks[c.i], tx, c.j);
    SendsSendable(KnownAt(c.chunks, c.i), c.chunks[c.i], tx);
    if c.j == |c.chunks[c.i].body| + 1 {
      NextChunk(log, Step(a, ChunkMsg(c.chunks[c.i], tx, c.j)).0, c);
    }
  }

  /** After Commit the assembler is at the start of the next chunk. */
  lemma {:induction false} NextChunk(log: seq<Logged>, a: Asm, c: Conn)
    requires ConnOk(log, c) && c.i < |c.chunks|
    requires a.relations == Known(KnownAt(c.chunks, c.i), c.chunks[c.i].body, |c.chunks[c.i].body|)
    ensures AllSendable(log[c.from + c.i].server.changes)
    ensures ConnOk(log, c.(i := c.i + 1, j := 0)) && AsmOk(a, log, c.(i := c.i + 1, j := 0))
  {
    hide Known, Changes, Sends, AllSendable;
    var c' := c.(i := c.i + 1, j := 0);
    SendsSendable(KnownAt(c.chunks, c.i), c.chunks[c.i], log[c.from + c.i].server);
    if c'.i < |c.chunks| {
      SendsSendable(KnownAt(c.chunks, c'.i), c.chunks[c'.i], log[c.from + c'.i].server);
    }
  }

  lemma {:induction false} DeliverKeeps(w: World, s: Sys, s': Sys)
    requires Inv(w, s) && Delivers(s, s')
    ensures Inv(w, s')
  {
    hide LogOk, OnTrack, Anchored, ConnOk, AsmOk, Step, ChunkMsg, MeantTx, AllSendable;
    var p := s.proc.value;
    var c := p.conn.value;
    Delivered(s.log, p.asm, c);
    if c.j > |c.chunks[c.i].body| {
      assert Held(s.log, p.mirror.lastLsn, MeantTx(s.log[c.from + c.i].server), c.from + c.i);
    }
  }

  /** A transaction that is held and not covered yet is the first that is not covered. */
  lemma {:induction false} HeldIsNext(w: World, log: seq<Logged>, lsn: nat, tx: CommittedTx, k: nat)
    requires LogOk(w, log) && Held(log, lsn, tx, k) && tx.endLsn > lsn
    ensures Covers(log, lsn, k) && Covers(log, tx.endLsn, k + 1)
  {
    hide LoggedOk, AllSendable, MeantAll, After, Recorded, Rising;
    assert tx.endLsn == Lsn(log[k]);
    forall i | k < i < |log| ensures Lsn(log[i]) > tx.endLsn {
      RisingAt(log, k, i);
    }
  }

  lemma {:induction false} RisingAt(log: seq<Logged>, i: nat, j: nat)
    requires Rising(log) && i < j < |log|
    ensures Lsn(log[i]) < Lsn(log[j])
  {
  }

  lemma {:induction false} LogEntry(w: World, log: seq<Logged>, k: nat)
    requires LogOk(w, log) && k < |log|
    ensures M.MapOk(w.m) && Recorded(log) && LoggedOk(w, UpAt(w, log, k), log[k]) && Lsn(log[k]) > 0
    ensures |log[k].ups| == |log[k].changes| + 1 && UpAt(w, log, k + 1) == log[k].ups[|log[k].changes|]
  {
    hide Rising;
    assert LoggedOk(w, UpAt(w, log, k), log[k]);
  }

  lemma {:induction false} ApplyNew(w: World, log: seq<Logged>, mirror: M.State, tx: CommittedTx, k: nat)
    requires LogOk(w, log) && k < |log| && Held(log, mirror.lastLsn, tx, k) && tx.endLsn > mirror.lastLsn
    requires M.Mirrors(w.m, mirror.cols, UpAt(w, log, k)) && M.TruncatesNothing(log[k].changes, log[k].ups)
    ensures
      var (mirror', r) := M.TxOutcome(w.m, w.parse, mirror, tx);
      r.Ok? && M.Mirrors(w.m, mirror'.cols, UpAt(w, log, k + 1)) && mirror'.lastLsn == tx.endLsn
  {
    hide M.Holds, M.Shape, M.Runs, M.ReportsTx, M.TxOutcome, M.TruncatesNothing, LogOk;
    LogEntry(w, log, k);
    M.TxSimulates(w.m, w.parse, mirror, UpAt(w, log, k), log[k].changes, log[k].ups, tx);
  }

  lemma {:induction false} LogRecorded(w: World, log: seq<Logged>)
    requires LogOk(w, log)
    ensures M.MapOk(w.m) && Recorded(log)
  {
  }

  /** Applying a held transaction keeps the mirror on track, and does not fail unless it or one before it truncates
      rows. */
  lemma {:induction false} ApplyOnTrack(w: World, log: seq<Logged>, mirror: M.State, tx: CommittedTx, k: nat)
    requires LogOk(w, log) && OnTrack(w, log, mirror) && Anchored(w, log, mirror.lastLsn)
    requires Held(log, mirror.lastLsn, tx, k)
    ensures M.MapOk(w.m) && M.Shape(w.m, mirror.cols) && 0 < tx.endLsn == Lsn(log[k])
    ensures
      var (mirror', r) := M.TxOutcome(w.m, w.parse, mirror, tx);
      && (Clean(log, k + 1) ==> r.Ok?)
      && (r.Ok? ==>
            && OnTrack(w, log, mirror') && Anchored(w, log, mirror'.lastLsn)
            && mirror'.lastLsn == Max(mirror.lastLsn, tx.endLsn)
            && (mirror'.lastLsn == mirror.lastLsn ==> mirror' == mirror))
  {
    hide M.Shape, M.Mirrors, LogOk, LoggedOk, M.ApplyAll, Quiet, Clean, Covers, MeantTx, AllSendable;
    LogEntry(w, log, k);
    HeldInLog(log, mirror.lastLsn, tx, k);
    if tx.endLsn > mirror.lastLsn {
      HeldOnTrack(w, log, mirror, tx, k);
      if Clean(log, k + 1) {
        CleanLess(log, k, k + 1);
        CleanAt(log, k, k + 1);
        ApplyNew(w, log, mirror, tx, k);
      }
      var (mirror', r) := M.TxOutcome(w.m, w.parse, mirror, tx);
      if r.Ok? {
        assert Covers(log, mirror'.lastLsn, k + 1);
      }
    }
  }

  /** A transaction that is held and not covered: the mirror is before exactly it. */
  lemma {:induction false} HeldOnTrack(w: World, log: seq<Logged>, mirror: M.State, tx: CommittedTx, k: nat)
    requires LogOk(w, log) && OnTrack(w, log, mirror) && Held(log, mirror.lastLsn, tx, k) && tx.endLsn > mirror.lastLsn
    ensures Covers(log, mirror.lastLsn, k) && Covers(log, tx.endLsn, k + 1)
    ensures Clean(log, k) ==> M.Mirrors(w.m, mirror.cols, UpAt(w, log, k))
  {
    hide M.Shape, M.Mirrors, LogOk, Clean;
    LogRecorded(w, log);
    HeldIsNext(w, log, mirror.lastLsn, tx, k);
    var n :| Covers(log, mirror.lastLsn, n) && (Clean(log, n) ==> M.Mirrors(w.m, mirror.cols, UpAt(w, log, n)));
    CoversUnique(log, mirror.lastLsn, n, k);
  }

  lemma {:induction false} CleanAt(log: seq<Logged>, k: nat, n: nat)
    requires Clean(log, n) && k < n && k < |log|
    ensures M.TruncatesNothing(log[k].changes, log[k].ups)
  {
  }

  lemma {:induction false} BehindMore(log: seq<Logged>, lsn: nat, lsn': nat, k: nat)
    requires Behind(log, lsn, k) && k < |log| && lsn' >= lsn && lsn' >= Lsn(log[k])
    ensures Behind(log, lsn', k + 1)
  {
  }

  lemma {:induction false} ApplyKeeps(w: World, s: Sys, s': Sys)
    requires Inv(w, s) && Applies(w, s, s')
    ensures Inv(w, s')
  {
    hide LogOk, OnTrack, Anchored, ConnOk, AsmOk, M.TxOutcome, AllSendable, MeantTx, M.Shape, Clean;
    var p := s.proc.value;
    var tx := p.phase.tx;
    var k :| Held(s.log, p.mirror.lastLsn, tx, k);
    HeldInLog(s.log, p.mirror.lastLsn, tx, k);
    ApplyOnTrack(w, s.log, p.mirror, tx, k);
    var (mirror', r) := M.TxOutcome(w.m, w.parse, p.mirror, tx);
    if r.Err? {
      NetworkKeeps(w, s, s', Crash);
    } else if p.conn.Some? {
      var here := p.conn.value.from + p.conn.value.i - 1;
      ApplyOnTrack(w, s.log, p.mirror, tx, here);
      BehindMore(s.log, p.mirror.lastLsn, mirror'.lastLsn, here);
    }
  }

  lemma {:induction false} SaveKeeps(w: World, s: Sys, s': Sys)
    requires Inv(w, s) && Saves(w, s, s')
    ensures Inv(w, s')
  {
    hide LogOk, OnTrack, Anchored, ConnOk, AsmOk, Behind;
  }

  lemma {:induction false} AckKeeps(w: World, s: Sys, s': Sys)
    requires Inv(w, s) && Acks(s, s')
    ensures Inv(w, s')
  {
    hide LogOk, OnTrack, Anchored, ConnOk, AsmOk, Behind;
  }

  lemma {:induction false} NetworkKeeps(w: World, s: Sys, s': Sys, action: Action)
    requires Inv(w, s) && ActionOk(w, s, s', action)
    requires action.ReplyKeepalive? || action.Flush? || action.LoseAcks? || action.Cut? || action.Crash?
    ensures Inv(w, s')
  {
    hide LogOk, OnTrack, Anchored, ConnOk, AsmOk, Behind, Held;
  }

  /** A new connection starts at a transaction before which everything is covered. */
  lemma {:induction false} DialKeeps(w: World, s: Sys, s': Sys, from: nat)
    requires Inv(w, s) && Dials(s, s', from)
    ensures Inv(w, s')
  {
    hide OnTrack, Anchored;
    var p := s.proc.value;
    forall i | 0 <= i < from ensures Lsn(s.log[i]) <= p.mirror.lastLsn {
      assert Lsn(s.log[i]) > w.consistentPoint;
    }
  }

  lemma {:induction false} RestartKeeps(w: World, s: Sys, s': Sys)
    requires Inv(w, s) && Restarts(w, s, s')
    ensures Inv(w, s')
  {
    hide LogOk, OnTrack, Anchored;
  }

  lemma {:induction false} NextKeeps(w: World, s: Sys, s': Sys)
    requires Inv(w, s) && Next(w, s, s')
    ensures Inv(w, s')
  {
    hide Inv;
    var action :| ActionOk(w, s, s', action);
    match action
    case Commit(l) => CommitKeeps(w, s, s', l);
    case Send(chunk) => SendKeeps(w, s, s', chunk);
    case Deliver => DeliverKeeps(w, s, s');
    case Apply => ApplyKeeps(w, s, s');
    case Save => SaveKeeps(w, s, s');
    case Ack => AckKeeps(w, s, s');
    case Dial(from) => DialKeeps(w, s, s', from);
    case Restart => RestartKeeps(w, s, s');
    case _ => NetworkKeeps(w, s, s', action);
  }

  // ------------------------------------------------------------------ whole runs

  ghost predicate Steps(w: World, b: seq<Sys>) {
    forall i :: 0 <= i < |b| - 1 ==> Next(w, b[i], b[i + 1])
  }

  /** A run from the start, with nothing on disk that does harm. */
  ghost predicate Run(w: World, b: seq<Sys>) {
    b != [] && Init(w, b[0]) && Steps(w, b)
  }

  lemma {:induction false} InvHolds(w: World, b: seq<Sys>, i: nat)
    requires Run(w, b) && i < |b|
    ensures Inv(w, b[i])
  {
    if i == 0 {
      InitInv(w, b[0]);
    } else {
      hide Inv, Next, Init, Steps;
      InvHolds(w, b, i - 1);
      StepTaken(w, b, i - 1);
      NextKeeps(w, b[i - 1], b[i]);
    }
  }

  /** The running mirror is the table upstream after exactly the transactions up to its watermark. */
  ghost predicate RunningExact(w: World, s: Sys) {
    LogOk(w, s.log) && (s.proc.Some? ==>
      exists n :: Covers(s.log, s.proc.value.mirror.lastLsn, n)
                  && M.Mirrors(w.m, s.proc.value.mirror.cols, UpAt(w, s.log, n)))
  }

  /** And so is the saved one, where the process uses it. */
  ghost predicate Exact(w: World, s: Sys) {
    RunningExact(w, s) && (w.durable && s.disk.Some? ==>
      exists n :: Covers(s.log, s.disk.value.lastLsn, n)
                  && M.Mirrors(w.m, s.disk.value.cols, UpAt(w, s.log, n)))
  }

  /** No truncation of the log finds a row. */
  ghost predicate AllClean(s: Sys) {
    Clean(s.log, |s.log|)
  }

  /** Exactly once: at every moment of every run the running mirror, and the saved one, is the table upstream
      after exactly the transactions up to its watermark, if none of these truncates rows. */
  lemma {:induction false} ExactlyOnce(w: World, b: seq<Sys>, i: nat)
    requires Run(w, b) && i < |b|
    ensures LogOk(w, b[i].log)
    ensures b[i].proc.Some? ==> OnTrack(w, b[i].log, b[i].proc.value.mirror)
    ensures w.durable && b[i].disk.Some? ==> OnTrack(w, b[i].log, b[i].disk.value)
    ensures AllClean(b[i]) ==> Exact(w, b[i])
  {
    hide LogOk, AcksCovered, Covers, M.Mirrors, PhaseOk, Run, Clean, OnTrack;
    InvHolds(w, b, i);
    if AllClean(b[i]) {
      if b[i].proc.Some? {
        CleanOnTrack(w, b[i].log, b[i].proc.value.mirror);
      }
      if w.durable && b[i].disk.Some? {
        CleanOnTrack(w, b[i].log, b[i].disk.value);
      }
    }
  }

  lemma {:induction false} CleanOnTrack(w: World, log: seq<Logged>, mirror: M.State)
    requires LogOk(w, log) && OnTrack(w, log, mirror) && Clean(log, |log|)
    ensures exists n :: Covers(log, mirror.lastLsn, n) && M.Mirrors(w.m, mirror.cols, UpAt(w, log, n))
  {
    LogRecorded(w, log);
    hide M.Mirrors, LogOk, M.Shape, M.TruncatesNothing;
    var n :| Covers(log, mirror.lastLsn, n) && (Clean(log, n) ==> M.Mirrors(w.m, mirror.cols, UpAt(w, log, n)));
  }

  /** Nothing acknowledged can be lost: the slot's position and every acknowledgement on its way are covered by
      the saved watermark, or, without a state file, by that of the running mirror. So what a new connection
      sends continues where the mirror is. */
  lemma {:induction false} AcknowledgedIsCovered(w: World, b: seq<Sys>, i: nat)
    requires Run(w, b) && i < |b| && (w.durable || b[i].proc.Some?)
    ensures
      var covered := if w.durable then (if b[i].disk.Some? then b[i].disk.value.lastLsn else 0)
                     else b[i].proc.value.mirror.lastLsn;
      && b[i].slot <= Max(w.consistentPoint, covered)
      && forall l :: l in b[i].inFlight ==> l <= covered
  {
    hide LogOk, OnTrack, Anchored, ProcOk, Run;
    InvHolds(w, b, i);
  }

  /** A transaction that the process holds is one of the log, and is not refused, in any run, unless it or one before it
      truncates rows. */
  lemma {:induction false} ApplyNeverFails(w: World, b: seq<Sys>, i: nat) returns (k: nat)
    requires Run(w, b) && i < |b| && b[i].proc.Some? && b[i].proc.value.phase.Got?
    ensures M.MapOk(w.m) && M.Shape(w.m, b[i].proc.value.mirror.cols)
    ensures k < |b[i].log| && AllSendable(b[i].log[k].server.changes)
    ensures b[i].proc.value.phase.tx == MeantTx(b[i].log[k].server)
    ensures Clean(b[i].log, k + 1) ==>
      M.TxOutcome(w.m, w.parse, b[i].proc.value.mirror, b[i].proc.value.phase.tx).1.Ok?
  {
    hide LogOk, OnTrack, Anchored, ConnOk, AsmOk, M.TxOutcome, M.Shape, Held, Run, Clean;
    InvHolds(w, b, i);
    var p := b[i].proc.value;
    k :| Held(b[i].log, p.mirror.lastLsn, p.phase.tx, k);
    HeldInLog(b[i].log, p.mirror.lastLsn, p.phase.tx, k);
    ApplyOnTrack(w, b[i].log, p.mirror, p.phase.tx, k);
  }

  lemma {:induction false} HeldInLog(log: seq<Logged>, lsn: nat, tx: CommittedTx, k: nat)
    requires Held(log, lsn, tx, k)
    ensures k < |log| && AllSendable(log[k].server.changes)
    ensures tx == MeantTx(log[k].server) && tx.endLsn == Lsn(log[k])
  {
  }

  /** A process that waits and has read everything is past the whole log, and level with the table upstream if nothing
      truncates rows. */
  lemma {:induction false} CaughtUp(w: World, b: seq<Sys>, i: nat)
    requires Run(w, b) && i < |b| && b[i].proc.Some?
    requires
      var p := b[i].proc.value;
      p.phase == Polling && p.conn.Some? && p.conn.value.from + p.conn.value.i == |b[i].log|
    ensures LogOk(w, b[i].log) && Covers(b[i].log, b[i].proc.value.mirror.lastLsn, |b[i].log|)
    ensures AllClean(b[i]) ==>
      M.Mirrors(w.m, b[i].proc.value.mirror.cols, UpAt(w, b[i].log, |b[i].log|))
  {
    hide LoggedOk, Rising, Anchored, ConnOk, AsmOk, M.Mirrors, Run, Clean, M.Shape;
    InvHolds(w, b, i);
    var log, mirror := b[i].log, b[i].proc.value.mirror;
    LogRecorded(w, log);
    var n :| Covers(log, mirror.lastLsn, n) && (Clean(log, n) ==> M.Mirrors(w.m, mirror.cols, UpAt(w, log, n)));
    CoversUnique(log, mirror.lastLsn, n, |log|);
  }

  // ------------------------------------------------------------------ nothing goes back

  /** What is saved is not ahead of what is applied. */
  ghost predicate SavedBehind(w: World, s: Sys) {
    w.durable && s.proc.Some? ==> SavedLsn(s) <= s.proc.value.mirror.lastLsn
  }

  /** Neither the log nor the slot goes back, nor, with a state file, what is saved, nor, while a process lives, what it
      has applied, counted and acknowledged. */
  ghost predicate Forward(w: World, s: Sys, s': Sys) {
    && s.log <= s'.log && s.slot <= s'.slot
    && (w.durable ==> SavedLsn(s) <= SavedLsn(s'))
    && (s.proc.Some? && s'.proc.Some? ==>
          && s.proc.value.lastAck <= s'.proc.value.lastAck
          && s.proc.value.mirror.lastLsn <= s'.proc.value.mirror.lastLsn
          && s.proc.value.mirror.txsApplied <= s'.proc.value.mirror.txsApplied
          && s.proc.value.mirror.rowsApplied <= s'.proc.value.mirror.rowsApplied)
  }

  lemma {:induction false} StepForward(w: World, s: Sys, s': Sys)
    requires Next(w, s, s') && SavedBehind(w, s)
    ensures Forward(w, s, s') && SavedBehind(w, s')
  {
    hide LogOk, M.Shape, M.ApplyAll, Step, Covers, Sends;
    var action :| ActionOk(w, s, s', action);
  }

  /** What is sent to the server: only on a connection, only the last acknowledged position, and always with an
      acknowledgement and in answer to a keepalive. */
  lemma {:induction false} StatusSent(w: World, s: Sys, s': Sys, action: Action)
    requires ActionOk(w, s, s', action)
    ensures forall l :: l in s'.inFlight && l !in s.inFlight ==>
      && s.proc.Some? && s.proc.value.conn.Some? && s'.proc.Some? && l == s'.proc.value.lastAck
      && (action.Ack? || action.ReplyKeepalive?)
    ensures action.Ack? || action.ReplyKeepalive? ==>
      && s.proc.Some? && s.proc.value.conn.Some? && s'.proc.Some? && s'.proc.value.phase == Polling
      && s'.inFlight == s.inFlight + {s'.proc.value.lastAck} && s'.slot == s.slot && s'.disk == s.disk
    ensures action.ReplyKeepalive? ==> s'.proc == s.proc
  {
    hide LogOk, M.Shape, M.TxOutcome, Step, Covers, Sends;
  }

  lemma {:induction false} SavedIsBehind(w: World, b: seq<Sys>, i: nat)
    requires Run(w, b) && (b[0].disk == None || !w.durable) && i < |b|
    ensures SavedBehind(w, b[i])
  {
    if i > 0 {
      hide Next;
      SavedIsBehind(w, b, i - 1);
      StepForward(w, b[i - 1], b[i]);
    }
  }

  /** From a start without a state file, at any two moments of any run; as to the process, if it did not die between. */
  lemma {:induction false} NeverBack(w: World, b: seq<Sys>, i: nat, j: nat)
    requires Run(w, b) && (b[0].disk == None || !w.durable) && i <= j < |b|
    ensures b[i].log <= b[j].log && b[i].slot <= b[j].slot && (w.durable ==> SavedLsn(b[i]) <= SavedLsn(b[j]))
    ensures (forall k :: i <= k <= j ==> b[k].proc.Some?) ==> Forward(w, b[i], b[j])
  {
    hide Next, SavedBehind, Init;
    if i < j {
      NeverBack(w, b, i, j - 1);
      SavedIsBehind(w, b, j - 1);
      StepForward(w, b[j - 1], b[j]);
    }
  }

  // ------------------------------------------------------------------ truncations

  /** Runs from a start in which nothing but this log commits. */
  ghost predicate RunOf(w: World, s: Sys, log: seq<Logged>, b: seq<Sys>) {
    b != [] && Run(w, b) && b[0] == s && forall i :: 0 <= i < |b| ==> b[i].log <= log
  }

  /** The process does not hold a transaction that the mirror refuses. */
  ghost predicate NotRefused(w: World, s: Sys) {
    s.proc.Some? && s.proc.value.phase.Got? ==>
      && M.MapOk(w.m) && M.Shape(w.m, s.proc.value.mirror.cols)
      && M.TxOutcome(w.m, w.parse, s.proc.value.mirror, s.proc.value.phase.tx).1.Ok?
  }

  ghost function Last(b: seq<Sys>): Sys
    requires b != []
  {
    b[|b| - 1]
  }

  /** In every run of a log all mirrors are exact and no transaction is refused, if and only if no truncation of that log
      finds a row. */
  lemma {:induction false} ExactIffClean(w: World, s: Sys, log: seq<Logged>)
    requires Init(w, s) && LogOk(w, log)
    ensures (forall b: seq<Sys>, i :: RunOf(w, s, log, b) && 0 <= i < |b| ==> Exact(w, b[i]) && NotRefused(w, b[i]))
            <==> Clean(log, |log|)
  {
    hide Exact, NotRefused, Run, LogOk, Init, M.TruncatesNothing, RunningExact;
    if Clean(log, |log|) {
      forall b: seq<Sys>, i | RunOf(w, s, log, b) && 0 <= i < |b| ensures Exact(w, b[i]) && NotRefused(w, b[i]) {
        CleanPrefix(b[i].log, log);
        ExactlyOnce(w, b, i);
        NeverRefused(w, b, i);
      }
    } else {
      var k := FirstDirty(log);
      var b := DirtyRun(w, s, log, k);
      var i := |b| - 1;
      assert RunOf(w, s, log, b) && 0 <= i < |b|;
      assert !Exact(w, b[i]) || !NotRefused(w, b[i]) by {
        ExactRuns(w, b[i]);
      }
    }
  }

  lemma {:induction false} ExactRuns(w: World, s: Sys)
    ensures Exact(w, s) ==> RunningExact(w, s)
  {
  }

  lemma {:induction false} CleanPrefix(part: seq<Logged>, log: seq<Logged>)
    requires part <= log && Clean(log, |log|)
    ensures Clean(part, |part|)
  {
  }

  lemma {:induction false} NeverRefused(w: World, b: seq<Sys>, i: nat)
    requires Run(w, b) && i < |b| && AllClean(b[i])
    ensures NotRefused(w, b[i])
  {
    hide Run, M.Shape, M.TxOutcome, M.TruncatesNothing;
    if b[i].proc.Some? && b[i].proc.value.phase.Got? {
      var k := ApplyNeverFails(w, b, i);
    }
  }

  lemma {:induction false} FirstDirty(log: seq<Logged>) returns (k: nat)
    requires !Clean(log, |log|)
    ensures k < |log| && Clean(log, k) && !M.TruncatesNothing(log[k].changes, log[k].ups)
  {
    hide M.TruncatesNothing;
    k := 0;
    while M.TruncatesNothing(log[k].changes, log[k].ups)
      invariant k < |log| && Clean(log, k)
      decreases |log| - k
    {
      assert Clean(log, k + 1);
      k := k + 1;
    }
  }

  lemma {:induction false} UpAtPart(w: World, log: seq<Logged>, k: nat, n: nat)
    requires Recorded(log) && n <= k <= |log|
    ensures Recorded(log[..k]) && UpAt(w, log[..k], n) == UpAt(w, log, n)
  {
  }

  lemma {:induction false} RisingPart(log: seq<Logged>, k: nat)
    requires Rising(log) && k <= |log|
    ensures Rising(log[..k])
  {
  }

  lemma {:induction false} LogPart(w: World, log: seq<Logged>, k: nat)
    requires LogOk(w, log) && k <= |log|
    ensures LogOk(w, log[..k])
    ensures Recorded(log) && forall n :: 0 <= n <= k ==> UpAt(w, log[..k], n) == UpAt(w, log, n)
  {
    hide LoggedOk;
    forall n | 0 <= n <= k ensures UpAt(w, log[..k], n) == UpAt(w, log, n) {
      UpAtPart(w, log, k, n);
    }
    hide UpAt, Rising;
    RisingPart(log, k);
    forall i | 0 <= i < k ensures LoggedOk(w, UpAt(w, log[..k], i), log[..k][i]) {
      assert LoggedOk(w, UpAt(w, log, i), log[i]);
    }
  }

  // ------------------------------------------------------------------ a run of any log

  /** The process waits, level with the server: it has read, applied and acknowledged the first `k` transactions. */
  ghost predicate Level(s: Sys, log: seq<Logged>, k: nat) {
    && k <= |log| && s.log == log[..k]
    && s.proc.Some? && s.proc.value.phase == Polling && s.proc.value.conn.Some?
    && var p := s.proc.value;
       var c := p.conn.value;
       && c.from == 0 && |c.chunks| == k && c.i == k && c.j == 0
       && p.mirror.lastLsn == if k == 0 then 0 else Lsn(log[k - 1])
  }

  /** It has just read the next one. */
  ghost predicate Holding(s: Sys, log: seq<Logged>, k: nat, mirror: M.State) {
    && k < |log| && s.log == log[..k + 1] && AllSendable(log[k].server.changes)
    && s.proc.Some? && s.proc.value.phase == Got(MeantTx(log[k].server)) && s.proc.value.conn.Some?
    && s.proc.value.mirror == mirror
    && var c := s.proc.value.conn.value;
       c.from == 0 && |c.chunks| == k + 1 && c.i == k + 1 && c.j == 0
  }

  lemma {:induction false} Extended(w: World, s: Sys, log: seq<Logged>, b: seq<Sys>, s': Sys)
    requires RunOf(w, s, log, b) && Next(w, Last(b), s') && s'.log <= log
    ensures RunOf(w, s, log, b + [s'])
  {
    hide Next, Init;
    var b' := b + [s'];
    forall i | 0 <= i < |b'| - 1 ensures Next(w, b'[i], b'[i + 1]) {
      if i < |b| - 1 {
        assert Next(w, b[i], b[i + 1]);
      }
    }
  }

  lemma {:induction false} DialFirst(w: World, s: Sys, log: seq<Logged>) returns (b: seq<Sys>)
    requires Init(w, s)
    ensures RunOf(w, s, log, b) && Level(Last(b), log, 0) && Last(b).disk == s.disk
    ensures Last(b).proc.value.mirror == s.proc.value.mirror
  {
    var p := s.proc.value;
    var s' := s.(proc := Some(p.(conn := Some(Conn(0, [], 0, 0)), asm := Asm(map[], [], p.asm.pendingTs))));
    assert ActionOk(w, s, s', Dial(0));
    Extended(w, s, log, [s], s');
    b := [s, s'];
    assert b == [s] + [s'];
  }

  /** The next transaction commits, is sent, and is read to its end. */
  lemma {:induction false} ReadNext(w: World, s: Sys, log: seq<Logged>, k: nat, b: seq<Sys>) returns (b': seq<Sys>)
    requires LogOk(w, log) && RunOf(w, s, log, b) && Level(Last(b), log, k) && k < |log|
    ensures RunOf(w, s, log, b') && Holding(Last(b'), log, k, Last(b).proc.value.mirror) && Last(b').disk == Last(b).disk
  {
    hide Next, Run, M.Shape, M.Mirrors, LogOk, MeantTx;
    var s0 := Last(b);
    LogPart(w, log, k + 1);
    SendableAt(w, log, k);
    assert log[..k] + [log[k]] == log[..k + 1];
    CommitStep(w, s0, log[k]);
    var s1 := s0.(log := log[..k + 1]);
    Extended(w, s, log, b, s1);
    var s2 := SendStep(w, s1, s1.proc.value.conn.value, k);
    Extended(w, s, log, b + [s1], s2);
    b' := ReadRest(w, s, log, k, b + [s1] + [s2]);
  }

  /** The last transaction of the log is sent. */
  lemma {:induction false} SendStep(w: World, s: Sys, c: Conn, k: nat) returns (s': Sys)
    requires |s.log| == k + 1 && s.proc.Some? && s.proc.value.conn == Some(c) && c.from == 0 && |c.chunks| == k
    requires AllSendable(s.log[k].server.changes)
    ensures Next(w, s, s')
    ensures s' == s.(proc := s'.proc) && s'.proc.Some?
    ensures s'.proc.value == s.proc.value.(conn := s'.proc.value.conn) && s'.proc.value.conn.Some?
    ensures
      var c' := s'.proc.value.conn.value;
      c' == c.(chunks := c'.chunks) && |c'.chunks| == k + 1 && c.chunks <= c'.chunks
  {
    hide Next, Sends;
    var chunk := ChunkFor(s.log[k].server);
    ChunkSends(KnownAt(c.chunks, k), s.log[k].server);
    s' := s.(proc := Some(s.proc.value.(conn := Some(c.(chunks := c.chunks + [chunk])))));
    Taken(w, s, s', Send(chunk));
  }

  lemma {:induction false} Taken(w: World, s: Sys, s': Sys, action: Action)
    requires ActionOk(w, s, s', action)
    ensures Next(w, s, s')
  {
  }

  /** The last chunk of the connection is read to its end. */
  lemma {:induction false} ReadRest(w: World, s: Sys, log: seq<Logged>, k: nat, b: seq<Sys>) returns (b': seq<Sys>)
    requires LogOk(w, log) && RunOf(w, s, log, b) && k < |log|
    requires Last(b).log == log[..k + 1] && Last(b).proc.Some? && Last(b).proc.value.phase == Polling
    requires Last(b).proc.value.conn.Some?
    requires
      var c := Last(b).proc.value.conn.value;
      c.from == 0 && |c.chunks| == k + 1 && c.i == k && c.j <= |c.chunks[k].body| + 1
    ensures RunOf(w, s, log, b') && Holding(Last(b'), log, k, Last(b).proc.value.mirror) && Last(b').disk == Last(b).disk
    decreases |Last(b).proc.value.conn.value.chunks[k].body| + 1 - Last(b).proc.value.conn.value.j
  {
    hide Next, Run, LogOk, Inv, ConnOk, AsmOk, Step, MeantTx, ChunkMsg, AllSendable;
    var s0 := Last(b);
    var p := s0.proc.value;
    var c := p.conn.value;
    InvHolds(w, b, |b| - 1);
    InvConn(w, s0);
    Delivered(s0.log, p.asm, c);
    var (a, r) := Step(p.asm, ChunkMsg(c.chunks[k], s0.log[k].server, c.j));
    if c.j <= |c.chunks[k].body| {
      var s1 := s0.(proc := Some(p.(asm := a, conn := Some(c.(j := c.j + 1)))));
      Taken(w, s0, s1, Deliver);
      Extended(w, s, log, b, s1);
      b' := ReadRest(w, s, log, k, b + [s1]);
    } else {
      var s1 := s0.(proc := Some(p.(asm := a, conn := Some(c.(i := c.i + 1, j := 0)), phase := Got(r.value.value))));
      Taken(w, s0, s1, Deliver);
      Extended(w, s, log, b, s1);
      b' := b + [s1];
    }
  }

  lemma {:induction false} InvConn(w: World, s: Sys)
    requires Inv(w, s) && s.proc.Some? && s.proc.value.conn.Some?
    ensures ConnOk(s.log, s.proc.value.conn.value) && AsmOk(s.proc.value.asm, s.log, s.proc.value.conn.value)
  {
  }

  /** A held transaction that the mirror accepts is applied, saved and acknowledged. */
  lemma {:induction false} Accepts(w: World, s: Sys, log: seq<Logged>, k: nat, b: seq<Sys>) returns (b': seq<Sys>)
    requires RunOf(w, s, log, b) && k < |log| && Last(b).proc.Some?
    requires Holding(Last(b), log, k, Last(b).proc.value.mirror)
    requires M.MapOk(w.m) && M.Shape(w.m, Last(b).proc.value.mirror.cols)
    requires
      var mirror := Last(b).proc.value.mirror;
      mirror.lastLsn < Lsn(log[k]) && M.TxOutcome(w.m, w.parse, mirror, MeantTx(log[k].server)).1.Ok?
    ensures
      var mirror' := M.TxOutcome(w.m, w.parse, Last(b).proc.value.mirror, MeantTx(log[k].server)).0;
      && RunOf(w, s, log, b') && Level(Last(b'), log, k + 1) && Last(b').proc.value.mirror == mirror'
      && (w.durable ==> Last(b').disk == Some(mirror'))
  {
    hide Next, Run, M.Shape, M.ApplyAll, MeantAll;
    var s0 := Last(b);
    var p := s0.proc.value;
    var tx := p.phase.tx;
    var mirror' := M.TxOutcome(w.m, w.parse, p.mirror, tx).0;
    var s1 := s0.(proc := Some(p.(mirror := mirror', phase := Applied(tx, true))));
    Taken(w, s0, s1, Apply);
    Extended(w, s, log, b, s1);
    var s2 := s1.(disk := if w.durable then Some(mirror') else s1.disk,
                  proc := Some(s1.proc.value.(phase := Saved(tx))));
    Taken(w, s1, s2, Save);
    Extended(w, s, log, b + [s1], s2);
    var ack := Max(p.lastAck, tx.endLsn);
    var s3 := s2.(proc := Some(s2.proc.value.(lastAck := ack, phase := Polling)), inFlight := s2.inFlight + {ack});
    Taken(w, s2, s3, Ack);
    Extended(w, s, log, b + [s1] + [s2], s3);
    b' := b + [s1] + [s2] + [s3];
  }

  lemma {:induction false} HoldingIsHeld(w: World, s: Sys, log: seq<Logged>, k: nat, mirror: M.State)
    requires LogOk(w, log) && Inv(w, s) && Holding(s, log, k, mirror)
    requires mirror.lastLsn == if k == 0 then 0 else Lsn(log[k - 1])
    ensures LogOk(w, s.log) && OnTrack(w, s.log, mirror) && Anchored(w, s.log, mirror.lastLsn)
    ensures Held(s.log, mirror.lastLsn, MeantTx(log[k].server), k) && mirror.lastLsn < Lsn(log[k])
  {
    hide OnTrack, Anchored, LoggedOk, AllSendable, MeantAll, ConnOk, AsmOk;
  }

  lemma {:induction false} SendableAt(w: World, log: seq<Logged>, k: nat)
    requires LogOk(w, log) && k < |log|
    ensures AllSendable(log[k].server.changes)
  {
    LogEntry(w, log, k);
  }

  /** From level to holding the next transaction. */
  lemma {:induction false} Hold(w: World, s: Sys, log: seq<Logged>, k: nat, b: seq<Sys>) returns (b': seq<Sys>)
    requires LogOk(w, log) && RunOf(w, s, log, b) && Level(Last(b), log, k) && k < |log|
    ensures RunOf(w, s, log, b') && Last(b').proc.Some? && AllSendable(log[k].server.changes)
    ensures
      var mirror, part := Last(b').proc.value.mirror, Last(b').log;
      && Holding(Last(b'), log, k, mirror) && mirror == Last(b).proc.value.mirror && Last(b').disk == Last(b).disk
      && part == log[..k + 1] && LogOk(w, part) && OnTrack(w, part, mirror) && Anchored(w, part, mirror.lastLsn)
      && Held(part, mirror.lastLsn, MeantTx(log[k].server), k) && mirror.lastLsn < Lsn(log[k])
  {
    SendableAt(w, log, k);
    LevelLsn(Last(b), log, k);
    hide LogOk, Run, Level, Holding, OnTrack, Anchored, Held, Inv, MeantTx;
    b' := ReadNext(w, s, log, k, b);
    var mirror := Last(b).proc.value.mirror;
    InvHolds(w, b', |b'| - 1);
    HoldingIsHeld(w, Last(b'), log, k, mirror);
    HoldingLog(Last(b'), log, k, mirror);
  }

  /** As long as nothing truncates rows, the process can get level. */
  lemma {:induction false} GetLevel(w: World, s: Sys, log: seq<Logged>, k: nat) returns (b: seq<Sys>)
    requires Init(w, s) && LogOk(w, log) && k <= |log| && Clean(log, k)
    ensures RunOf(w, s, log, b) && Level(Last(b), log, k)
  {
    hide Init, LogOk, RunOf, Level, Holding, OnTrack, Anchored, Held, M.TxOutcome, M.Shape, Clean, MeantTx;
    if k == 0 {
      b := DialFirst(w, s, log);
    } else {
      CleanLess(log, k - 1, k);
      var before := GetLevel(w, s, log, k - 1);
      b := LevelUp(w, s, log, k - 1, before);
    }
  }

  lemma {:induction false} LevelUp(w: World, s: Sys, log: seq<Logged>, k: nat, b: seq<Sys>) returns (b': seq<Sys>)
    requires LogOk(w, log) && k < |log| && Clean(log, k + 1) && RunOf(w, s, log, b) && Level(Last(b), log, k)
    ensures RunOf(w, s, log, b') && Level(Last(b'), log, k + 1)
  {
    hide LogOk, Run, Level, Holding, OnTrack, Anchored, Held, M.TxOutcome, M.Shape, Clean, MeantTx;
    var held := Hold(w, s, log, k, b);
    CleanPart(log, k + 1, k + 1);
    ApplyOnTrack(w, Last(held).log, Last(held).proc.value.mirror, MeantTx(log[k].server), k);
    b' := Accepts(w, s, log, k, held);
  }

  lemma {:induction false} LevelLsn(s: Sys, log: seq<Logged>, k: nat)
    requires Level(s, log, k)
    ensures k <= |log| && s.proc.Some? && s.proc.value.mirror.lastLsn == if k == 0 then 0 else Lsn(log[k - 1])
  {
  }

  lemma {:induction false} HoldingLog(s: Sys, log: seq<Logged>, k: nat, mirror: M.State)
    requires Holding(s, log, k, mirror)
    ensures k < |log| && AllSendable(log[k].server.changes) && s.log == log[..k + 1] && s.log[k] == log[k]
    ensures s.proc.Some? && s.proc.value.mirror == mirror && s.proc.value.phase == Got(MeantTx(log[k].server))
  {
  }

  lemma {:induction false} CleanPart(log: seq<Logged>, k: nat, n: nat)
    requires n <= k <= |log|
    ensures Clean(log[..k], n) == Clean(log, n)
  {
    assert forall i :: 0 <= i < n ==> log[..k][i] == log[i];
  }

  /** A run that goes wrong at the first transaction that truncates rows: it is refused, or leaves a wrong mirror. */
  lemma {:induction false} DirtyRun(w: World, s: Sys, log: seq<Logged>, k: nat) returns (b: seq<Sys>)
    requires Init(w, s) && LogOk(w, log) && k < |log| && Clean(log, k)
    requires !M.TruncatesNothing(log[k].changes, log[k].ups)
    ensures RunOf(w, s, log, b) && (!RunningExact(w, Last(b)) || !NotRefused(w, Last(b)))
  {
    hide Init, LogOk, Run, Level, Holding, OnTrack, Anchored, Held, M.TxOutcome, M.Shape, M.TruncatesNothing, Clean,
         MeantAll, Covers, M.Mirrors;
    var before := GetLevel(w, s, log, k);
    var held := Hold(w, s, log, k, before);
    var mirror, tx := Last(held).proc.value.mirror, MeantTx(log[k].server);
    CleanPart(log, k + 1, k);
    HoldingLog(Last(held), log, k, mirror);
    DirtyIsWrong(w, Last(held).log, mirror, tx, k);
    if M.TxOutcome(w.m, w.parse, mirror, tx).1.Err? {
      b := held;
      assert !NotRefused(w, Last(b));
    } else {
      b := Accepts(w, s, log, k, held);
      LevelLog(Last(b), log, k + 1);
      assert !RunningExact(w, Last(b));
    }
  }

  lemma {:induction false} LevelLog(s: Sys, log: seq<Logged>, k: nat)
    requires Level(s, log, k)
    ensures k <= |log| && s.log == log[..k] && s.proc.Some?
  {
  }

  /** What a transaction that truncates rows leaves, when it is accepted. */
  lemma {:induction false} DirtyIsWrong(w: World, log: seq<Logged>, mirror: M.State, tx: CommittedTx, k: nat)
    requires LogOk(w, log) && OnTrack(w, log, mirror) && Held(log, mirror.lastLsn, tx, k) && tx.endLsn > mirror.lastLsn
    requires Clean(log, k) && !M.TruncatesNothing(log[k].changes, log[k].ups)
    ensures M.MapOk(w.m) && M.Shape(w.m, mirror.cols)
    ensures
      var (mirror', r) := M.TxOutcome(w.m, w.parse, mirror, tx);
      r.Ok? ==> !exists n :: Covers(log, mirror'.lastLsn, n) && M.Mirrors(w.m, mirror'.cols, UpAt(w, log, n))
  {
    hide M.Shape, M.Holds, M.Mirrors, LogOk, M.ReportsTx, M.TxOutcome, M.TruncatesNothing, Clean, MeantTx;
    LogRecorded(w, log);
    LogEntry(w, log, k);
    HeldOnTrack(w, log, mirror, tx, k);
    M.TruncatedIsMissed(w.m, w.parse, mirror, UpAt(w, log, k), log[k].changes, log[k].ups, tx);
    var (mirror', r) := M.TxOutcome(w.m, w.parse, mirror, tx);
    if r.Ok? {
      forall n | Covers(log, mirror'.lastLsn, n) ensures !M.Mirrors(w.m, mirror'.cols, UpAt(w, log, n)) {
        CoversUnique(log, mirror'.lastLsn, n, k + 1);
      }
    }
  }

  // ------------------------------------------------------------------ a refused transaction

  /** The saved mirror, which is also the running one, refuses the first transaction it does not cover. */
  ghost predicate Stuck(w: World, s: Sys, mirror: M.State, k: nat) {
    && M.MapOk(w.m) && M.Shape(w.m, mirror.cols) && w.durable
    && k < |s.log| && Covers(s.log, mirror.lastLsn, k) && AllSendable(s.log[k].server.changes)
    && M.TxOutcome(w.m, w.parse, mirror, MeantTx(s.log[k].server)).1.Err?
    && s.disk == Some(mirror)
    && (s.proc.Some? ==>
          s.proc.value.mirror == mirror && (s.proc.value.phase.Applied? ==> !s.proc.value.phase.changed))
  }

  /** It is refused for good: whatever happens, the mirrors never move again. */
  lemma {:induction false} StuckForGood(w: World, b: seq<Sys>, i: nat, j: nat, mirror: M.State, k: nat)
    requires Run(w, b) && i <= j < |b| && Stuck(w, b[i], mirror, k)
    ensures Stuck(w, b[j], mirror, k)
  {
    hide Run, Stuck, Inv, Next;
    if j > i {
      StuckForGood(w, b, i, j - 1, mirror, k);
      InvHolds(w, b, j - 1);
      RunStep(w, b, j - 1);
      StuckStays(w, b[j - 1], b[j], mirror, k);
    }
  }

  lemma {:induction false} RunStep(w: World, b: seq<Sys>, i: nat)
    requires Run(w, b) && i + 1 < |b|
    ensures Next(w, b[i], b[i + 1])
  {
  }

  lemma {:induction false} StuckStays(w: World, s: Sys, s': Sys, mirror: M.State, k: nat)
    requires Inv(w, s) && Stuck(w, s, mirror, k) && Next(w, s, s')
    ensures Stuck(w, s', mirror, k)
  {
    hide M.TxOutcome, M.Shape, AllSendable, MeantTx, Inv, LogOk;
    var action :| ActionOk(w, s, s', action);
    match action
    case Commit(l) => StuckGrown(w, s, s', l, mirror, k);
    case Apply => StuckRefuses(w, s, s', mirror, k);
    case _ =>
  }

  lemma {:induction false} StuckGrown(w: World, s: Sys, s': Sys, l: Logged, mirror: M.State, k: nat)
    requires Stuck(w, s, mirror, k) && Commits(w, s, s', l)
    ensures Stuck(w, s', mirror, k)
  {
    hide M.TxOutcome, M.Shape, AllSendable, MeantTx, LoggedOk;
    assert s'.log[k] == s.log[k];
    RisingAt(s'.log, k, |s.log|);
    forall i | 0 <= i < |s'.log| ensures if i < k then Lsn(s'.log[i]) <= mirror.lastLsn else Lsn(s'.log[i]) > mirror.lastLsn {
      if i < |s.log| {
        assert s'.log[i] == s.log[i];
      }
    }
  }

  lemma {:induction false} StuckRefuses(w: World, s: Sys, s': Sys, mirror: M.State, k: nat)
    requires Inv(w, s) && Stuck(w, s, mirror, k) && Applies(w, s, s')
    ensures Stuck(w, s', mirror, k)
  {
    hide M.Shape, AllSendable, MeantAll, M.ApplyAll, LogOk, OnTrack, Anchored, ConnOk, AsmOk, Covers;
    var tx := s.proc.value.phase.tx;
    var n :| Held(s.log, mirror.lastLsn, tx, n);
    HeldInLog(s.log, mirror.lastLsn, tx, n);
    if tx.endLsn > mirror.lastLsn {
      HeldIsNext(w, s.log, mirror.lastLsn, tx, n);
      CoversUnique(s.log, mirror.lastLsn, n, k);
    }
  }

  // ------------------------------------------------------------------ two runs with a truncation

  /** BEGIN; TRUNCATE; COMMIT. */
  function Truncated(w: World, lsn: nat): Logged {
    Logged(ServerTx([Truncation([w.m.table])], 0, lsn), [M.UpTruncate], [w.initial, map[]])
  }

  lemma {:induction false} TruncatedOk(w: World, lsn: nat)
    requires M.MapOk(w.m) && lsn > w.consistentPoint
    ensures LogOk(w, [Truncated(w, lsn)])
  {
    var l := Truncated(w, lsn);
    var cs, ups := l.changes, l.ups;
    TruncatedIsEmpty(w, lsn);
    assert M.Told(cs, 0) == 0 && M.Told(cs, 1) == 0;
    assert M.UpOk(w.m, ups[0], cs[0]) && ups[1] == M.UpApply(w.m, ups[0], cs[0]);
    assert LoggedOk(w, w.initial, l);
  }

  /** A truncation of a table with rows is not noticed: the watermark moves past it and the rows stay, in the running
      mirror and in the saved one. */
  lemma {:induction false} TruncateKeepsRows(w: World, s: Sys, lsn: nat) returns (b: seq<Sys>)
    requires Init(w, s) && w.initial != map[] && lsn > w.consistentPoint
    ensures LogOk(w, [Truncated(w, lsn)]) && RunOf(w, s, [Truncated(w, lsn)], b) && !RunningExact(w, Last(b))
    ensures Last(b).proc.Some?
    ensures
      var before, after := s.proc.value.mirror, Last(b).proc.value.mirror;
      after == before.(txsApplied := before.txsApplied + 1, lastLsn := lsn) && (w.durable ==> Last(b).disk == Some(after))
  {
    var log := [Truncated(w, lsn)];
    TruncatedOk(w, lsn);
    StartsMirror(w, s);
    b := PastTruncation(w, s, log, lsn);
    LevelLog(Last(b), log, 1);
    EmptiedIsNotThis(w, Last(b), lsn);
  }

  lemma {:induction false} EmptiedIsNotThis(w: World, s: Sys, lsn: nat)
    requires s.log == [Truncated(w, lsn)] && s.proc.Some? && s.proc.value.mirror.lastLsn == lsn
    requires w.initial != map[] && M.Mirrors(w.m, s.proc.value.mirror.cols, w.initial)
    ensures !RunningExact(w, s)
  {
    hide M.Mirrors;
    if RunningExact(w, s) {
      var n :| Covers(s.log, lsn, n) && M.Mirrors(w.m, s.proc.value.mirror.cols, UpAt(w, s.log, n));
      assert n == 1;
      M.MirrorsOne(w.m, s.proc.value.mirror.cols, w.initial, map[]);
    }
  }

  /** Reading and applying the truncation. */
  lemma {:induction false} PastTruncation(w: World, s: Sys, log: seq<Logged>, lsn: nat) returns (b: seq<Sys>)
    requires Init(w, s) && LogOk(w, log) && log != [] && log[0] == Truncated(w, lsn)
    ensures RunOf(w, s, log, b) && Level(Last(b), log, 1)
    ensures s.proc.Some? && Last(b).proc.Some?
    ensures
      var before, after := s.proc.value.mirror, Last(b).proc.value.mirror;
      after == before.(txsApplied := before.txsApplied + 1, lastLsn := lsn) && (w.durable ==> Last(b).disk == Some(after))
  {
    StartsMirror(w, s);
    TruncatedIsEmpty(w, lsn);
    hide Run, Truncated, Init, LogOk, OnTrack, Anchored, Held, M.Shape, M.Mirrors, Level, Holding, MeantTx;
    var start := DialFirst(w, s, log);
    var held := Hold(w, s, log, 0, start);
    OnTrackShape(w, Last(held).log, Last(held).proc.value.mirror);
    EmptyTx(w, Last(held).proc.value.mirror, MeantTx(log[0].server));
    hide M.TxOutcome;
    b := Accepts(w, s, log, 0, held);
    LevelLog(Last(b), log, 1);
  }

  lemma {:induction false} TruncatedIsEmpty(w: World, lsn: nat)
    ensures AllSendable(Truncated(w, lsn).server.changes) && Lsn(Truncated(w, lsn)) == lsn
    ensures MeantTx(Truncated(w, lsn).server) == CommittedTx([], 0, lsn)
  {
    assert MeantAll(Truncated(w, lsn).server.changes) == [];
  }

  lemma {:induction false} OnTrackShape(w: World, log: seq<Logged>, mirror: M.State)
    requires LogOk(w, log) && OnTrack(w, log, mirror)
    ensures M.MapOk(w.m) && M.Shape(w.m, mirror.cols)
  {
    hide M.Shape;
  }

  lemma {:induction false} EmptyTx(w: World, mirror: M.State, tx: CommittedTx)
    requires M.MapOk(w.m) && M.Shape(w.m, mirror.cols) && tx.changes == [] && tx.endLsn > mirror.lastLsn
    ensures M.TxOutcome(w.m, w.parse, mirror, tx)
            == (M.State(mirror.cols, mirror.rowsApplied, mirror.txsApplied + 1, tx.endLsn), Ok(0))
  {
  }

  /** The row as the server sends it. */
  ghost predicate RowSent(w: World, row: RowValues, c: ServerChange) {
    && M.MapOk(w.m) && M.RowOk(w.m, row)
    && c.RowOp? && c.op.InsertOp? && c.meta.name == w.m.table && |c.op.after| == |c.meta.columns|
    && M.WritesRow(w.m, w.parse, Zip(c.meta.columns, c.op.after), row, None)
  }

  function DeleteSent(c: ServerChange): ServerChange
    requires c.RowOp? && c.op.InsertOp?
  {
    c.(op := DeleteOp(c.op.after))
  }

  function OneChange(lsn: nat, sent: ServerChange, c: M.UpChange, before: M.Upstream, after: M.Upstream): Logged {
    Logged(ServerTx([sent], 0, lsn), [c], [before, after])
  }

  /** A table of one row is truncated, the row is inserted again, and then deleted. */
  ghost function Reinserted(w: World, lsn: nat, row: RowValues, c: ServerChange): seq<Logged>
    requires RowSent(w, row, c)
  {
    var key := M.KeyIn(w.m, row);
    [Truncated(w, lsn),
     OneChange(lsn + 1, c, M.UpInsert(row), map[], map[key := row]),
     OneChange(lsn + 2, DeleteSent(c), M.UpDelete(key), map[key := row], map[])]
  }

  lemma {:induction false} OneChangeOk(w: World, lsn: nat, sent: ServerChange, c: M.UpChange, up: M.Upstream)
    requires M.MapOk(w.m) && Sendable(sent) && sent.RowOp? && !c.Truncates()
    requires M.UpOk(w.m, up, c) && M.Reports(w.m, w.parse, up, c, Meant(sent))
    ensures
      var l := OneChange(lsn, sent, c, up, M.UpApply(w.m, up, c));
      && LoggedOk(w, up, l) && MeantTx(l.server) == CommittedTx([Meant(sent)], 0, lsn)
  {
    hide M.Reports, M.UpOk, M.UpApply, Sendable, Meant;
    var l := OneChange(lsn, sent, c, up, M.UpApply(w.m, up, c));
    assert [sent][..0] == [] && MeantAll([]) == [];
    assert MeantAll([sent]) == [Meant(sent)];
    assert M.Told([c], 0) == 0 && M.Told([c], 1) == 1;
    assert M.ReportedAt(w.m, w.parse, l.changes, l.ups, MeantTx(l.server), 0);
  }

  lemma {:induction false} ReinsertedOk(w: World, lsn: nat, row: RowValues, c: ServerChange)
    requires RowSent(w, row, c) && w.initial == map[M.KeyIn(w.m, row) := row] && lsn > w.consistentPoint
    ensures LogOk(w, Reinserted(w, lsn, row, c))
    ensures
      var log, t := Reinserted(w, lsn, row, c), Zip(c.meta.columns, c.op.after);
      && AllSendable(log[1].server.changes) && AllSendable(log[2].server.changes)
      && MeantTx(log[1].server) == CommittedTx([RowInsert(w.m.table, t)], 0, lsn + 1)
      && MeantTx(log[2].server) == CommittedTx([RowDelete(w.m.table, t)], 0, lsn + 2)
  {
    hide M.WritesRow, M.RowOk;
    var key, log, t := M.KeyIn(w.m, row), Reinserted(w, lsn, row, c), Zip(c.meta.columns, c.op.after);
    TruncatedOk(w, lsn);
    assert LoggedOk(w, w.initial, [Truncated(w, lsn)][0]);
    M.WrittenKey(w.m, w.parse, t, row);
    OneChangeOk(w, lsn + 1, c, M.UpInsert(row), map[]);
    assert map[key := row] - {key} == map[];
    OneChangeOk(w, lsn + 2, DeleteSent(c), M.UpDelete(key), map[key := row]);
    hide LoggedOk;
    assert UpAt(w, log, 0) == w.initial && UpAt(w, log, 1) == map[] && UpAt(w, log, 2) == map[key := row];
  }

  /** The mirror has the row twice and refuses the transaction that deletes it; with a state file, for good. */
  lemma {:induction false} ReinsertedIsStuck(w: World, s: Sys, lsn: nat, row: RowValues,
                                             c: ServerChange) returns (b: seq<Sys>)
    requires Init(w, s) && RowSent(w, row, c) && w.initial == map[M.KeyIn(w.m, row) := row] && lsn > w.consistentPoint
    ensures LogOk(w, Reinserted(w, lsn, row, c)) && RunOf(w, s, Reinserted(w, lsn, row, c), b)
    ensures Last(b).proc.Some? && Last(b).proc.value.phase.Got?
    ensures
      var p := Last(b).proc.value;
      && M.Shape(w.m, p.mirror.cols) && M.TxOutcome(w.m, w.parse, p.mirror, p.phase.tx).1 == Err(M.RemovedRows(2))
      && (w.durable ==> Stuck(w, Last(b), p.mirror, 2))
  {
    var log, t := Reinserted(w, lsn, row, c), Zip(c.meta.columns, c.op.after);
    ReinsertedOk(w, lsn, row, c);
    TruncatedOk(w, lsn);
    assert log[0] == Truncated(w, lsn) && Lsn(log[1]) == lsn + 1 && Lsn(log[2]) == lsn + 2;
    StartsMirror(w, s);
    hide Run, Truncated, Reinserted, Init, LogOk, OnTrack, Anchored, Held, M.Shape, Level, Holding, MeantTx, RowSent, M.RowOk,
         M.Mirrors, M.TxOutcome, Stuck;
    var b1 := PastTruncation(w, s, log, lsn);
    var h1 := Hold(w, s, log, 1, b1);
    M.ReinsertedIsRefused(w.m, w.parse, Last(h1).proc.value.mirror, row, t, MeantTx(log[1].server), MeantTx(log[2].server));
    var b2 := Accepts(w, s, log, 1, h1);
    b := Hold(w, s, log, 2, b2);
    HoldingLog(Last(b), log, 2, Last(b).proc.value.mirror);
    if w.durable {
      HeldIsStuck(w, Last(b), Last(b).proc.value.mirror, 2);
    }
  }

  /** A held transaction that is refused, with the mirror on disk. */
  lemma {:induction false} HeldIsStuck(w: World, s: Sys, mirror: M.State, k: nat)
    requires LogOk(w, s.log) && k < |s.log| && AllSendable(s.log[k].server.changes)
    requires Held(s.log, mirror.lastLsn, MeantTx(s.log[k].server), k) && Lsn(s.log[k]) > mirror.lastLsn
    requires M.MapOk(w.m) && M.Shape(w.m, mirror.cols)
    requires M.TxOutcome(w.m, w.parse, mirror, MeantTx(s.log[k].server)).1.Err?
    requires w.durable && s.disk == Some(mirror)
    requires s.proc.Some? && s.proc.value.mirror == mirror && s.proc.value.phase.Got?
    ensures Stuck(w, s, mirror, k)
  {
    hide LogOk, M.TxOutcome, M.Shape;
    HeldIsNext(w, s.log, mirror.lastLsn, MeantTx(s.log[k].server), k);
  }

  lemma {:induction false} StartsMirror(w: World, s: Sys)
    requires Init(w, s)
    ensures s.proc.Some? && M.Mirrors(w.m, s.proc.value.mirror.cols, w.initial) && s.proc.value.mirror.lastLsn == 0
  {
  }

  // ------------------------------------------------------------------ what an earlier slot left on disk

  /** Every run from this start, whatever is on disk. */
  ghost predicate AnyRun(w: World, s: Sys, b: seq<Sys>) {
    b != [] && b[0] == s && Starts(w, s) && Steps(w, b)
  }

  /** Over all runs whose logs truncate no rows, exactly once holds if and only if what is on disk at the start does no
      harm. When it does harm, it is the running mirror that goes wrong in some run. */
  lemma {:induction false} ExactlyOnceIffHarmless(w: World, s: Sys)
    requires Starts(w, s)
    ensures Harmless(w, s.disk) ==>
      forall b, i :: AnyRun(w, s, b) && 0 <= i < |b| && AllClean(b[i]) ==> Exact(w, b[i])
    ensures (forall b, i :: AnyRun(w, s, b) && 0 <= i < |b| && AllClean(b[i]) ==> RunningExact(w, b[i]))
            ==> Harmless(w, s.disk)
  {
    hide Exact, RunningExact, Steps, M.Mirrors, LoggedOk, Starts, UpAt, OnTrack;
    if Harmless(w, s.disk) {
      forall b, i | AnyRun(w, s, b) && 0 <= i < |b| && AllClean(b[i]) ensures Exact(w, b[i]) {
        ExactlyOnce(w, b, i);
      }
    } else {
      var file := s.disk.value;
      if !M.Mirrors(w.m, file.cols, w.initial) {
        WrongTable(w, s);
      } else {
        var l :| LogOk(w, [l]) && Clean([l], 1) && UpAt(w, [l], 1) != w.initial;
        SkippedChange(w, s, l);
      }
    }
  }

  function Crashed(s: Sys): Sys {
    s.(proc := None)
  }

  function Restarted(s: Sys): Sys
    requires s.disk.Some?
  {
    s.(proc := Some(Proc(s.disk.value, Asm(map[], [], 0), None, 0, Polling)))
  }

  lemma {:induction false} CrashAndRestart(w: World, s: Sys)
    requires w.durable && s.disk.Some?
    ensures Next(w, s, Crashed(s)) && Next(w, Crashed(s), Restarted(s))
  {
    assert ActionOk(w, s, Crashed(s), Crash);
    assert ActionOk(w, Crashed(s), Restarted(s), Restart);
  }

  /** A file that is not the table at the consistent point: two steps from the start the running mirror is that file. */
  lemma {:induction false} WrongTable(w: World, s: Sys)
    requires Starts(w, s) && w.durable && s.disk.Some? && !M.Mirrors(w.m, s.disk.value.cols, w.initial)
    ensures
      var b := [s, Crashed(s), Restarted(s)];
      AnyRun(w, s, b) && !RunningExact(w, b[2]) && AllClean(b[2])
  {
    hide Next, M.Mirrors;
    CrashAndRestart(w, s);
    var last := Restarted(s);
    assert last.log == [] && forall n :: Covers(last.log, last.proc.value.mirror.lastLsn, n) ==> n == 0;
  }

  /** The right table under a watermark beyond the consistent point: a transaction that the watermark skips changes the
      table upstream, and the process that comes back does not notice. */
  lemma {:induction false} SkippedChange(w: World, s: Sys, l: Logged)
    requires Starts(w, s) && w.durable && s.disk.Some? && M.Mirrors(w.m, s.disk.value.cols, w.initial)
    requires s.disk.value.lastLsn > w.consistentPoint && LogOk(w, [l]) && UpAt(w, [l], 1) != w.initial
    ensures
      var at := l.(server := l.server.(endLsn := s.disk.value.lastLsn));
      var grown := s.(log := [at]);
      var b := [s, grown, Crashed(grown), Restarted(grown)];
      AnyRun(w, s, b) && !RunningExact(w, b[3]) && (Clean([l], 1) ==> AllClean(b[3]))
  {
    hide Next, M.Mirrors, LoggedOk;
    var at := l.(server := l.server.(endLsn := s.disk.value.lastLsn));
    var grown := s.(log := [at]);
    MovedOk(w, l, s.disk.value.lastLsn);
    assert s.log + [at] == [at];
    CommitStep(w, s, at);
    CrashAndRestart(w, grown);
    var last := Restarted(grown);
    if RunningExact(w, last) {
      var n :| Covers(last.log, last.proc.value.mirror.lastLsn, n)
               && M.Mirrors(w.m, last.proc.value.mirror.cols, UpAt(w, last.log, n));
      assert n == 1;
      M.MirrorsOne(w.m, s.disk.value.cols, w.initial, UpAt(w, [at], 1));
    }
  }

  lemma {:induction false} CommitStep(w: World, s: Sys, l: Logged)
    requires LogOk(w, s.log + [l])
    ensures Next(w, s, s.(log := s.log + [l]))
  {
    assert ActionOk(w, s, s.(log := s.log + [l]), Commit(l));
  }

  lemma {:induction false} MovedOk(w: World, l: Logged, lsn: nat)
    requires LogOk(w, [l]) && lsn > w.consistentPoint
    ensures
      var at := l.(server := l.server.(endLsn := lsn));
      LogOk(w, [at]) && UpAt(w, [at], 1) == UpAt(w, [l], 1)
  {
    hide M.ReportsTx;
    var at := l.(server := l.server.(endLsn := lsn));
    assert LoggedOk(w, UpAt(w, [l], 0), [l][0]);
    assert SameKinds(w.m.table, at);
    SameReport(w, w.initial, l.changes, l.ups, MeantTx(l.server), MeantTx(at.server));
  }

  /** Reports do not depend on positions. */
  lemma {:induction false} SameReport(w: World, up: M.Upstream, cs: seq<M.UpChange>, ups: seq<M.Upstream>,
                                      a: CommittedTx, b: CommittedTx)
    requires M.MapOk(w.m) && M.ReportsTx(w.m, w.parse, up, cs, ups, a) && a.changes == b.changes
    ensures M.ReportsTx(w.m, w.parse, up, cs, ups, b)
  {
    hide M.Reports, M.UpOk, M.UpApply;
    forall k | 0 <= k < |cs| ensures M.UpOk(w.m, ups[k], cs[k]) && M.ReportedAt(w.m, w.parse, cs, ups, b, k) {
      assert M.ReportedAt(w.m, w.parse, cs, ups, a, k);
    }
  }

  /** A table of one column, the key, with one row. */
  const ID: bytes := [105, 100]
  const VEC: bytes := [118]

  function OneRow(x: real): Columns {
    map[ID := ScalarF64([x]), VEC := KeyF64([[]], 0)]
  }

  function NoRow(): Columns {
    map[ID := ScalarF64([]), VEC := KeyF64([], 0)]
  }

  /** For instance: the table is empty when the slot is made, and the file of an earlier slot has a row. The process dies
      and comes back with that row. */
  lemma {:induction false} StaleRowComesBack(parse: M.Parse, x: real, lsn: nat)
    ensures
      var w := World(M.TableMap([], ID, VEC, [], [ID], []), parse, 7, map[], true);
      var mirror := M.State(NoRow(), 0, 0, 0);
      var s := Sys([], 7, {}, Some(Proc(mirror, Asm(map[], [], 0), None, 0, Polling)), Some(M.State(OneRow(x), 1, 1, lsn)));
      && AnyRun(w, s, [s, Crashed(s), Restarted(s)]) && !RunningExact(w, Restarted(s))
      && Restarted(s).proc.value.mirror.cols == OneRow(x)
  {
    var w := World(M.TableMap([], ID, VEC, [], [ID], []), parse, 7, map[], true);
    var mirror := M.State(NoRow(), 0, 0, 0);
    var s := Sys([], 7, {}, Some(Proc(mirror, Asm(map[], [], 0), None, 0, Polling)), Some(M.State(OneRow(x), 1, 1, lsn)));
    assert ID[0] != VEC[0];
    assert M.Shape(w.m, NoRow());
    assert M.Mirrors(w.m, NoRow(), map[]);
    if M.Mirrors(w.m, OneRow(x), map[]) {
      M.SameRowCount(w.m, OneRow(x), map[]);
    }
    WrongTable(w, s);
  }

  /** A process that dies while there is no state file, which is until its first save, never comes back: the slot exists
      and there is nothing to resume from. Nothing changes that. */
  lemma {:induction false} NoRestartBeforeFirstSave(w: World, b: seq<Sys>, i: nat, j: nat)
    requires Steps(w, b) && i <= j < |b| && b[i].proc == None && (b[i].disk == None || !w.durable)
    ensures b[j].proc == None && b[j].disk == b[i].disk
  {
    hide Steps;
    if j > i {
      NoRestartBeforeFirstSave(w, b, i, j - 1);
      StepTaken(w, b, j - 1);
      DeadStays(w, b[j - 1], b[j]);
    }
  }

  lemma {:induction false} StepTaken(w: World, b: seq<Sys>, i: nat)
    requires Steps(w, b) && i + 1 < |b|
    ensures Next(w, b[i], b[i + 1])
  {
  }

  lemma {:induction false} DeadStays(w: World, s: Sys, s': Sys)
    requires s.proc == None && (s.disk == None || !w.durable) && Next(w, s, s')
    ensures s'.proc == None && s'.disk == s.disk
  {
  }
}
