/** From decoded messages to committed transactions: the assembler, the source around it, and what a server's
    stream means, cut wherever a connection dies. */
module TxAssembler {
  import opened Wrappers
  import opened Bytes
  import opened Words
  import opened Counting
  import opened Pgoutput
  import Utf8

  type NamedTuple = seq<(Text, TupleDatum)>

  datatype RowChange =
    | RowInsert(rel: Text, cols: NamedTuple)
    | RowDelete(rel: Text, before: NamedTuple)
    | RowUpdate(rel: Text, oldRow: Option<NamedTuple>, after: NamedTuple)

  datatype CommittedTx = CommittedTx(changes: seq<RowChange>, commitTs: int, endLsn: nat)

  datatype RelMeta = RelMeta(name: Text, columns: seq<Text>, identity: byte)

  datatype StreamError =
    | Undecodable(e: DecodeError)
    | ChangeBeforeRelation(relId: nat)
    | WrongWidth(rel: Text, got: nat, want: nat)
    | NoIdentity(rel: Text)

  /** REPLICA IDENTITY NOTHING. */
  const NOTHING: byte := 110

  datatype Asm = Asm(relations: map<nat, RelMeta>, pending: seq<RowChange>, pendingTs: int)

  // ------------------------------------------------------------------ one message

  function Zip(columns: seq<Text>, values: Tuple): (r: NamedTuple)
    requires |columns| == |values|
    ensures |r| == |columns| && forall i :: 0 <= i < |r| ==> r[i] == (columns[i], values[i])
  {
    seq(|columns|, i requires 0 <= i < |columns| => (columns[i], values[i]))
  }

  function Named(relations: map<nat, RelMeta>, relId: nat, values: Tuple): Result<(Text, NamedTuple), StreamError> {
    if relId !in relations then Err(ChangeBeforeRelation(relId))
    else
      var meta := relations[relId];
      if |meta.columns| != |values| then Err(WrongWidth(meta.name, |values|, |meta.columns|))
      else Ok((meta.name, Zip(meta.columns, values)))
  }

  function NamedOld(relations: map<nat, RelMeta>, relId: nat, values: Option<Tuple>): Result<Option<NamedTuple>, StreamError> {
    if values.None? then Ok(None)
    else
      var named :- Named(relations, relId, values.value);
      Ok(Some(named.1))
  }

  /** The row change that a change message adds to the transaction. */
  function ChangeOf(relations: map<nat, RelMeta>, m: Msg): Result<RowChange, StreamError>
    requires m.Insert? || m.Delete? || m.Update?
  {
    match m
    case Insert(relId, after) =>
      var (rel, cols) :- Named(relations, relId, after);
      Ok(RowInsert(rel, cols))
    case Delete(relId, before) =>
      var (rel, cols) :- Named(relations, relId, before);
      Ok(RowDelete(rel, cols))
    case Update(relId, oldTuple, after) =>
      if relId in relations && relations[relId].identity == NOTHING then Err(NoIdentity(relations[relId].name))
      else
        var oldRow :- NamedOld(relations, relId, oldTuple);
        var (rel, cols) :- Named(relations, relId, after);
        Ok(RowUpdate(rel, oldRow, cols))
  }

  /** The assembler after one message, and what it hands out. */
  function Step(a: Asm, m: Msg): (Asm, Result<Option<CommittedTx>, StreamError>) {
    match m
    case Begin(_, ts, _) => (a.(pending := [], pendingTs := ts), Ok(None))
    case Commit(endLsn, ts) => (a.(pending := []), Ok(Some(CommittedTx(a.pending, ts, endLsn))))
    case Relation(relId, _, name, identity, columns) =>
      (a.(relations := a.relations[relId := RelMeta(name, columns, identity)]), Ok(None))
    case Other(_) => (a, Ok(None))
    case _ =>
      match ChangeOf(a.relations, m)
      case Ok(change) => (a.(pending := a.pending + [change]), Ok(None))
      case Err(e) => (a, Err(e))
  }

  class TxAssembler {
    var relations: map<nat, RelMeta>
    var pending: seq<RowChange>
    var pendingTs: int

    constructor ()
      ensures View() == Asm(map[], [], 0)
    {
      relations, pending, pendingTs := map[], [], 0;
    }

    ghost function View(): Asm
      reads this
    {
      Asm(relations, pending, pendingTs)
    }

    /** Forgets everything buffered; a new connection starts from Begin and sends its relations again. */
    method Reset()
      modifies this
      ensures View() == Asm(map[], [], old(pendingTs))
    {
      pending := [];
      relations := map[];
    }

    method OnMsg(m: Msg) returns (r: Result<Option<CommittedTx>, StreamError>)
      modifies this
      ensures (View(), r) == Step(old(View()), m)
    {
      match m {
        case Begin(_, ts, _) =>
          pending := [];
          pendingTs := ts;
        case Relation(relId, _, name, identity, columns) =>
          relations := relations[relId := RelMeta(name, columns, identity)];
        case Insert(relId, after) =>
          var named :- Named(relations, relId, after);
          pending := pending + [RowInsert(named.0, named.1)];
        case Delete(relId, before) =>
          var named :- Named(relations, relId, before);
          pending := pending + [RowDelete(named.0, named.1)];
        case Update(relId, oldTuple, after) =>
          if relId in relations && relations[relId].identity == NOTHING {
            return Err(NoIdentity(relations[relId].name));
          }
          var oldRow :- NamedOld(relations, relId, oldTuple);
          var named :- Named(relations, relId, after);
          pending := pending + [RowUpdate(named.0, oldRow, named.1)];
        case Commit(endLsn, ts) =>
          r := Ok(Some(CommittedTx(pending, ts, endLsn)));
          pending := [];
          return;
        case Other(_) =>
      }
      r := Ok(None);
    }
  }

  /** The transactions handed out while a stretch of messages is fed, unless one of them is refused. */
  function Run(a: Asm, ms: seq<Msg>): (Asm, Result<seq<CommittedTx>, StreamError>)
    decreases |ms|
  {
    if ms == [] then (a, Ok([]))
    else
      match Run(a, ms[..|ms| - 1])
      case (a1, Err(e)) => (a1, Err(e))
      case (a1, Ok(out)) =>
        match Step(a1, ms[|ms| - 1])
        case (a2, Err(e)) => (a2, Err(e))
        case (a2, Ok(None)) => (a2, Ok(out))
        case (a2, Ok(Some(tx))) => (a2, Ok(out + [tx]))
  }

  // ------------------------------------------------------------------ what one message does

  /** Every value under the name of its column. */
  ghost predicate Fills(named: NamedTuple, columns: seq<Text>, values: Tuple) {
    |named| == |columns| == |values| && forall i :: 0 <= i < |named| ==> named[i] == (columns[i], values[i])
  }

  /** The row change is the message, under the names of the relation. */
  ghost predicate Says(change: RowChange, meta: RelMeta, m: Msg) {
    change.rel == meta.name &&
    match m
    case Insert(_, after) => change.RowInsert? && Fills(change.cols, meta.columns, after)
    case Delete(_, before) => change.RowDelete? && Fills(change.before, meta.columns, before)
    case Update(_, oldTuple, after) =>
      && change.RowUpdate? && Fills(change.after, meta.columns, after)
      && (change.oldRow.Some? <==> oldTuple.Some?)
      && (oldTuple.Some? ==> Fills(change.oldRow.value, meta.columns, oldTuple.value))
    case _ => false
  }

  /** The tuple of the message that is looked at first and does not have this width. */
  ghost predicate FirstWrong(m: Msg, width: nat, t: Tuple) {
    && |t| != width
    && match m
       case Insert(_, after) => t == after
       case Delete(_, before) => t == before
       case Update(_, oldTuple, after) =>
         if oldTuple.Some? && |oldTuple.value| != width then t == oldTuple.value else t == after
       case _ => false
  }

  /** A change message is buffered as a row change, or refused: for a relation not announced, for an update of a
      relation with REPLICA IDENTITY NOTHING, and for a tuple of the wrong width, the old one first. A refused message
      changes nothing. */
  lemma {:induction false} ChangeStep(a: Asm, m: Msg)
    requires m.Insert? || m.Delete? || m.Update?
    ensures
      var (a', r) := Step(a, m);
      if m.relId !in a.relations then a' == a && r == Err(ChangeBeforeRelation(m.relId))
      else
        var meta := a.relations[m.relId];
        if m.Update? && meta.identity == 'n' as int then a' == a && r == Err(NoIdentity(meta.name))
        else if t :| FirstWrong(m, |meta.columns|, t) then
          a' == a && r == Err(WrongWidth(meta.name, |t|, |meta.columns|))
        else
          && r == Ok(None) && a' == a.(pending := a'.pending) && |a'.pending| == |a.pending| + 1
          && a.pending <= a'.pending && Says(a'.pending[|a.pending|], meta, m)
  {
    if m.relId in a.relations {
      var width := |a.relations[m.relId].columns|;
      match m
      case Insert(_, after) => assert |after| != width ==> FirstWrong(m, width, after);
      case Delete(_, before) => assert |before| != width ==> FirstWrong(m, width, before);
      case Update(_, oldTuple, after) =>
        assert |after| != width && (oldTuple.None? || |oldTuple.value| == width) ==> FirstWrong(m, width, after);
        assert oldTuple.Some? && |oldTuple.value| != width ==> FirstWrong(m, width, oldTuple.value);
    }
  }

  /** The other messages: Begin empties the buffer and keeps its time, Commit hands the buffer out under its own time and
      position, a relation replaces what was known under its number, and the rest does nothing. */
  lemma {:induction false} ControlStep(a: Asm, m: Msg)
    requires !m.Insert? && !m.Delete? && !m.Update?
    ensures
      var (a', r) := Step(a, m);
      && r.Ok? && (r.value.Some? <==> m.Commit?)
      && (m.Commit? ==>
            && r.value.value.changes == a.pending && r.value.value.commitTs == m.commitTs
            && r.value.value.endLsn == m.endLsn)
      && a'.pending == (if m.Begin? || m.Commit? then [] else a.pending)
      && a'.pendingTs == (if m.Begin? then m.commitTs else a.pendingTs)
      && (!m.Relation? ==> a'.relations == a.relations)
      && (m.Relation? ==>
            && a'.relations.Keys == a.relations.Keys + {m.relId}
            && a'.relations[m.relId] == RelMeta(m.name, m.columns, m.identity)
            && forall id :: id in a.relations && id != m.relId ==> a'.relations[id] == a.relations[id])
  {
  }

  // ------------------------------------------------------------------ what a server sends

  datatype Op = InsertOp(after: Tuple) | DeleteOp(before: Tuple) | UpdateOp(oldTuple: Option<Tuple>, after: Tuple)

  /** A change as the server knows it: to a row, with the relation as it was at that moment, or a truncation of some
      tables at once. */
  datatype ServerChange = RowOp(relId: nat, meta: RelMeta, op: Op) | Truncation(tables: seq<Text>)

  /** The tag of the Truncate message, which decodes as any other unknown one. */
  const TRUNCATE: byte := 'T' as int

  datatype ServerTx = ServerTx(changes: seq<ServerChange>, commitTs: int, endLsn: nat)

  ghost predicate Sendable(c: ServerChange) {
    c.RowOp? ==>
    match c.op
    case InsertOp(after) => |after| == |c.meta.columns|
    case DeleteOp(before) => |before| == |c.meta.columns|
    case UpdateOp(oldTuple, after) =>
      |after| == |c.meta.columns| && c.meta.identity != 'n' as int
      && (oldTuple.Some? ==> |oldTuple.value| == |c.meta.columns|)
  }

  /** The change under the relation's name, every datum under its column's name. */
  function Meant(c: ServerChange): RowChange
    requires Sendable(c) && c.RowOp?
  {
    match c.op
    case InsertOp(after) => RowInsert(c.meta.name, Zip(c.meta.columns, after))
    case DeleteOp(before) => RowDelete(c.meta.name, Zip(c.meta.columns, before))
    case UpdateOp(oldTuple, after) =>
      RowUpdate(c.meta.name, if oldTuple.Some? then Some(Zip(c.meta.columns, oldTuple.value)) else None,
                Zip(c.meta.columns, after))
  }

  ghost predicate AllSendable(cs: seq<ServerChange>) {
    forall i :: 0 <= i < |cs| ==> Sendable(cs[i])
  }

  /** The changes that reach the transaction: truncations do not. */
  function MeantAll(cs: seq<ServerChange>): seq<RowChange>
    requires AllSendable(cs)
  {
    if cs == [] then []
    else
      var most, last := MeantAll(cs[..|cs| - 1]), cs[|cs| - 1];
      if last.RowOp? then most + [Meant(last)] else most
  }

  function MeantTx(tx: ServerTx): CommittedTx
    requires AllSendable(tx.changes)
  {
    CommittedTx(MeantAll(tx.changes), tx.commitTs, tx.endLsn)
  }

  /** The message that carries a change. */
  function ChangeMsg(c: ServerChange): Msg {
    match c
    case Truncation(_) => Other(TRUNCATE)
    case RowOp(relId, _, InsertOp(after)) => Insert(relId, after)
    case RowOp(relId, _, DeleteOp(before)) => Delete(relId, before)
    case RowOp(relId, _, UpdateOp(oldTuple, after)) => Update(relId, oldTuple, after)
  }

  /** A piece of the body of a transaction: an announced relation, a message of another kind, or a change. */
  datatype Piece = Announce(relId: nat, namespace: Text, meta: RelMeta) | Noise(tag: byte) | Change(c: ServerChange)

  function PieceMsg(p: Piece): Msg {
    match p
    case Announce(relId, namespace, meta) => Relation(relId, namespace, meta.name, meta.identity, meta.columns)
    case Noise(tag) => Other(tag)
    case Change(c) => ChangeMsg(c)
  }

  /** The relations announced on the connection once the first `n` pieces are sent. */
  function Known(known: map<nat, RelMeta>, body: seq<Piece>, n: nat): map<nat, RelMeta>
    requires n <= |body|
  {
    if n == 0 then known
    else
      var k := Known(known, body, n - 1);
      if body[n - 1].Announce? then k[body[n - 1].relId := body[n - 1].meta] else k
  }

  /** The changes among the first `n` pieces. */
  function Changes(body: seq<Piece>, n: nat): seq<ServerChange>
    requires n <= |body|
  {
    if n == 0 then []
    else if body[n - 1].Change? then Changes(body, n - 1) + [body[n - 1].c]
    else Changes(body, n - 1)
  }

  /** A change comes after its relation was announced on this connection as it is now, and no message beside the
      changes is a truncation. */
  ghost predicate PieceOk(known: map<nat, RelMeta>, p: Piece) {
    match p
    case Announce(_, _, _) => true
    case Noise(tag) => tag != TRUNCATE
    case Change(c) => Sendable(c) && (c.RowOp? ==> c.relId in known && known[c.relId] == c.meta)
  }

  ghost predicate BodyOk(known: map<nat, RelMeta>, body: seq<Piece>) {
    forall i :: 0 <= i < |body| ==> PieceOk(Known(known, body, i), body[i])
  }

  /** How one transaction is sent: between Begin and Commit its changes in order. */
  datatype Chunk = Chunk(finalLsn: nat, beginTs: int, xid: nat, body: seq<Piece>)

  ghost predicate Sends(known: map<nat, RelMeta>, chunk: Chunk, tx: ServerTx) {
    && Changes(chunk.body, |chunk.body|) == tx.changes && AllSendable(tx.changes)
    && BodyOk(known, chunk.body)
  }

  /** One way to send a transaction: every change right after its relation. */
  function BodyFor(cs: seq<ServerChange>): seq<Piece> {
    if cs == [] then []
    else
      BodyFor(cs[..|cs| - 1]) + PiecesFor(cs[|cs| - 1])
  }

  function PiecesFor(c: ServerChange): seq<Piece> {
    if c.RowOp? then [Announce(c.relId, [], c.meta)] + [Change(c)] else [Change(c)]
  }

  function ChunkFor(tx: ServerTx): Chunk {
    Chunk(0, 0, 0, BodyFor(tx.changes))
  }

  lemma {:induction false} Appended(known: map<nat, RelMeta>, a: seq<Piece>, b: seq<Piece>, n: nat)
    requires n <= |a|
    ensures Known(known, a + b, n) == Known(known, a, n) && Changes(a + b, n) == Changes(a, n)
  {
    if n > 0 {
      Appended(known, a, b, n - 1);
    }
  }

  /** On every connection. */
  lemma {:induction false} BodySends(known: map<nat, RelMeta>, cs: seq<ServerChange>)
    requires AllSendable(cs)
    ensures
      var body := BodyFor(cs);
      Changes(body, |body|) == cs && BodyOk(known, body)
  {
    hide Sendable, Known, Changes, BodyOk, PiecesFor;
    if cs == [] {
      NothingYet(known);
    } else {
      BodySends(known, cs[..|cs| - 1]);
      MorePieces(known, BodyFor(cs[..|cs| - 1]), cs[|cs| - 1]);
      assert cs == cs[..|cs| - 1] + [cs[|cs| - 1]];
    }
  }

  lemma {:induction false} NothingYet(known: map<nat, RelMeta>)
    ensures Changes([], 0) == [] && BodyOk(known, [])
  {
  }

  lemma {:induction false} MorePieces(known: map<nat, RelMeta>, a: seq<Piece>, c: ServerChange)
    requires BodyOk(known, a) && Sendable(c)
    ensures
      var body := a + PiecesFor(c);
      Changes(body, |body|) == Changes(a, |a|) + [c] && BodyOk(known, body)
  {
    hide Sendable, Known, Changes, BodyOk;
    if c.RowOp? {
      var announce := Announce(c.relId, [], c.meta);
      OneMorePiece(known, a, announce);
      OneMorePiece(known, a + [announce], Change(c));
      assert a + PiecesFor(c) == (a + [announce]) + [Change(c)];
      assert Changes(a, |a|) + [] == Changes(a, |a|);
    } else {
      OneMorePiece(known, a, Change(c));
    }
  }

  lemma {:induction false} OneMorePiece(known: map<nat, RelMeta>, a: seq<Piece>, p: Piece)
    ensures Changes(a + [p], |a| + 1) == Changes(a, |a|) + (if p.Change? then [p.c] else [])
    ensures Known(known, a + [p], |a| + 1)
            == if p.Announce? then Known(known, a, |a|)[p.relId := p.meta] else Known(known, a, |a|)
    ensures BodyOk(known, a) && PieceOk(Known(known, a, |a|), p) ==> BodyOk(known, a + [p])
  {
    hide PieceOk;
    var body := a + [p];
    Appended(known, a, [p], |a|);
    if BodyOk(known, a) && PieceOk(Known(known, a, |a|), p) {
      forall i | 0 <= i < |body| ensures PieceOk(Known(known, body, i), body[i]) {
        if i < |a| {
          Appended(known, a, [p], i);
        }
      }
    }
  }

  /** Every transaction can be sent on every connection. */
  lemma {:induction false} ChunkSends(known: map<nat, RelMeta>, tx: ServerTx)
    requires AllSendable(tx.changes)
    ensures Sends(known, ChunkFor(tx), tx)
  {
    BodySends(known, tx.changes);
  }

  function KnownAt(chunks: seq<Chunk>, i: nat): map<nat, RelMeta>
    requires i <= |chunks|
  {
    if i == 0 then map[] else Known(KnownAt(chunks, i - 1), chunks[i - 1].body, |chunks[i - 1].body|)
  }

  /** What one connection carries, from its start: one chunk per transaction. */
  ghost predicate Stream(chunks: seq<Chunk>, txs: seq<ServerTx>) {
    |chunks| == |txs| && forall i :: 0 <= i < |chunks| ==> Sends(KnownAt(chunks, i), chunks[i], txs[i])
  }

  /** The messages of a chunk: Begin, the body, Commit. */
  function ChunkMsg(chunk: Chunk, tx: ServerTx, j: nat): Msg
    requires j <= |chunk.body| + 1
  {
    if j == 0 then Begin(chunk.finalLsn, chunk.beginTs, chunk.xid)
    else if j <= |chunk.body| then PieceMsg(chunk.body[j - 1])
    else Commit(tx.endLsn, tx.commitTs)
  }

  // ------------------------------------------------------------------ the assembler on a server's stream

  /** The assembler after the first `j` messages of a chunk. */
  ghost predicate Midway(a: Asm, known: map<nat, RelMeta>, chunk: Chunk, j: nat)
    requires j <= |chunk.body| + 1 && AllSendable(Changes(chunk.body, |chunk.body|))
  {
    if j == 0 then a.relations == known
    else
      SomeSendable(chunk.body, j - 1);
      a.relations == Known(known, chunk.body, j - 1) && a.pending == MeantAll(Changes(chunk.body, j - 1))
  }

  lemma {:induction false} SomeSendable(body: seq<Piece>, n: nat)
    requires n <= |body| && AllSendable(Changes(body, |body|))
    ensures AllSendable(Changes(body, n)) && Changes(body, n) <= Changes(body, |body|)
    decreases |body| - n
  {
    if n < |body| {
      SomeSendable(body, n + 1);
      forall i | 0 <= i < |Changes(body, n)| ensures Sendable(Changes(body, n)[i]) {
        assert Changes(body, n)[i] == Changes(body, n + 1)[i];
      }
    }
  }

  /** One message of a chunk: nothing is handed out before Commit, and Commit hands out the transaction. */
  lemma {:induction false} StepOfChunk(a: Asm, known: map<nat, RelMeta>, chunk: Chunk, tx: ServerTx, j: nat)
    requires Sends(known, chunk, tx) && j <= |chunk.body| + 1 && Midway(a, known, chunk, j)
    ensures
      var (a', r) := Step(a, ChunkMsg(chunk, tx, j));
      if j <= |chunk.body| then r == Ok(None) && Midway(a', known, chunk, j + 1)
      else r == Ok(Some(MeantTx(tx))) && a'.relations == Known(known, chunk.body, |chunk.body|)
  {
    hide Known, Changes, MeantAll, Meant, AllSendable, Sendable, BodyOk, PieceOk, PieceMsg;
    StartOf(known, chunk.body);
    if 0 < j <= |chunk.body| {
      SomeSendable(chunk.body, j - 1);
      SomeSendable(chunk.body, j);
      NextPiece(known, chunk.body, j);
      PieceStep(a, Known(known, chunk.body, j - 1), chunk.body[j - 1]);
    }
  }

  lemma {:induction false} StartOf(known: map<nat, RelMeta>, body: seq<Piece>)
    ensures Known(known, body, 0) == known && Changes(body, 0) == [] && AllSendable([]) && MeantAll([]) == []
  {
  }

  lemma {:induction false} PieceStep(a: Asm, known: map<nat, RelMeta>, p: Piece)
    requires a.relations == known && PieceOk(known, p)
    ensures
      Step(a, PieceMsg(p)) ==
        (a.(relations := if p.Announce? then known[p.relId := p.meta] else known,
            pending := a.pending + (if p.Change? && p.c.RowOp? then [Meant(p.c)] else [])), Ok(None))
  {
    assert a.pending + [] == a.pending;
  }

  /** What one more piece of the body adds. */
  lemma {:induction false} NextPiece(known: map<nat, RelMeta>, body: seq<Piece>, j: nat)
    requires 0 < j <= |body| && BodyOk(known, body)
    requires AllSendable(Changes(body, j)) && AllSendable(Changes(body, j - 1))
    ensures PieceOk(Known(known, body, j - 1), body[j - 1])
    ensures
      var p, k := body[j - 1], Known(known, body, j - 1);
      && Known(known, body, j) == (if p.Announce? then k[p.relId := p.meta] else k)
      && MeantAll(Changes(body, j)) == MeantAll(Changes(body, j - 1))
                                       + (if p.Change? && p.c.RowOp? then [Meant(p.c)] else [])
  {
    hide AllSendable, Sendable;
    var p := body[j - 1];
    assert PieceOk(Known(known, body, j - 1), p);
    if p.Change? {
      assert Changes(body, j)[..|Changes(body, j)| - 1] == Changes(body, j - 1);
    }
  }

  /** The messages of the first `i` chunks and `j` messages of the next. */
  function Sent(chunks: seq<Chunk>, txs: seq<ServerTx>, i: nat, j: nat): seq<Msg>
    requires |chunks| == |txs| && i <= |chunks| && (if i < |chunks| then j <= |chunks[i].body| + 1 else j == 0)
    decreases i, j
  {
    if j > 0 then Sent(chunks, txs, i, j - 1) + [ChunkMsg(chunks[i], txs[i], j - 1)]
    else if i > 0 then
      var last := |chunks[i - 1].body| + 1;
      Sent(chunks, txs, i - 1, last) + [ChunkMsg(chunks[i - 1], txs[i - 1], last)]
    else []
  }

  ghost predicate TxsSendable(txs: seq<ServerTx>) {
    forall i :: 0 <= i < |txs| ==> AllSendable(txs[i].changes)
  }

  /** The first `i` transactions. */
  function MeantTxs(txs: seq<ServerTx>, i: nat): (r: seq<CommittedTx>)
    requires TxsSendable(txs) && i <= |txs|
    ensures |r| == i && forall k :: 0 <= k < i ==> r[k] == MeantTx(txs[k])
  {
    seq(i, k requires 0 <= k < i => MeantTx(txs[k]))
  }

  ghost predicate CutOk(chunks: seq<Chunk>, i: nat, j: nat) {
    i <= |chunks| && if i < |chunks| then j <= |chunks[i].body| + 1 else j == 0
  }

  /** After these messages exactly the transactions of the first `i` chunks are out, and the assembler is in
      the middle of the next. */
  ghost predicate HandedOut(a: Asm, chunks: seq<Chunk>, txs: seq<ServerTx>, i: nat, j: nat)
    requires TxsSendable(txs) && Stream(chunks, txs) && CutOk(chunks, i, j)
  {
    var (a', out) := Run(a, Sent(chunks, txs, i, j));
    && out == Ok(MeantTxs(txs, i))
    && if i < |chunks| then Midway(a', KnownAt(chunks, i), chunks[i], j) else a'.relations == KnownAt(chunks, i)
  }

  /** Wherever the stream of a connection is cut, the assembler has handed out exactly the transactions whose
      Commit was delivered, whole and in order, and has refused nothing. */
  lemma {:induction false} CutAnywhere(a: Asm, chunks: seq<Chunk>, txs: seq<ServerTx>, i: nat, j: nat)
    requires a.relations == map[] && TxsSendable(txs) && Stream(chunks, txs) && CutOk(chunks, i, j)
    ensures HandedOut(a, chunks, txs, i, j)
    decreases i, j
  {
    hide HandedOut, Stream, TxsSendable;
    if j > 0 {
      CutAnywhere(a, chunks, txs, i, j - 1);
      MessageMore(a, chunks, txs, i, j);
    } else if i > 0 {
      CutAnywhere(a, chunks, txs, i - 1, |chunks[i - 1].body| + 1);
      ChunkMore(a, chunks, txs, i);
    } else {
      NothingSent(a, chunks, txs);
    }
  }

  lemma {:induction false} NothingSent(a: Asm, chunks: seq<Chunk>, txs: seq<ServerTx>)
    requires a.relations == map[] && TxsSendable(txs) && Stream(chunks, txs) && CutOk(chunks, 0, 0)
    ensures HandedOut(a, chunks, txs, 0, 0)
  {
    if chunks != [] {
      MidwayStarts(a, chunks, txs, 0);
    }
  }

  lemma {:induction false} MeantMore(txs: seq<ServerTx>, i: nat)
    requires TxsSendable(txs) && 0 < i <= |txs|
    ensures AllSendable(txs[i - 1].changes) && MeantTxs(txs, i) == MeantTxs(txs, i - 1) + [MeantTx(txs[i - 1])]
  {
  }

  lemma {:induction false} MessageMore(a: Asm, chunks: seq<Chunk>, txs: seq<ServerTx>, i: nat, j: nat)
    requires TxsSendable(txs) && Stream(chunks, txs) && CutOk(chunks, i, j) && j > 0
    requires HandedOut(a, chunks, txs, i, j - 1)
    ensures HandedOut(a, chunks, txs, i, j)
  {
    hide Step, Midway, Sends, ChunkMsg, MeantTx, Run, Known, KnownAt, TxsSendable, AllSendable, Changes;
    var ms := Sent(chunks, txs, i, j - 1);
    StepOfChunk(Run(a, ms).0, KnownAt(chunks, i), chunks[i], txs[i], j - 1);
    RunOneMore(a, ms, ChunkMsg(chunks[i], txs[i], j - 1));
  }

  /** A cut stream, and what it has handed out. */
  ghost predicate Reached(a: Asm, chunks: seq<Chunk>, txs: seq<ServerTx>, i: nat, j: nat) {
    TxsSendable(txs) && Stream(chunks, txs) && CutOk(chunks, i, j) && HandedOut(a, chunks, txs, i, j)
  }

  lemma {:induction false} ChunkMore(a: Asm, chunks: seq<Chunk>, txs: seq<ServerTx>, i: nat)
    requires 0 < i <= |chunks| && Reached(a, chunks, txs, i - 1, |chunks[i - 1].body| + 1)
    ensures Reached(a, chunks, txs, i, 0)
  {
    hide Step, Midway, Sends, ChunkMsg, MeantTx, MeantTxs, Run, Known, TxsSendable, AllSendable, Changes;
    var last := |chunks[i - 1].body| + 1;
    var ms := Sent(chunks, txs, i - 1, last);
    StepOfChunk(Run(a, ms).0, KnownAt(chunks, i - 1), chunks[i - 1], txs[i - 1], last);
    RunOneMore(a, ms, ChunkMsg(chunks[i - 1], txs[i - 1], last));
    MeantMore(txs, i);
    if i < |chunks| {
      MidwayStarts(Run(a, Sent(chunks, txs, i, 0)).0, chunks, txs, i);
    }
  }

  lemma {:induction false} RunOneMore(a: Asm, ms: seq<Msg>, m: Msg)
    requires Run(a, ms).1.Ok?
    ensures
      var (a1, out) := Run(a, ms);
      var (a2, r) := Step(a1, m);
      Run(a, ms + [m]) ==
        (a2, if r.Err? then Err(r.error) else if r.value.None? then out else Ok(out.value + [r.value.value]))
  {
    assert (ms + [m])[..|ms|] == ms;
  }

  lemma {:induction false} MidwayStarts(a: Asm, chunks: seq<Chunk>, txs: seq<ServerTx>, i: nat)
    requires Stream(chunks, txs) && i < |chunks| && a.relations == KnownAt(chunks, i)
    ensures AllSendable(Changes(chunks[i].body, |chunks[i].body|)) && Midway(a, KnownAt(chunks, i), chunks[i], 0)
  {
  }

  /** One life of a connection: it starts at a transaction of the log, and dies after some messages. */
  datatype Life = Life(from: nat, chunks: seq<Chunk>, i: nat, j: nat)

  ghost predicate LifeOk(log: seq<ServerTx>, l: Life) {
    && l.from + |l.chunks| <= |log| && CutOk(l.chunks, l.i, l.j)
    && Stream(l.chunks, Served(log, l))
  }

  ghost predicate LivesOk(log: seq<ServerTx>, lives: seq<Life>) {
    forall k :: 0 <= k < |lives| ==> LifeOk(log, lives[k])
  }

  /** The transactions a life is about. */
  function Served(log: seq<ServerTx>, l: Life): (txs: seq<ServerTx>)
    requires l.from + |l.chunks| <= |log|
    ensures |txs| == |l.chunks|
    ensures TxsSendable(log) ==> TxsSendable(txs)
  {
    log[l.from..l.from + |l.chunks|]
  }

  /** The assembler over several lives, with a reset before each. */
  function RunLives(a: Asm, log: seq<ServerTx>, lives: seq<Life>): (Asm, Result<seq<CommittedTx>, StreamError>)
    requires LivesOk(log, lives)
    decreases |lives|
  {
    if lives == [] then (a, Ok([]))
    else
      var l := lives[|lives| - 1];
      assert LifeOk(log, l);
      match RunLives(a, log, lives[..|lives| - 1])
      case (a1, Err(e)) => (a1, Err(e))
      case (a1, Ok(out)) =>
        var ms := Sent(l.chunks, Served(log, l), l.i, l.j);
        match Run(a1.(relations := map[], pending := []), ms)
        case (a2, Err(e)) => (a2, Err(e))
        case (a2, Ok(more)) => (a2, Ok(out + more))
  }

  /** What several lives deliver: from each, the whole transactions it finished. */
  function Finished(log: seq<ServerTx>, lives: seq<Life>): seq<CommittedTx>
    requires TxsSendable(log) && LivesOk(log, lives)
    decreases |lives|
  {
    if lives == [] then []
    else
      var l := lives[|lives| - 1];
      assert LifeOk(log, l);
      Finished(log, lives[..|lives| - 1]) + MeantTxs(Served(log, l), l.i)
  }

  /** Over any number of connections, each cut anywhere, only whole transactions of the log come out. */
  lemma {:induction false} RestartAnywhere(a: Asm, log: seq<ServerTx>, lives: seq<Life>)
    requires TxsSendable(log) && LivesOk(log, lives)
    ensures RunLives(a, log, lives).1 == Ok(Finished(log, lives))
    decreases |lives|
  {
    if lives != [] {
      var l := lives[|lives| - 1];
      assert LifeOk(log, l);
      RestartAnywhere(a, log, lives[..|lives| - 1]);
      var a1 := RunLives(a, log, lives[..|lives| - 1]).0;
      CutAnywhere(a1.(relations := map[], pending := []), l.chunks, Served(log, l), l.i, l.j);
    }
  }

  // ------------------------------------------------------------------ the source: payloads in, status out

  datatype Status = Status(received: nat, flushed: nat)

  datatype SourceState = SourceState(asm: Asm, lastRecv: nat, lastAck: nat, incoming: seq<bytes>, sent: seq<Status>)

  /** Reads payloads until one completes a transaction, or none is left. */
  function Poll(s: SourceState): (SourceState, Result<Option<CommittedTx>, StreamError>)
    decreases |s.incoming|
  {
    if s.incoming == [] then (s, Ok(None))
    else
      var s1 := s.(incoming := s.incoming[1..]);
      match DecodeWal(s.incoming[0])
      case Err(e) => (s1, Err(Undecodable(e)))
      case Ok(Keepalive(walEnd, reply)) =>
        var recv := Max(s.lastRecv, walEnd);
        Poll(s1.(lastRecv := recv, sent := if reply then s.sent + [Status(recv, s.lastAck)] else s.sent))
      case Ok(XLogData(_, walEnd, msg)) =>
        var s2 := s1.(lastRecv := Max(s.lastRecv, walEnd), asm := Step(s.asm, msg).0);
        match Step(s.asm, msg).1
        case Err(e) => (s2, Err(e))
        case Ok(None) => Poll(s2)
        case Ok(Some(tx)) => (s2, Ok(Some(tx)))
  }

  class PgOutputSource {
    const asm: TxAssembler
    var lastRecv: nat
    var lastAck: nat
    /** What the connection still has to read, and the status messages written to it. */
    var incoming: seq<bytes>
    var sent: seq<Status>

    constructor (incoming: seq<bytes>)
      ensures View() == SourceState(Asm(map[], [], 0), 0, 0, incoming, []) && fresh(asm)
    {
      asm := new TxAssembler();
      lastRecv, lastAck, sent := 0, 0, [];
      this.incoming := incoming;
    }

    ghost function View(): SourceState
      reads this, asm
    {
      SourceState(asm.View(), lastRecv, lastAck, incoming, sent)
    }

    method NextTx() returns (r: Result<Option<CommittedTx>, StreamError>)
      modifies this, asm
      ensures (View(), r) == Poll(old(View()))
    {
      while incoming != []
        invariant Poll(View()) == Poll(old(View()))
        decreases |incoming|
      {
        var payload := incoming[0];
        incoming := incoming[1..];
        var wal := ReadWal(payload);
        if wal.Err? {
          return Err(Undecodable(wal.error));
        }
        match wal.value {
          case Keepalive(walEnd, reply) =>
            lastRecv := Max(lastRecv, walEnd);
            if reply {
              sent := sent + [Status(lastRecv, lastAck)];
            }
          case XLogData(_, walEnd, msg) =>
            lastRecv := Max(lastRecv, walEnd);
            var tx :- asm.OnMsg(msg);
            if tx.Some? {
              return Ok(tx);
            }
        }
      }
      r := Ok(None);
    }

    /** Reports everything up to `lsn` as applied. */
    method Ack(lsn: nat)
      modifies this
      ensures View() == old(View()).(lastAck := Max(old(lastAck), lsn), sent := sent)
      ensures sent == old(sent) + [Status(Max(lastRecv, lastAck), lastAck)]
    {
      lastAck := Max(lastAck, lsn);
      var recv := Max(lastRecv, lastAck);
      sent := sent + [Status(recv, lastAck)];
    }

    /** A new connection, which sends again from the slot's position; what was acknowledged is remembered. */
    method Redial(redelivered: seq<bytes>)
      modifies this, asm
      ensures View() == old(View()).(asm := Asm(map[], [], old(asm.pendingTs)), incoming := redelivered)
    {
      incoming := redelivered;
      asm.Reset();
    }
  }

  // ------------------------------------------------------------------ from bytes to transactions

  /** A payload of the stream, as a server writes it. */
  datatype Payload =
    | Data(walStart: nat, walEnd: nat, sendTs: int, wire: Wire)
    | Alive(walEnd: nat, sendTs: int, reply: byte)

  ghost predicate PayloadFits(p: Payload) {
    match p
    case Data(walStart, walEnd, sendTs, wire) =>
      walStart < Pow256(8) && walEnd < Pow256(8) && FitsSigned(sendTs, 8) && Fits(wire)
    case Alive(walEnd, sendTs, _) => walEnd < Pow256(8) && FitsSigned(sendTs, 8)
  }

  ghost function PayloadBytes(p: Payload): bytes
    requires PayloadFits(p)
  {
    match p
    case Data(walStart, walEnd, sendTs, wire) => EncodeXLog(walStart, walEnd, sendTs, wire)
    case Alive(walEnd, sendTs, reply) => EncodeKeepalive(walEnd, sendTs, reply)
  }

  /** The bytes that wait are those of the payloads. */
  ghost predicate Carries(incoming: seq<bytes>, ps: seq<Payload>) {
    |incoming| == |ps| && forall i :: 0 <= i < |ps| ==> PayloadFits(ps[i]) && incoming[i] == PayloadBytes(ps[i])
  }

  /** The messages among the payloads, as the server wrote them. */
  function Written(ps: seq<Payload>): seq<Msg>
    decreases |ps|
  {
    if ps == [] then []
    else (if ps[0].Data? then [Contents(ps[0].wire)] else []) + Written(ps[1..])
  }

  /** And as they arrive. */
  function Fed(ps: seq<Payload>): seq<Msg>
    decreases |ps|
  {
    if ps == [] then []
    else (if ps[0].Data? then [Meaning(ps[0].wire)] else []) + Fed(ps[1..])
  }

  /** Polling until nothing is left. */
  function Pump(s: SourceState): (SourceState, Result<seq<CommittedTx>, StreamError>)
    decreases |s.incoming|
  {
    PollReads(s);
    match Poll(s)
    case (s1, Err(e)) => (s1, Err(e))
    case (s1, Ok(None)) => (s1, Ok([]))
    case (s1, Ok(Some(tx))) =>
      match Pump(s1)
      case (s2, Err(e)) => (s2, Err(e))
      case (s2, Ok(out)) => (s2, Ok([tx] + out))
  }

  lemma {:induction false} PollReads(s: SourceState)
    ensures |Poll(s).0.incoming| <= |s.incoming|
    ensures Poll(s).1.Ok? && Poll(s).1.value.Some? ==> |Poll(s).0.incoming| < |s.incoming|
    decreases |s.incoming|
  {
    if s.incoming != [] {
      var s1 := s.(incoming := s.incoming[1..]);
      match DecodeWal(s.incoming[0])
      case Err(e) =>
      case Ok(Keepalive(walEnd, reply)) =>
        var recv := Max(s.lastRecv, walEnd);
        PollReads(s1.(lastRecv := recv, sent := if reply then s.sent + [Status(recv, s.lastAck)] else s.sent));
      case Ok(XLogData(_, walEnd, msg)) =>
        PollReads(s1.(lastRecv := Max(s.lastRecv, walEnd), asm := Step(s.asm, msg).0));
    }
  }

  /** The first message first. */
  lemma {:induction false} RunFront(a: Asm, m: Msg, ms: seq<Msg>)
    ensures Run(a, [m] + ms) ==
      match Step(a, m)
      case (a1, Err(e)) => (a1, Err(e))
      case (a1, Ok(first)) =>
        match Run(a1, ms)
        case (a2, Err(e)) => (a2, Err(e))
        case (a2, Ok(out)) => (a2, Ok(if first.Some? then [first.value] + out else out))
    decreases |ms|
  {
    hide Step;
    var all := [m] + ms;
    if ms == [] {
      assert all == [m] && all[..|all| - 1] == [];
      var (a1, first) := Step(a, m);
      if first.Ok? && first.value.Some? {
        assert [] + [first.value.value] == [first.value.value] + [];
        assert Run(a1, ms) == (a1, Ok([]));
      }
    } else {
      var most := ms[..|ms| - 1];
      assert all[..|all| - 1] == [m] + most && all[|all| - 1] == ms[|ms| - 1];
      RunFront(a, m, most);
      var (a1, first) := Step(a, m);
      if first.Ok? && first.value.Some? && Run(a1, most).1.Ok? {
        var x, out := first.value.value, Run(a1, most).1.value;
        assert forall tx: CommittedTx :: ([x] + out) + [tx] == [x] + (out + [tx]);
      }
    }
  }

  /** A keepalive is passed over: it moves the received position and is answered when it asks for it. */
  lemma {:induction false} AlivePasses(s: SourceState, walEnd: nat, sendTs: int, reply: byte)
    requires walEnd < Pow256(8) && FitsSigned(sendTs, 8)
    requires s.incoming != [] && s.incoming[0] == EncodeKeepalive(walEnd, sendTs, reply)
    ensures
      var recv := if walEnd > s.lastRecv then walEnd else s.lastRecv;
      var s2 := s.(incoming := s.incoming[1..], lastRecv := recv,
                   sent := if reply != 0 then s.sent + [Status(recv, s.lastAck)] else s.sent);
      Poll(s) == Poll(s2) && Pump(s) == Pump(s2)
  {
    hide Step, Decode, EncodeKeepalive;
    DecodeKeepalive(walEnd, sendTs, reply);
  }

  /** What the source hands out is what the assembler makes of the messages; keepalives between them change
      nothing. */
  lemma {:induction false} PumpIsRun(s: SourceState, ps: seq<Payload>)
    requires Carries(s.incoming, ps) && Run(s.asm, Fed(ps)).1.Ok?
    ensures Pump(s).1 == Run(s.asm, Fed(ps)).1 && Pump(s).0.asm == Run(s.asm, Fed(ps)).0
    decreases |ps|
  {
    hide Step, Decode, EncodeXLog, EncodeKeepalive;
    if ps != [] {
      assert PayloadFits(ps[0]) && s.incoming[0] == PayloadBytes(ps[0]);
      var s1 := s.(incoming := s.incoming[1..]);
      match ps[0]
      case Alive(walEnd, sendTs, reply) =>
        var recv := Max(s.lastRecv, walEnd);
        var s2 := s1.(lastRecv := recv, sent := if reply != 0 then s.sent + [Status(recv, s.lastAck)] else s.sent);
        AlivePasses(s, walEnd, sendTs, reply);
        assert Fed(ps) == Fed(ps[1..]);
        PumpIsRun(s2, ps[1..]);
      case Data(walStart, walEnd, sendTs, wire) =>
        DecodeXLog(walStart, walEnd, sendTs, wire);
        var s2 := s1.(lastRecv := Max(s.lastRecv, walEnd), asm := Step(s.asm, Meaning(wire)).0);
        RunFront(s.asm, Meaning(wire), Fed(ps[1..]));
        PumpIsRun(s2, ps[1..]);
    }
  }

  // ------------------------------------------------------------------ texts on the way

  /** A relation, a change, a transaction and a chunk as they arrive: their texts have gone through the lossy
      conversion. */
  function ReceivedMeta(meta: RelMeta): RelMeta {
    RelMeta(Utf8.Lossy(meta.name), ReceivedTexts(meta.columns), meta.identity)
  }

  function ReceivedOp(op: Op): Op {
    match op
    case InsertOp(after) => InsertOp(ReceivedTuple(after))
    case DeleteOp(before) => DeleteOp(ReceivedTuple(before))
    case UpdateOp(oldTuple, after) =>
      UpdateOp(if oldTuple.Some? then Some(ReceivedTuple(oldTuple.value)) else None, ReceivedTuple(after))
  }

  function ReceivedChange(c: ServerChange): ServerChange {
    match c
    case RowOp(relId, meta, op) => RowOp(relId, ReceivedMeta(meta), ReceivedOp(op))
    case Truncation(tables) => Truncation(ReceivedTexts(tables))
  }

  function ReceivedChanges(cs: seq<ServerChange>): (r: seq<ServerChange>)
    ensures |r| == |cs| && forall i :: 0 <= i < |r| ==> r[i] == ReceivedChange(cs[i])
  {
    seq(|cs|, i requires 0 <= i < |cs| => ReceivedChange(cs[i]))
  }

  function ReceivedTx(tx: ServerTx): ServerTx {
    tx.(changes := ReceivedChanges(tx.changes))
  }

  function ReceivedTxs(txs: seq<ServerTx>): (r: seq<ServerTx>)
    ensures |r| == |txs| && forall i :: 0 <= i < |r| ==> r[i] == ReceivedTx(txs[i])
  {
    seq(|txs|, i requires 0 <= i < |txs| => ReceivedTx(txs[i]))
  }

  function ReceivedPiece(p: Piece): Piece {
    match p
    case Announce(relId, namespace, meta) => Announce(relId, Utf8.Lossy(namespace), ReceivedMeta(meta))
    case Noise(_) => p
    case Change(c) => Change(ReceivedChange(c))
  }

  function ReceivedBody(body: seq<Piece>): (r: seq<Piece>)
    ensures |r| == |body| && forall i :: 0 <= i < |r| ==> r[i] == ReceivedPiece(body[i])
  {
    seq(|body|, i requires 0 <= i < |body| => ReceivedPiece(body[i]))
  }

  function ReceivedChunk(chunk: Chunk): Chunk {
    chunk.(body := ReceivedBody(chunk.body))
  }

  function ReceivedChunks(chunks: seq<Chunk>): (r: seq<Chunk>)
    ensures |r| == |chunks| && forall i :: 0 <= i < |r| ==> r[i] == ReceivedChunk(chunks[i])
  {
    seq(|chunks|, i requires 0 <= i < |chunks| => ReceivedChunk(chunks[i]))
  }

  function ReceivedKnown(known: map<nat, RelMeta>): map<nat, RelMeta> {
    map relId | relId in known :: ReceivedMeta(known[relId])
  }

  function ReceivedMsgs(ms: seq<Msg>): (r: seq<Msg>)
    ensures |r| == |ms| && forall i :: 0 <= i < |r| ==> r[i] == Received(ms[i])
  {
    seq(|ms|, i requires 0 <= i < |ms| => Received(ms[i]))
  }

  lemma {:induction false} FedIsReceived(ps: seq<Payload>)
    ensures Fed(ps) == ReceivedMsgs(Written(ps))
    decreases |ps|
  {
    hide Contents, Received, ReceivedMsgs;
    if ps == [] {
      ReceivedFront([], []);
    } else {
      FedIsReceived(ps[1..]);
      ReceivedFront(if ps[0].Data? then [Contents(ps[0].wire)] else [], Written(ps[1..]));
    }
  }

  lemma {:induction false} ReceivedFront(first: seq<Msg>, rest: seq<Msg>)
    requires |first| <= 1
    ensures ReceivedMsgs(first + rest) == (if first == [] then [] else [Received(first[0])]) + ReceivedMsgs(rest)
    ensures ReceivedMsgs([]) == []
  {
    hide Received;
  }

  lemma {:induction false} KnownReceived(known: map<nat, RelMeta>, body: seq<Piece>, n: nat)
    requires n <= |body|
    ensures Known(ReceivedKnown(known), ReceivedBody(body), n) == ReceivedKnown(Known(known, body, n))
  {
    hide ReceivedMeta, ReceivedChange;
    if n > 0 {
      KnownReceived(known, body, n - 1);
    }
  }

  lemma {:induction false} ChangesReceived(body: seq<Piece>, n: nat)
    requires n <= |body|
    ensures Changes(ReceivedBody(body), n) == ReceivedChanges(Changes(body, n))
  {
    hide ReceivedMeta, ReceivedChange;
    if n > 0 {
      ChangesReceived(body, n - 1);
      assert ReceivedBody(body)[n - 1] == ReceivedPiece(body[n - 1]);
    }
  }

  lemma {:induction false} SendableReceived(c: ServerChange)
    requires Sendable(c)
    ensures Sendable(ReceivedChange(c))
  {
  }

  lemma {:induction false} SendsReceived(known: map<nat, RelMeta>, chunk: Chunk, tx: ServerTx)
    requires Sends(known, chunk, tx)
    ensures Sends(ReceivedKnown(known), ReceivedChunk(chunk), ReceivedTx(tx))
  {
    hide Sendable, ReceivedMeta, Changes, Known;
    var body, arrived := chunk.body, ReceivedBody(chunk.body);
    ChangesReceived(body, |body|);
    forall i | 0 <= i < |tx.changes| ensures Sendable(ReceivedChanges(tx.changes)[i]) {
      SendableReceived(tx.changes[i]);
    }
    forall i | 0 <= i < |arrived| ensures PieceOk(Known(ReceivedKnown(known), arrived, i), arrived[i]) {
      assert arrived[i] == ReceivedPiece(body[i]) && PieceOk(Known(known, body, i), body[i]);
      KnownReceived(known, body, i);
      if body[i].Change? {
        SendableReceived(body[i].c);
      }
    }
  }

  lemma {:induction false} KnownAtReceived(chunks: seq<Chunk>, i: nat)
    requires i <= |chunks|
    ensures KnownAt(ReceivedChunks(chunks), i) == ReceivedKnown(KnownAt(chunks, i))
  {
    hide Known;
    if i > 0 {
      KnownAtReceived(chunks, i - 1);
      KnownReceived(KnownAt(chunks, i - 1), chunks[i - 1].body, |chunks[i - 1].body|);
    }
  }

  lemma {:induction false} StreamReceived(chunks: seq<Chunk>, txs: seq<ServerTx>)
    requires Stream(chunks, txs) && TxsSendable(txs)
    ensures Stream(ReceivedChunks(chunks), ReceivedTxs(txs)) && TxsSendable(ReceivedTxs(txs))
  {
    hide Sends, KnownAt, Sendable;
    forall i | 0 <= i < |chunks|
      ensures Sends(KnownAt(ReceivedChunks(chunks), i), ReceivedChunks(chunks)[i], ReceivedTxs(txs)[i])
    {
      KnownAtReceived(chunks, i);
      SendsReceived(KnownAt(chunks, i), chunks[i], txs[i]);
    }
    forall i, k | 0 <= i < |txs| && 0 <= k < |txs[i].changes| ensures Sendable(ReceivedTxs(txs)[i].changes[k]) {
      SendableReceived(txs[i].changes[k]);
    }
  }

  lemma {:induction false} ChunkMsgReceived(chunk: Chunk, tx: ServerTx, j: nat)
    requires j <= |chunk.body| + 1
    ensures ChunkMsg(ReceivedChunk(chunk), ReceivedTx(tx), j) == Received(ChunkMsg(chunk, tx, j))
  {
    hide Utf8.Lossy, ReceivedTexts, ReceivedTuple;
  }

  lemma {:induction false} SentReceived(chunks: seq<Chunk>, txs: seq<ServerTx>, i: nat, j: nat)
    requires |chunks| == |txs| && CutOk(chunks, i, j)
    ensures Sent(ReceivedChunks(chunks), ReceivedTxs(txs), i, j) == ReceivedMsgs(Sent(chunks, txs, i, j))
    decreases i, j
  {
    hide ChunkMsg, Received;
    if j > 0 {
      SentReceived(chunks, txs, i, j - 1);
      ChunkMsgReceived(chunks[i], txs[i], j - 1);
    } else if i > 0 {
      var last := |chunks[i - 1].body| + 1;
      SentReceived(chunks, txs, i - 1, last);
      ChunkMsgReceived(chunks[i - 1], txs[i - 1], last);
    }
  }

  ghost predicate Utf8Op(op: Op) {
    match op
    case InsertOp(after) => Utf8Tuple(after)
    case DeleteOp(before) => Utf8Tuple(before)
    case UpdateOp(oldTuple, after) => (oldTuple.Some? ==> Utf8Tuple(oldTuple.value)) && Utf8Tuple(after)
  }

  ghost predicate Utf8Change(c: ServerChange) {
    match c
    case RowOp(_, meta, op) => Utf8.Valid(meta.name) && Utf8Texts(meta.columns) && Utf8Op(op)
    case Truncation(tables) => Utf8Texts(tables)
  }

  ghost predicate Utf8Tx(tx: ServerTx) {
    forall i :: 0 <= i < |tx.changes| ==> Utf8Change(tx.changes[i])
  }

  lemma {:induction false} ChangeKeptIff(c: ServerChange)
    ensures ReceivedChange(c) == c <==> Utf8Change(c)
  {
    hide Utf8.Lossy, Utf8.Valid, ReceivedTexts, ReceivedTuple, Utf8Texts, Utf8Tuple;
    match c
    case Truncation(tables) => TextsKeptIff(tables);
    case RowOp(_, meta, op) =>
      Utf8.SurvivesIff(meta.name);
      TextsKeptIff(meta.columns);
      match op
      case InsertOp(after) => DatumsKeptIff(after);
      case DeleteOp(before) => DatumsKeptIff(before);
      case UpdateOp(oldTuple, after) =>
        DatumsKeptIff(after);
        if oldTuple.Some? {
          DatumsKeptIff(oldTuple.value);
        }
  }

  /** A transaction arrives as it was committed if and only if all its names and values are UTF-8. */
  lemma {:induction false} TxKeptIff(tx: ServerTx)
    ensures ReceivedTx(tx) == tx <==> Utf8Tx(tx)
  {
    hide ReceivedChange, Utf8Change;
    forall i | 0 <= i < |tx.changes| ensures ReceivedChanges(tx.changes)[i] == tx.changes[i] <==> Utf8Change(tx.changes[i]) {
      ChangeKeptIff(tx.changes[i]);
    }
    if ReceivedChanges(tx.changes) != tx.changes {
      var i :| 0 <= i < |tx.changes| && ReceivedChanges(tx.changes)[i] != tx.changes[i];
      assert !Utf8Change(tx.changes[i]);
    }
  }

  /** From the bytes of a connection, cut after any payload, come exactly the transactions whose Commit was
      among them, with their texts as they are received. */
  lemma {:induction false} BytesToTransactions(s: SourceState, ps: seq<Payload>, chunks: seq<Chunk>,
                                               txs: seq<ServerTx>, i: nat, j: nat)
    requires s.asm.relations == map[] && TxsSendable(txs) && Stream(chunks, txs) && CutOk(chunks, i, j)
    requires Carries(s.incoming, ps) && Written(ps) == Sent(chunks, txs, i, j)
    ensures TxsSendable(ReceivedTxs(txs)) && Pump(s).1 == Ok(MeantTxs(ReceivedTxs(txs), i))
  {
    hide Stream, TxsSendable, Pump, Run, Carries, Sent;
    var chunks', txs' := ReceivedChunks(chunks), ReceivedTxs(txs);
    SameSizes(chunks, txs);
    StreamReceived(chunks, txs);
    SentReceived(chunks, txs, i, j);
    FedIsReceived(ps);
    CutAnywhere(s.asm, chunks', txs', i, j);
    PumpIsRun(s, ps);
  }

  lemma {:induction false} SameSizes(chunks: seq<Chunk>, txs: seq<ServerTx>)
    requires Stream(chunks, txs)
    ensures |chunks| == |txs|
  {
  }
}
