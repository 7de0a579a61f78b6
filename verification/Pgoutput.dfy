/** Decoding the logical replication stream: the pgoutput messages of protocol version 1 and the envelope around
    them, against encoders written from "Logical Replication Message Formats" and "Streaming Replication
    Protocol" of the PostgreSQL documentation. A name or value is decoded as UTF-8, with U+FFFD in the place of
    what is not; a server whose database is not in UTF-8 sends such texts. */
module Pgoutput {
  import opened Wrappers
  import opened Bytes
  import opened Words
  import opened Parsing
  import Utf8

  type Text = bytes

  datatype TupleDatum = SqlNull | Unchanged | Value(text: Text)

  type Tuple = seq<TupleDatum>

  datatype Msg =
    | Begin(finalLsn: nat, commitTs: int, xid: nat)
    | Commit(endLsn: nat, commitTs: int)
    | Relation(relId: nat, namespace: Text, name: Text, identity: byte, columns: seq<Text>)
    | Insert(relId: nat, after: Tuple)
    | Delete(relId: nat, before: Tuple)
    | Update(relId: nat, oldTuple: Option<Tuple>, after: Tuple)
    | Other(tag: byte)

  datatype WalMsg =
    | XLogData(walStart: nat, walEnd: nat, msg: Msg)
    | Keepalive(walEnd: nat, replyRequested: bool)

  datatype DecodeError = Short | Unterminated | NegativeLength | BadKind(kind: byte) | UnknownStream(kind: byte)

  // The ASCII codes of the message types and markers.
  const B: byte := 66
  const C: byte := 67
  const D: byte := 68
  const I: byte := 73
  const K: byte := 75
  const N: byte := 78
  const O: byte := 79
  const R: byte := 82
  const U: byte := 85
  const LOWER_K: byte := 107
  const LOWER_N: byte := 110
  const LOWER_T: byte := 116
  const LOWER_U: byte := 117
  const LOWER_W: byte := 119

  // ------------------------------------------------------------------ what reading at a position gives

  function ByteAt(buf: bytes, pos: nat): (r: Parsed<byte, DecodeError>)
    ensures r.Ok? ==> r.value.1 == pos + 1 <= |buf|
  {
    var (s, p) :- TakeAt(buf, pos, 1, Short);
    Ok((s[0], p))
  }

  function UintAt(buf: bytes, pos: nat, k: nat): (r: Parsed<nat, DecodeError>)
    ensures r.Ok? ==> r.value.1 == pos + k <= |buf| && r.value.0 < Pow256(k)
  {
    var (s, p) :- TakeAt(buf, pos, k, Short);
    Ok((FromBe(s), p))
  }

  function IntAt(buf: bytes, pos: nat, k: nat): (r: Parsed<int, DecodeError>)
    ensures r.Ok? ==> r.value.1 == pos + k <= |buf|
  {
    var (v, p) :- UintAt(buf, pos, k);
    Ok((Signed(v, k), p))
  }

  /** The position of the first zero byte at or after `pos`, or the length. */
  function ZeroFrom(buf: bytes, pos: nat): (z: nat)
    requires pos <= |buf|
    ensures pos <= z <= |buf| && (z < |buf| ==> buf[z] == 0) && forall i :: pos <= i < z ==> buf[i] != 0
    decreases |buf| - pos
  {
    if pos == |buf| || buf[pos] == 0 then pos else ZeroFrom(buf, pos + 1)
  }

  function CstrAt(buf: bytes, pos: nat): (r: Parsed<Text, DecodeError>)
    requires pos <= |buf|
    ensures r.Ok? ==> pos < r.value.1 <= |buf|
  {
    var z := ZeroFrom(buf, pos);
    if z < |buf| then Ok((Utf8.Lossy(buf[pos..z]), z + 1)) else Err(Unterminated)
  }

  function DatumAt(buf: bytes, pos: nat): (r: Parsed<TupleDatum, DecodeError>)
    requires pos <= |buf|
    ensures r.Ok? ==> pos < r.value.1 <= |buf|
  {
    var (kind, p) :- ByteAt(buf, pos);
    if kind == LOWER_N then Ok((SqlNull, p))
    else if kind == LOWER_U then Ok((Unchanged, p))
    else if kind != LOWER_T then Err(BadKind(kind))
    else
      var (len, q) :- IntAt(buf, p, 4);
      if len < 0 then Err(NegativeLength)
      else
        var (s, end) :- TakeAt(buf, q, len, Short);
        Ok((Value(Utf8.Lossy(s)), end))
  }

  function DatumsAt(buf: bytes, pos: nat, n: nat): (r: Parsed<Tuple, DecodeError>)
    requires pos <= |buf|
    ensures r.Ok? ==> pos <= r.value.1 <= |buf| && |r.value.0| == n
    decreases n
  {
    if n == 0 then Ok(([], pos))
    else
      var (d, p) :- DatumAt(buf, pos);
      var (rest, q) :- DatumsAt(buf, p, n - 1);
      Ok(([d] + rest, q))
  }

  function TupleAt(buf: bytes, pos: nat): (r: Parsed<Tuple, DecodeError>)
    requires pos <= |buf|
    ensures r.Ok? ==> pos <= r.value.1 <= |buf|
  {
    var (n, p) :- UintAt(buf, pos, 2);
    DatumsAt(buf, p, n)
  }

  /** One column of a Relation message; only its name is kept. */
  function ColumnAt(buf: bytes, pos: nat): (r: Parsed<Text, DecodeError>)
    requires pos <= |buf|
    ensures r.Ok? ==> pos < r.value.1 <= |buf|
  {
    var (_, p) :- ByteAt(buf, pos);
    var (name, q) :- CstrAt(buf, p);
    var (_, q1) :- UintAt(buf, q, 4);
    var (_, q2) :- IntAt(buf, q1, 4);
    Ok((name, q2))
  }

  function ColumnsAt(buf: bytes, pos: nat, n: nat): (r: Parsed<seq<Text>, DecodeError>)
    requires pos <= |buf|
    ensures r.Ok? ==> pos <= r.value.1 <= |buf| && |r.value.0| == n
    decreases n
  {
    if n == 0 then Ok(([], pos))
    else
      var (c, p) :- ColumnAt(buf, pos);
      var (rest, q) :- ColumnsAt(buf, p, n - 1);
      Ok(([c] + rest, q))
  }

  // ------------------------------------------------------------------ messages

  function BeginAt(buf: bytes, pos: nat): Result<Msg, DecodeError> {
    var (finalLsn, p) :- UintAt(buf, pos, 8);
    var (ts, q) :- IntAt(buf, p, 8);
    var (xid, _) :- UintAt(buf, q, 4);
    Ok(Begin(finalLsn, ts, xid))
  }

  function CommitAt(buf: bytes, pos: nat): Result<Msg, DecodeError> {
    var (_, p) :- ByteAt(buf, pos);
    var (_, q) :- UintAt(buf, p, 8);
    var (endLsn, q1) :- UintAt(buf, q, 8);
    var (ts, _) :- IntAt(buf, q1, 8);
    Ok(Commit(endLsn, ts))
  }

  function RelationAt(buf: bytes, pos: nat): Result<Msg, DecodeError> {
    var (relId, p) :- UintAt(buf, pos, 4);
    var (namespace, q) :- CstrAt(buf, p);
    var (name, q1) :- CstrAt(buf, q);
    var (identity, q2) :- ByteAt(buf, q1);
    var (n, q3) :- UintAt(buf, q2, 2);
    var (columns, _) :- ColumnsAt(buf, q3, n);
    Ok(Relation(relId, namespace, name, identity, columns))
  }

  function InsertAt(buf: bytes, pos: nat): Result<Msg, DecodeError> {
    var (relId, p) :- UintAt(buf, pos, 4);
    var (kind, q) :- ByteAt(buf, p);
    if kind != N then Err(BadKind(kind))
    else
      var (after, _) :- TupleAt(buf, q);
      Ok(Insert(relId, after))
  }

  function DeleteAt(buf: bytes, pos: nat): Result<Msg, DecodeError> {
    var (relId, p) :- UintAt(buf, pos, 4);
    var (kind, q) :- ByteAt(buf, p);
    if kind != O && kind != K then Err(BadKind(kind))
    else
      var (before, _) :- TupleAt(buf, q);
      Ok(Delete(relId, before))
  }

  /** The old tuple of an update, when one was sent, and the kind byte after it. */
  function OldTupleAt(buf: bytes, pos: nat): (r: Parsed<(Option<Tuple>, byte), DecodeError>)
    requires pos <= |buf|
    ensures r.Ok? ==> pos < r.value.1 <= |buf|
  {
    var (kind, p) :- ByteAt(buf, pos);
    if kind == O || kind == K then
      var (before, q) :- TupleAt(buf, p);
      var (next, q1) :- ByteAt(buf, q);
      Ok(((Some(before), next), q1))
    else Ok(((None, kind), p))
  }

  function UpdateAt(buf: bytes, pos: nat): Result<Msg, DecodeError> {
    var (relId, p) :- UintAt(buf, pos, 4);
    var ((oldTuple, kind), q) :- OldTupleAt(buf, p);
    if kind != N then Err(BadKind(kind))
    else
      var (after, _) :- TupleAt(buf, q);
      Ok(Update(relId, oldTuple, after))
  }

  /** One pgoutput message. Bytes after the part that is read are not looked at. */
  function Decode(buf: bytes): Result<Msg, DecodeError> {
    var (tag, p) :- ByteAt(buf, 0);
    if tag == B then BeginAt(buf, p)
    else if tag == C then CommitAt(buf, p)
    else if tag == R then RelationAt(buf, p)
    else if tag == I then InsertAt(buf, p)
    else if tag == D then DeleteAt(buf, p)
    else if tag == U then UpdateAt(buf, p)
    else Ok(Other(tag))
  }

  /** One payload of the replication stream. */
  function DecodeWal(payload: bytes): Result<WalMsg, DecodeError> {
    var (tag, p) :- ByteAt(payload, 0);
    if tag == LOWER_W then
      var (walStart, q) :- UintAt(payload, p, 8);
      var (walEnd, q1) :- UintAt(payload, q, 8);
      var (_, q2) :- IntAt(payload, q1, 8);
      var msg :- Decode(payload[q2..]);
      Ok(XLogData(walStart, walEnd, msg))
    else if tag == LOWER_K then
      var (walEnd, q) :- UintAt(payload, p, 8);
      var (_, q1) :- IntAt(payload, q, 8);
      var (reply, _) :- ByteAt(payload, q1);
      Ok(Keepalive(walEnd, reply != 0))
    else Err(UnknownStream(tag))
  }

  // ------------------------------------------------------------------ what a server writes

  datatype WireColumn = WireColumn(flags: byte, name: Text, typeOid: nat, typmod: int)

  /** A message with every field of its format. */
  datatype Wire =
    | WBegin(finalLsn: nat, commitTs: int, xid: nat)
    | WCommit(flags: byte, commitLsn: nat, endLsn: nat, commitTs: int)
    | WRelation(relId: nat, namespace: Text, name: Text, identity: byte, columns: seq<WireColumn>)
    | WInsert(relId: nat, after: Tuple)
    | WDelete(relId: nat, keyOnly: bool, before: Tuple)
    | WUpdate(relId: nat, oldTuple: Option<(bool, Tuple)>, after: Tuple)
    | WOther(tag: byte, body: bytes)

  function Names(columns: seq<WireColumn>): (names: seq<Text>)
    ensures |names| == |columns| && forall i :: 0 <= i < |names| ==> names[i] == columns[i].name
  {
    if columns == [] then [] else [columns[0].name] + Names(columns[1..])
  }

  /** What the server says with the message, text by text. */
  function Contents(w: Wire): Msg {
    match w
    case WBegin(finalLsn, ts, xid) => Begin(finalLsn, ts, xid)
    case WCommit(_, _, endLsn, ts) => Commit(endLsn, ts)
    case WRelation(relId, namespace, name, identity, columns) => Relation(relId, namespace, name, identity, Names(columns))
    case WInsert(relId, after) => Insert(relId, after)
    case WDelete(relId, _, before) => Delete(relId, before)
    case WUpdate(relId, oldTuple, after) =>
      Update(relId, if oldTuple.Some? then Some(oldTuple.value.1) else None, after)
    case WOther(tag, _) => Other(tag)
  }

  function ReceivedTexts(names: seq<Text>): (r: seq<Text>)
    ensures |r| == |names| && forall i :: 0 <= i < |r| ==> r[i] == Utf8.Lossy(names[i])
  {
    if names == [] then [] else [Utf8.Lossy(names[0])] + ReceivedTexts(names[1..])
  }

  function ReceivedDatum(d: TupleDatum): TupleDatum {
    if d.Value? then Value(Utf8.Lossy(d.text)) else d
  }

  function ReceivedTuple(t: Tuple): (r: Tuple)
    ensures |r| == |t| && forall i :: 0 <= i < |r| ==> r[i] == ReceivedDatum(t[i])
  {
    if t == [] then [] else [ReceivedDatum(t[0])] + ReceivedTuple(t[1..])
  }

  /** The message as it arrives: every name and every value goes through the lossy conversion. */
  function Received(m: Msg): Msg {
    match m
    case Relation(relId, namespace, name, identity, columns) =>
      Relation(relId, Utf8.Lossy(namespace), Utf8.Lossy(name), identity, ReceivedTexts(columns))
    case Insert(relId, after) => Insert(relId, ReceivedTuple(after))
    case Delete(relId, before) => Delete(relId, ReceivedTuple(before))
    case Update(relId, oldTuple, after) =>
      Update(relId, if oldTuple.Some? then Some(ReceivedTuple(oldTuple.value)) else None, ReceivedTuple(after))
    case _ => m
  }

  /** What the message says to the mirror. */
  function Meaning(w: Wire): Msg {
    Received(Contents(w))
  }

  ghost predicate Utf8Texts(names: seq<Text>) {
    forall i :: 0 <= i < |names| ==> Utf8.Valid(names[i])
  }

  ghost predicate Utf8Tuple(t: Tuple) {
    forall i :: 0 <= i < |t| && t[i].Value? ==> Utf8.Valid(t[i].text)
  }

  /** Every name and every value of the message is UTF-8. */
  ghost predicate AllUtf8(m: Msg) {
    match m
    case Relation(_, namespace, name, _, columns) => Utf8.Valid(namespace) && Utf8.Valid(name) && Utf8Texts(columns)
    case Insert(_, after) => Utf8Tuple(after)
    case Delete(_, before) => Utf8Tuple(before)
    case Update(_, oldTuple, after) => (oldTuple.Some? ==> Utf8Tuple(oldTuple.value)) && Utf8Tuple(after)
    case _ => true
  }

  ghost predicate FitsSigned(x: int, k: nat) {
    -(Pow256(k) as int) <= 2 * x < Pow256(k)
  }

  ghost predicate FitsText(s: Text) {
    forall i :: 0 <= i < |s| ==> s[i] != 0
  }

  ghost predicate FitsDatum(d: TupleDatum) {
    d.Value? ==> FitsSigned(|d.text|, 4)
  }

  ghost predicate FitsTuple(t: Tuple) {
    |t| < Pow256(2) && forall i :: 0 <= i < |t| ==> FitsDatum(t[i])
  }

  ghost predicate FitsColumn(c: WireColumn) {
    FitsText(c.name) && c.typeOid < Pow256(4) && FitsSigned(c.typmod, 4)
  }

  ghost predicate FitsColumns(cs: seq<WireColumn>) {
    |cs| < Pow256(2) && forall i :: 0 <= i < |cs| ==> FitsColumn(cs[i])
  }

  /** The code of a character, as the formats of the documentation name their bytes. */
  ghost function Ascii(c: char): byte
    requires c < 128 as char
  {
    c as int
  }

  /** Every field is in the range of its format, and a type byte that is not one of the six below is other. */
  ghost predicate Fits(w: Wire) {
    match w
    case WBegin(finalLsn, ts, xid) => finalLsn < Pow256(8) && FitsSigned(ts, 8) && xid < Pow256(4)
    case WCommit(_, commitLsn, endLsn, ts) => commitLsn < Pow256(8) && endLsn < Pow256(8) && FitsSigned(ts, 8)
    case WRelation(relId, namespace, name, _, columns) =>
      relId < Pow256(4) && FitsText(namespace) && FitsText(name) && FitsColumns(columns)
    case WInsert(relId, after) => relId < Pow256(4) && FitsTuple(after)
    case WDelete(relId, _, before) => relId < Pow256(4) && FitsTuple(before)
    case WUpdate(relId, oldTuple, after) =>
      relId < Pow256(4) && FitsTuple(after) && (oldTuple.Some? ==> FitsTuple(oldTuple.value.1))
    case WOther(tag, _) => tag !in {Ascii('B'), Ascii('C'), Ascii('D'), Ascii('I'), Ascii('R'), Ascii('U')}
  }

  ghost function SignedBe(x: int, k: nat): (r: bytes)
    requires FitsSigned(x, k)
    ensures |r| == k
  {
    Be(Unsigned(x, k), k)
  }

  ghost function EncDatum(d: TupleDatum): bytes
    requires FitsDatum(d)
  {
    match d
    case SqlNull => [Ascii('n')]
    case Unchanged => [Ascii('u')]
    case Value(s) => [Ascii('t')] + (SignedBe(|s|, 4) + s)
  }

  ghost function EncDatums(t: Tuple): bytes
    requires forall i :: 0 <= i < |t| ==> FitsDatum(t[i])
  {
    if t == [] then [] else EncDatum(t[0]) + EncDatums(t[1..])
  }

  ghost function EncTuple(t: Tuple): bytes
    requires FitsTuple(t)
  {
    Be(|t|, 2) + EncDatums(t)
  }

  ghost function EncColumn(c: WireColumn): bytes
    requires FitsColumn(c)
  {
    [c.flags] + ((c.name + [0]) + (Be(c.typeOid, 4) + SignedBe(c.typmod, 4)))
  }

  ghost function EncColumns(cs: seq<WireColumn>): bytes
    requires forall i :: 0 <= i < |cs| ==> FitsColumn(cs[i])
  {
    if cs == [] then [] else EncColumn(cs[0]) + EncColumns(cs[1..])
  }

  ghost function EncOldAndNew(keyOnly: bool, before: Tuple, after: Tuple): bytes
    requires FitsTuple(before) && FitsTuple(after)
  {
    [Ascii(if keyOnly then 'K' else 'O')] + (EncTuple(before) + ([Ascii('N')] + EncTuple(after)))
  }

  ghost function Encode(w: Wire): bytes
    requires Fits(w)
  {
    match w
    case WBegin(finalLsn, ts, xid) => [Ascii('B')] + (Be(finalLsn, 8) + (SignedBe(ts, 8) + Be(xid, 4)))
    case WCommit(flags, commitLsn, endLsn, ts) =>
      [Ascii('C')] + ([flags] + (Be(commitLsn, 8) + (Be(endLsn, 8) + SignedBe(ts, 8))))
    case WRelation(relId, namespace, name, identity, columns) =>
      [Ascii('R')] + (Be(relId, 4) + ((namespace + [0]) + ((name + [0]) + ([identity] + (Be(|columns|, 2) + EncColumns(columns))))))
    case WInsert(relId, after) => [Ascii('I')] + (Be(relId, 4) + ([Ascii('N')] + EncTuple(after)))
    case WDelete(relId, keyOnly, before) => [Ascii('D')] + (Be(relId, 4) + ([Ascii(if keyOnly then 'K' else 'O')] + EncTuple(before)))
    case WUpdate(relId, oldTuple, after) =>
      if oldTuple.Some? then [Ascii('U')] + (Be(relId, 4) + EncOldAndNew(oldTuple.value.0, oldTuple.value.1, after))
      else [Ascii('U')] + (Be(relId, 4) + ([Ascii('N')] + EncTuple(after)))
    case WOther(tag, body) => [tag] + body
  }

  ghost function EncodeXLog(walStart: nat, walEnd: nat, sendTs: int, w: Wire): bytes
    requires walStart < Pow256(8) && walEnd < Pow256(8) && FitsSigned(sendTs, 8) && Fits(w)
  {
    [Ascii('w')] + (Be(walStart, 8) + (Be(walEnd, 8) + (SignedBe(sendTs, 8) + Encode(w))))
  }

  ghost function EncodeKeepalive(walEnd: nat, sendTs: int, reply: byte): bytes
    requires walEnd < Pow256(8) && FitsSigned(sendTs, 8)
  {
    [Ascii('k')] + (Be(walEnd, 8) + (SignedBe(sendTs, 8) + [reply]))
  }

  // ------------------------------------------------------------------ reading back what was written

  lemma {:induction false} ReadByte(buf: bytes, pos: nat, b: byte, rest: bytes)
    requires Stands(buf, pos, [b] + rest)
    ensures ByteAt(buf, pos) == Ok((b, pos + 1)) && Stands(buf, pos + 1, rest)
  {
    StandsSplit(buf, pos, [b], rest);
    assert buf[pos..pos + 1][0] == b;
  }

  lemma {:induction false} ReadUint(buf: bytes, pos: nat, v: nat, k: nat, rest: bytes)
    requires v < Pow256(k) && Stands(buf, pos, Be(v, k) + rest)
    ensures UintAt(buf, pos, k) == Ok((v, pos + k)) && Stands(buf, pos + k, rest)
  {
    StandsSplit(buf, pos, Be(v, k), rest);
    BeRoundTrip(v, k);
  }

  lemma {:induction false} ReadInt(buf: bytes, pos: nat, x: int, k: nat, rest: bytes)
    requires FitsSigned(x, k) && Stands(buf, pos, SignedBe(x, k) + rest)
    ensures IntAt(buf, pos, k) == Ok((x, pos + k)) && Stands(buf, pos + k, rest)
  {
    ReadUint(buf, pos, Unsigned(x, k), k, rest);
  }

  lemma {:induction false} ReadCstr(buf: bytes, pos: nat, s: Text, rest: bytes)
    requires FitsText(s) && Stands(buf, pos, (s + [0]) + rest)
    ensures CstrAt(buf, pos) == Ok((Utf8.Lossy(s), pos + |s| + 1)) && Stands(buf, pos + |s| + 1, rest)
  {
    StandsSplit(buf, pos, s + [0], rest);
    var here := buf[pos..pos + |s| + 1];
    assert here == s + [0];
    assert forall i :: 0 <= i <= |s| ==> buf[pos + i] == (s + [0])[i];
    var z := ZeroFrom(buf, pos);
    assert buf[pos + |s|] == 0;
    assert forall i :: 0 <= i < |s| ==> buf[pos + i] == s[i];
    assert buf[pos..z] == here[..|s|] == s;
  }

  lemma {:induction false} ReadDatum(buf: bytes, pos: nat, d: TupleDatum, rest: bytes)
    requires FitsDatum(d) && Stands(buf, pos, EncDatum(d) + rest)
    ensures DatumAt(buf, pos) == Ok((ReceivedDatum(d), pos + |EncDatum(d)|)) && Stands(buf, pos + |EncDatum(d)|, rest)
  {
    StandsSplit(buf, pos, EncDatum(d), rest);
    match d
    case SqlNull =>
      ReadByte(buf, pos, LOWER_N, []);
    case Unchanged =>
      ReadByte(buf, pos, LOWER_U, []);
    case Value(s) =>
      ReadByte(buf, pos, LOWER_T, SignedBe(|s|, 4) + s);
      ReadInt(buf, pos + 1, |s|, 4, s);
  }

  lemma {:induction false} ReadDatums(buf: bytes, pos: nat, t: Tuple, rest: bytes)
    requires forall i :: 0 <= i < |t| ==> FitsDatum(t[i])
    requires Stands(buf, pos, EncDatums(t) + rest)
    ensures DatumsAt(buf, pos, |t|) == Ok((ReceivedTuple(t), pos + |EncDatums(t)|)) && Stands(buf, pos + |EncDatums(t)|, rest)
    decreases |t|
  {
    hide Stands, DatumAt, EncDatum;
    if t == [] {
      assert [] + rest == rest;
    } else {
      assert EncDatums(t) + rest == EncDatum(t[0]) + (EncDatums(t[1..]) + rest);
      ReadDatum(buf, pos, t[0], EncDatums(t[1..]) + rest);
      ReadDatums(buf, pos + |EncDatum(t[0])|, t[1..], rest);
    }
  }

  lemma {:induction false} ReadTuple(buf: bytes, pos: nat, t: Tuple, rest: bytes)
    requires FitsTuple(t) && Stands(buf, pos, EncTuple(t) + rest)
    ensures TupleAt(buf, pos) == Ok((ReceivedTuple(t), pos + |EncTuple(t)|)) && Stands(buf, pos + |EncTuple(t)|, rest)
  {
    hide Stands, UintAt, DatumsAt, EncDatums, Be;
    assert EncTuple(t) + rest == Be(|t|, 2) + (EncDatums(t) + rest);
    ReadUint(buf, pos, |t|, 2, EncDatums(t) + rest);
    ReadDatums(buf, pos + 2, t, rest);
  }

  lemma {:induction false} ReadColumn(buf: bytes, pos: nat, c: WireColumn, rest: bytes)
    requires FitsColumn(c)
    requires Stands(buf, pos, EncColumn(c) + rest)
    ensures ColumnAt(buf, pos) == Ok((Utf8.Lossy(c.name), pos + |EncColumn(c)|)) && Stands(buf, pos + |EncColumn(c)|, rest)
  {
    hide Stands, ByteAt, UintAt, IntAt, Be, SignedBe, CstrAt;
    var name, oid, typmod := c.name + [0], Be(c.typeOid, 4), SignedBe(c.typmod, 4);
    assert EncColumn(c) + rest == [c.flags] + (name + (oid + (typmod + rest)));
    ReadByte(buf, pos, c.flags, name + (oid + (typmod + rest)));
    ReadCstr(buf, pos + 1, c.name, oid + (typmod + rest));
    var p := pos + 1 + |c.name| + 1;
    ReadUint(buf, p, c.typeOid, 4, typmod + rest);
    ReadInt(buf, p + 4, c.typmod, 4, rest);
  }

  lemma {:induction false} ReadColumns(buf: bytes, pos: nat, cs: seq<WireColumn>, rest: bytes)
    requires forall i :: 0 <= i < |cs| ==> FitsColumn(cs[i])
    requires Stands(buf, pos, EncColumns(cs) + rest)
    ensures ColumnsAt(buf, pos, |cs|) == Ok((ReceivedTexts(Names(cs)), pos + |EncColumns(cs)|))
    ensures Stands(buf, pos + |EncColumns(cs)|, rest)
    decreases |cs|
  {
    hide Stands, ColumnAt, EncColumn;
    if cs == [] {
      assert [] + rest == rest;
    } else {
      assert EncColumns(cs) + rest == EncColumn(cs[0]) + (EncColumns(cs[1..]) + rest);
      ReadColumn(buf, pos, cs[0], EncColumns(cs[1..]) + rest);
      ReadColumns(buf, pos + |EncColumn(cs[0])|, cs[1..], rest);
    }
  }

  lemma {:induction false} ReadBegin(buf: bytes, pos: nat, w: Wire)
    requires w.WBegin? && Fits(w) && Stands(buf, pos, Encode(w)[1..])
    ensures BeginAt(buf, pos) == Ok(Meaning(w))
  {
    hide Stands, ByteAt, UintAt, IntAt, Be, SignedBe;
    var body := Be(w.finalLsn, 8) + (SignedBe(w.commitTs, 8) + Be(w.xid, 4));
    assert Encode(w)[1..] == Be(w.finalLsn, 8) + (SignedBe(w.commitTs, 8) + (Be(w.xid, 4) + []));
    ReadUint(buf, pos, w.finalLsn, 8, SignedBe(w.commitTs, 8) + (Be(w.xid, 4) + []));
    ReadInt(buf, pos + 8, w.commitTs, 8, Be(w.xid, 4) + []);
    ReadUint(buf, pos + 16, w.xid, 4, []);
  }

  lemma {:induction false} ReadCommit(buf: bytes, pos: nat, w: Wire)
    requires w.WCommit? && Fits(w) && Stands(buf, pos, Encode(w)[1..])
    ensures CommitAt(buf, pos) == Ok(Meaning(w))
  {
    hide Stands, ByteAt, UintAt, IntAt, Be, SignedBe;
    var ts := SignedBe(w.commitTs, 8) + [];
    assert Encode(w)[1..] == [w.flags] + (Be(w.commitLsn, 8) + (Be(w.endLsn, 8) + ts));
    ReadByte(buf, pos, w.flags, Be(w.commitLsn, 8) + (Be(w.endLsn, 8) + ts));
    ReadUint(buf, pos + 1, w.commitLsn, 8, Be(w.endLsn, 8) + ts);
    ReadUint(buf, pos + 9, w.endLsn, 8, ts);
    ReadInt(buf, pos + 17, w.commitTs, 8, []);
  }

  lemma {:induction false} ReadRelation(buf: bytes, pos: nat, w: Wire)
    requires w.WRelation? && Fits(w) && Stands(buf, pos, Encode(w)[1..])
    ensures RelationAt(buf, pos) == Ok(Meaning(w))
  {
    hide Stands, ByteAt, UintAt, IntAt, Be, SignedBe, CstrAt, ColumnsAt, EncColumns;
    hide Utf8.Lossy;
    var columns := Be(|w.columns|, 2) + (EncColumns(w.columns) + []);
    var name := (w.name + [0]) + ([w.identity] + columns);
    assert Encode(w)[1..] == Be(w.relId, 4) + ((w.namespace + [0]) + name);
    ReadUint(buf, pos, w.relId, 4, (w.namespace + [0]) + name);
    ReadCstr(buf, pos + 4, w.namespace, name);
    var p := pos + 4 + |w.namespace| + 1;
    ReadCstr(buf, p, w.name, [w.identity] + columns);
    var q := p + |w.name| + 1;
    ReadByte(buf, q, w.identity, columns);
    ReadUint(buf, q + 1, |w.columns|, 2, EncColumns(w.columns) + []);
    ReadColumns(buf, q + 3, w.columns, []);
  }

  lemma {:induction false} ReadInsert(buf: bytes, pos: nat, w: Wire)
    requires w.WInsert? && Fits(w) && Stands(buf, pos, Encode(w)[1..])
    ensures InsertAt(buf, pos) == Ok(Meaning(w))
  {
    hide Stands, ByteAt, UintAt, IntAt, Be, SignedBe, TupleAt, EncTuple;
    assert Encode(w)[1..] == Be(w.relId, 4) + ([N] + (EncTuple(w.after) + []));
    ReadUint(buf, pos, w.relId, 4, [N] + (EncTuple(w.after) + []));
    ReadByte(buf, pos + 4, N, EncTuple(w.after) + []);
    ReadTuple(buf, pos + 5, w.after, []);
  }

  lemma {:induction false} ReadDelete(buf: bytes, pos: nat, w: Wire)
    requires w.WDelete? && Fits(w) && Stands(buf, pos, Encode(w)[1..])
    ensures DeleteAt(buf, pos) == Ok(Meaning(w))
  {
    hide Stands, ByteAt, UintAt, IntAt, Be, SignedBe, TupleAt, EncTuple;
    var kind := if w.keyOnly then K else O;
    assert Encode(w)[1..] == Be(w.relId, 4) + ([kind] + (EncTuple(w.before) + []));
    ReadUint(buf, pos, w.relId, 4, [kind] + (EncTuple(w.before) + []));
    ReadByte(buf, pos + 4, kind, EncTuple(w.before) + []);
    ReadTuple(buf, pos + 5, w.before, []);
  }

  lemma {:induction false} ReadUpdate(buf: bytes, pos: nat, w: Wire)
    requires w.WUpdate? && Fits(w) && Stands(buf, pos, Encode(w)[1..])
    ensures UpdateAt(buf, pos) == Ok(Meaning(w))
  {
    hide *;
    if w.oldTuple.Some? {
      ReadUpdateWithOld(buf, pos, w);
    } else {
      ReadPlainUpdate(buf, pos, w);
    }
  }

  lemma {:induction false} ReadPlainUpdate(buf: bytes, pos: nat, w: Wire)
    requires w.WUpdate? && w.oldTuple.None? && Fits(w) && Stands(buf, pos, Encode(w)[1..])
    ensures UpdateAt(buf, pos) == Ok(Meaning(w))
  {
    hide Stands, ByteAt, UintAt, IntAt, Be, SignedBe, TupleAt, EncTuple, ReceivedTuple;
    var after := EncTuple(w.after) + [];
    assert Encode(w)[1..] == Be(w.relId, 4) + ([N] + after);
    ReadUint(buf, pos, w.relId, 4, [N] + after);
    ReadByte(buf, pos + 4, N, after);
    ReadTuple(buf, pos + 5, w.after, []);
  }

  lemma {:induction false} ReadUpdateWithOld(buf: bytes, pos: nat, w: Wire)
    requires w.WUpdate? && w.oldTuple.Some? && Fits(w) && Stands(buf, pos, Encode(w)[1..])
    ensures UpdateAt(buf, pos) == Ok(Meaning(w))
  {
    hide Stands, ByteAt, UintAt, IntAt, Be, SignedBe, TupleAt, EncTuple, ReceivedTuple, FitsTuple;
    var after := EncTuple(w.after) + [];
    var kind, before := if w.oldTuple.value.0 then K else O, w.oldTuple.value.1;
    assert Encode(w)[1..] == Be(w.relId, 4) + ([kind] + (EncTuple(before) + ([N] + after)));
    ReadUint(buf, pos, w.relId, 4, [kind] + (EncTuple(before) + ([N] + after)));
    ReadOldTuple(buf, pos + 4, kind, before, after);
    var q := pos + 5 + |EncTuple(before)|;
    ReadTuple(buf, q + 1, w.after, []);
  }

  lemma {:induction false} ReadOldTuple(buf: bytes, pos: nat, kind: byte, before: Tuple, rest: bytes)
    requires (kind == K || kind == O) && FitsTuple(before)
    requires Stands(buf, pos, [kind] + (EncTuple(before) + ([N] + rest)))
    ensures pos <= |buf|
    ensures
      var q := pos + 1 + |EncTuple(before)|;
      OldTupleAt(buf, pos) == Ok(((Some(ReceivedTuple(before)), N), q + 1)) && Stands(buf, q + 1, rest)
  {
    hide *;
    StandsInside(buf, pos, [kind] + (EncTuple(before) + ([N] + rest)));
    ReadByte(buf, pos, kind, EncTuple(before) + ([N] + rest));
    ReadTuple(buf, pos + 1, before, [N] + rest);
    ReadByte(buf, pos + 1 + |EncTuple(before)|, N, rest);
    OldTupleOf(buf, pos, kind, ReceivedTuple(before), pos + 1 + |EncTuple(before)|);
  }

  lemma {:induction false} OldTupleOf(buf: bytes, pos: nat, kind: byte, before: Tuple, q: nat)
    requires pos < q <= |buf| && (kind == K || kind == O) && ByteAt(buf, pos) == Ok((kind, pos + 1))
    requires TupleAt(buf, pos + 1) == Ok((before, q)) && ByteAt(buf, q) == Ok((N, q + 1))
    ensures OldTupleAt(buf, pos) == Ok(((Some(before), N), q + 1))
  {
    hide TupleAt, ByteAt;
  }

  lemma {:induction false} StandsInside(buf: bytes, pos: nat, s: bytes)
    requires Stands(buf, pos, s)
    ensures pos <= |buf|
  {
  }

  /** A buffer that begins with a message of the format decodes to what the message says, its texts as they are
      received. */
  lemma {:induction false} DecodesPrefix(buf: bytes, w: Wire)
    requires Fits(w) && Encode(w) <= buf
    ensures Decode(buf) == Ok(Meaning(w))
  {
    hide BeginAt, CommitAt, RelationAt, InsertAt, DeleteAt, UpdateAt, Be, SignedBe, EncTuple, EncColumns;
    var s := Encode(w);
    assert s == [s[0]] + s[1..];
    assert Stands(buf, 0, s);
    ReadByte(buf, 0, s[0], s[1..]);
    match w
    case WBegin(_, _, _) => ReadBegin(buf, 1, w);
    case WCommit(_, _, _, _) => ReadCommit(buf, 1, w);
    case WRelation(_, _, _, _, _) => ReadRelation(buf, 1, w);
    case WInsert(_, _) => ReadInsert(buf, 1, w);
    case WDelete(_, _, _) => ReadDelete(buf, 1, w);
    case WUpdate(_, _, _) => ReadUpdate(buf, 1, w);
    case WOther(_, _) =>
  }

  /** And so do the bytes of a message alone. */
  lemma {:induction false} DecodeEncode(w: Wire)
    requires Fits(w)
    ensures Decode(Encode(w)) == Ok(Meaning(w))
  {
    DecodesPrefix(Encode(w), w);
  }

  lemma {:induction false} TextsKeptIff(names: seq<Text>)
    ensures ReceivedTexts(names) == names <==> Utf8Texts(names)
  {
    hide ReceivedTexts, Utf8.Valid, Utf8.Lossy;
    forall i | 0 <= i < |names| ensures ReceivedTexts(names)[i] == names[i] <==> Utf8.Valid(names[i]) {
      Utf8.SurvivesIff(names[i]);
    }
    if ReceivedTexts(names) != names {
      var i :| 0 <= i < |names| && ReceivedTexts(names)[i] != names[i];
      assert !Utf8.Valid(names[i]);
    }
  }

  lemma {:induction false} DatumsKeptIff(t: Tuple)
    ensures ReceivedTuple(t) == t <==> Utf8Tuple(t)
  {
    hide ReceivedTuple, Utf8.Valid, Utf8.Lossy;
    forall i | 0 <= i < |t| ensures ReceivedTuple(t)[i] == t[i] <==> (t[i].Value? ==> Utf8.Valid(t[i].text)) {
      if t[i].Value? {
        Utf8.SurvivesIff(t[i].text);
      }
    }
    if ReceivedTuple(t) != t {
      var i :| 0 <= i < |t| && ReceivedTuple(t)[i] != t[i];
      assert t[i].Value? && !Utf8.Valid(t[i].text);
    }
  }

  /** A message arrives as it was written if and only if all its names and values are UTF-8. */
  lemma {:induction false} ArrivesVerbatimIff(w: Wire)
    requires Fits(w)
    ensures Decode(Encode(w)) == Ok(Contents(w)) <==> AllUtf8(Contents(w))
  {
    hide Decode, Encode, Utf8.Valid, Utf8.Lossy, ReceivedTexts, ReceivedTuple, Utf8Texts, Utf8Tuple;
    DecodeEncode(w);
    match Contents(w)
    case Relation(_, namespace, name, _, columns) =>
      Utf8.SurvivesIff(namespace);
      Utf8.SurvivesIff(name);
      TextsKeptIff(columns);
    case Insert(_, after) => DatumsKeptIff(after);
    case Delete(_, before) => DatumsKeptIff(before);
    case Update(_, oldTuple, after) =>
      DatumsKeptIff(after);
      if oldTuple.Some? {
        DatumsKeptIff(oldTuple.value);
      }
    case _ =>
  }

  lemma {:induction false} DatumsAreUtf8(buf: bytes, pos: nat, n: nat)
    requires pos <= |buf| && DatumsAt(buf, pos, n).Ok?
    ensures Utf8Tuple(DatumsAt(buf, pos, n).value.0)
    decreases n
  {
    hide Utf8.Valid, Utf8.Lossy;
    if n > 0 {
      var (d, p) := DatumAt(buf, pos).value;
      DatumsAreUtf8(buf, p, n - 1);
      var (len, q) := if d.Value? then IntAt(buf, pos + 1, 4).value else (0, pos);
      if d.Value? {
        Utf8.LossyIsValid(TakeAt(buf, q, len, Short).value.0);
      }
    }
  }

  lemma {:induction false} CstrIsUtf8(buf: bytes, pos: nat)
    requires pos <= |buf| && CstrAt(buf, pos).Ok?
    ensures Utf8.Valid(CstrAt(buf, pos).value.0)
  {
    Utf8.LossyIsValid(buf[pos..ZeroFrom(buf, pos)]);
  }

  lemma {:induction false} ColumnsAreUtf8(buf: bytes, pos: nat, n: nat)
    requires pos <= |buf| && ColumnsAt(buf, pos, n).Ok?
    ensures Utf8Texts(ColumnsAt(buf, pos, n).value.0)
    decreases n
  {
    hide Utf8.Valid, Utf8.Lossy, CstrAt;
    if n > 0 {
      CstrIsUtf8(buf, pos + 1);
      ColumnsAreUtf8(buf, ColumnAt(buf, pos).value.1, n - 1);
    }
  }

  lemma {:induction false} RelationIsUtf8(buf: bytes)
    requires RelationAt(buf, 1).Ok?
    ensures AllUtf8(RelationAt(buf, 1).value)
  {
    hide Utf8.Valid, Utf8Texts, ColumnsAt, CstrAt;
    var (_, p) := UintAt(buf, 1, 4).value;
    CstrIsUtf8(buf, p);
    var q := CstrAt(buf, p).value.1;
    CstrIsUtf8(buf, q);
    var q1 := CstrAt(buf, q).value.1;
    ColumnsAreUtf8(buf, q1 + 3, |RelationAt(buf, 1).value.columns|);
  }

  lemma {:induction false} TupleIsUtf8(buf: bytes, pos: nat)
    requires pos <= |buf| && TupleAt(buf, pos).Ok?
    ensures Utf8Tuple(TupleAt(buf, pos).value.0)
  {
    DatumsAreUtf8(buf, pos + 2, UintAt(buf, pos, 2).value.0);
  }

  lemma {:induction false} InsertIsUtf8(buf: bytes)
    requires InsertAt(buf, 1).Ok?
    ensures AllUtf8(InsertAt(buf, 1).value)
  {
    hide Utf8Tuple, TupleAt;
    TupleIsUtf8(buf, 6);
  }

  lemma {:induction false} DeleteIsUtf8(buf: bytes)
    requires DeleteAt(buf, 1).Ok?
    ensures AllUtf8(DeleteAt(buf, 1).value)
  {
    hide Utf8Tuple, TupleAt;
    TupleIsUtf8(buf, 6);
  }

  lemma {:induction false} UpdateIsUtf8(buf: bytes)
    requires UpdateAt(buf, 1).Ok?
    ensures AllUtf8(UpdateAt(buf, 1).value)
  {
    hide Utf8Tuple, TupleAt;
    TupleIsUtf8(buf, 6);
    if UpdateAt(buf, 1).value.oldTuple.Some? {
      TupleIsUtf8(buf, TupleAt(buf, 6).value.1 + 1);
    }
  }

  /** Whatever the bytes, what is decoded from them is UTF-8. */
  lemma {:induction false} DecodedIsUtf8(buf: bytes)
    requires Decode(buf).Ok?
    ensures AllUtf8(Decode(buf).value)
  {
    hide RelationAt, InsertAt, DeleteAt, UpdateAt, UintAt, IntAt, Utf8Tuple, Utf8Texts, Utf8.Valid;
    if buf[0] == R {
      RelationIsUtf8(buf);
    } else if buf[0] == I {
      InsertIsUtf8(buf);
    } else if buf[0] == D {
      DeleteIsUtf8(buf);
    } else if buf[0] == U {
      UpdateIsUtf8(buf);
    }
  }

  /** And so does decoding the stream payload around it. */
  lemma {:induction false} XLogPrefix(payload: bytes, walStart: nat, walEnd: nat, sendTs: int, w: Wire)
    requires walStart < Pow256(8) && walEnd < Pow256(8) && FitsSigned(sendTs, 8) && Fits(w)
    requires EncodeXLog(walStart, walEnd, sendTs, w) <= payload
    ensures DecodeWal(payload) == Ok(XLogData(walStart, walEnd, Meaning(w)))
  {
    hide Be, SignedBe, ByteAt, UintAt, IntAt, Decode, Encode;
    var msg := Encode(w);
    var ts := SignedBe(sendTs, 8) + msg;
    assert Stands(payload, 0, EncodeXLog(walStart, walEnd, sendTs, w));
    ReadByte(payload, 0, LOWER_W, Be(walStart, 8) + (Be(walEnd, 8) + ts));
    ReadUint(payload, 1, walStart, 8, Be(walEnd, 8) + ts);
    ReadUint(payload, 9, walEnd, 8, ts);
    ReadInt(payload, 17, sendTs, 8, msg);
    assert msg <= payload[25..];
    DecodesPrefix(payload[25..], w);
  }

  lemma {:induction false} KeepalivePrefix(payload: bytes, walEnd: nat, sendTs: int, reply: byte)
    requires walEnd < Pow256(8) && FitsSigned(sendTs, 8) && EncodeKeepalive(walEnd, sendTs, reply) <= payload
    ensures DecodeWal(payload) == Ok(Keepalive(walEnd, reply != 0))
  {
    hide Be, SignedBe, ByteAt, UintAt, IntAt;
    assert Stands(payload, 0, EncodeKeepalive(walEnd, sendTs, reply));
    ReadByte(payload, 0, LOWER_K, Be(walEnd, 8) + (SignedBe(sendTs, 8) + [reply]));
    ReadUint(payload, 1, walEnd, 8, SignedBe(sendTs, 8) + [reply]);
    ReadInt(payload, 9, sendTs, 8, [reply]);
    assert [reply] == [reply] + [];
    ReadByte(payload, 17, reply, []);
  }

  lemma {:induction false} DecodeXLog(walStart: nat, walEnd: nat, sendTs: int, w: Wire)
    requires walStart < Pow256(8) && walEnd < Pow256(8) && FitsSigned(sendTs, 8) && Fits(w)
    ensures DecodeWal(EncodeXLog(walStart, walEnd, sendTs, w)) == Ok(XLogData(walStart, walEnd, Meaning(w)))
  {
    XLogPrefix(EncodeXLog(walStart, walEnd, sendTs, w), walStart, walEnd, sendTs, w);
  }

  lemma {:induction false} DecodeKeepalive(walEnd: nat, sendTs: int, reply: byte)
    requires walEnd < Pow256(8) && FitsSigned(sendTs, 8)
    ensures DecodeWal(EncodeKeepalive(walEnd, sendTs, reply)) == Ok(Keepalive(walEnd, reply != 0))
  {
    KeepalivePrefix(EncodeKeepalive(walEnd, sendTs, reply), walEnd, sendTs, reply);
  }

  // ------------------------------------------------------------------ the cursor

  class Cursor {
    const buf: bytes
    var pos: nat

    ghost predicate Valid()
      reads this
    {
      pos <= |buf|
    }

    constructor (buf: bytes)
      ensures Valid() && this.buf == buf && pos == 0
    {
      this.buf := buf;
      pos := 0;
    }

    method Take(n: nat) returns (r: Result<bytes, DecodeError>)
      requires Valid()
      modifies this
      ensures Valid() && Reads(TakeAt(buf, old(pos), n, Short), r, pos)
      ensures r.Err? ==> pos == old(pos)
    {
      var end := pos + n;
      if end > |buf| {
        return Err(Short);
      }
      r := Ok(buf[pos..end]);
      pos := end;
    }

    method U8() returns (r: Result<byte, DecodeError>)
      requires Valid()
      modifies this
      ensures Valid() && Reads(ByteAt(buf, old(pos)), r, pos)
    {
      var s :- Take(1);
      r := Ok(s[0]);
    }

    method Uint(k: nat) returns (r: Result<nat, DecodeError>)
      requires Valid()
      modifies this
      ensures Valid() && Reads(UintAt(buf, old(pos), k), r, pos)
      ensures r.Ok? ==> r.value < Pow256(k)
    {
      var s :- Take(k);
      r := Ok(FromBe(s));
    }

    method Int(k: nat) returns (r: Result<int, DecodeError>)
      requires Valid()
      modifies this
      ensures Valid() && Reads(IntAt(buf, old(pos), k), r, pos)
    {
      var v :- Uint(k);
      r := Ok(Signed(v, k));
    }

    method Cstr() returns (r: Result<Text, DecodeError>)
      requires Valid()
      modifies this
      ensures Valid() && Reads(CstrAt(buf, old(pos)), r, pos)
    {
      var end := pos;
      while end < |buf| && buf[end] != 0
        invariant pos <= end <= |buf| && ZeroFrom(buf, pos) == ZeroFrom(buf, end)
      {
        end := end + 1;
      }
      if end == |buf| {
        return Err(Unterminated);
      }
      r := Ok(Utf8.Lossy(buf[pos..end]));
      pos := end + 1;
    }

    method Rest() returns (s: bytes)
      requires Valid()
      modifies this
      ensures s == buf[old(pos)..] && pos == |buf|
    {
      s := buf[pos..];
      pos := |buf|;
    }

    method Datum() returns (r: Result<TupleDatum, DecodeError>)
      requires Valid()
      modifies this
      ensures Valid() && Reads(DatumAt(buf, old(pos)), r, pos)
    {
      var kind :- U8();
      if kind == LOWER_N {
        return Ok(SqlNull);
      } else if kind == LOWER_U {
        return Ok(Unchanged);
      } else if kind != LOWER_T {
        return Err(BadKind(kind));
      }
      var len :- Int(4);
      if len < 0 {
        return Err(NegativeLength);
      }
      var s :- Take(len);
      r := Ok(Value(Utf8.Lossy(s)));
    }

    method ReadTupleData() returns (r: Result<Tuple, DecodeError>)
      requires Valid()
      modifies this
      ensures Valid() && Reads(TupleAt(buf, old(pos)), r, pos)
    {
      var n :- Uint(2);
      var cols: Tuple := [];
      ghost var start := pos;
      PrependNothing(DatumsAt(buf, pos, n));
      for i := 0 to n
        invariant Valid() && |cols| == i
        invariant DatumsAt(buf, start, n) == Prepended(cols, DatumsAt(buf, pos, n - i))
      {
        var d :- Datum();
        PrependMore(cols, d, DatumsAt(buf, pos, n - i - 1));
        cols := cols + [d];
      }
      assert cols + [] == cols;
      r := Ok(cols);
    }

    method ReadColumn() returns (r: Result<Text, DecodeError>)
      requires Valid()
      modifies this
      ensures Valid() && Reads(ColumnAt(buf, old(pos)), r, pos)
    {
      var _ :- U8();
      var name :- Cstr();
      var _ :- Uint(4);
      var _ :- Int(4);
      r := Ok(name);
    }

    method ReadColumns(n: nat) returns (r: Result<seq<Text>, DecodeError>)
      requires Valid()
      modifies this
      ensures Valid() && Reads(ColumnsAt(buf, old(pos), n), r, pos)
    {
      hide ColumnAt;
      var columns: seq<Text> := [];
      PrependNothing(ColumnsAt(buf, pos, n));
      for i := 0 to n
        invariant Valid() && |columns| == i
        invariant ColumnsAt(buf, old(pos), n) == Prepended(columns, ColumnsAt(buf, pos, n - i))
      {
        var column :- ReadColumn();
        PrependMore(columns, column, ColumnsAt(buf, pos, n - i - 1));
        columns := columns + [column];
      }
      assert columns + [] == columns;
      r := Ok(columns);
    }

    method ReadRelation() returns (r: Result<Msg, DecodeError>)
      requires Valid()
      modifies this
      ensures Valid() && r == RelationAt(buf, old(pos))
    {
      var relId :- Uint(4);
      var namespace :- Cstr();
      var name :- Cstr();
      var identity :- U8();
      var n :- Uint(2);
      var columns :- ReadColumns(n);
      r := Ok(Relation(relId, namespace, name, identity, columns));
    }

    /** One pgoutput message. */
    method ReadMsg() returns (r: Result<Msg, DecodeError>)
      requires Valid() && pos == 0
      modifies this
      ensures Valid() && r == Decode(buf)
    {
      var tag :- U8();
      if tag == B {
        var finalLsn :- Uint(8);
        var ts :- Int(8);
        var xid :- Uint(4);
        r := Ok(Begin(finalLsn, ts, xid));
      } else if tag == C {
        var _ :- U8();
        var _ :- Uint(8);
        var endLsn :- Uint(8);
        var ts :- Int(8);
        r := Ok(Commit(endLsn, ts));
      } else if tag == R {
        r := ReadRelation();
      } else if tag == I || tag == D || tag == U {
        r := ReadChange(tag);
      } else {
        r := Ok(Other(tag));
      }
    }

    method ReadChange(tag: byte) returns (r: Result<Msg, DecodeError>)
      requires Valid() && tag in {I, D, U}
      modifies this
      ensures Valid()
      ensures r == if tag == I then InsertAt(buf, old(pos)) else if tag == D then DeleteAt(buf, old(pos))
                   else UpdateAt(buf, old(pos))
    {
      var relId :- Uint(4);
      var kind :- U8();
      var oldTuple: Option<Tuple> := None;
      if tag == U && (kind == O || kind == K) {
        var before :- ReadTupleData();
        oldTuple := Some(before);
        kind :- U8();
      }
      if tag == D {
        if kind != O && kind != K {
          return Err(BadKind(kind));
        }
      } else if kind != N {
        return Err(BadKind(kind));
      }
      var tuple :- ReadTupleData();
      r := Ok(if tag == I then Insert(relId, tuple)
              else if tag == D then Delete(relId, tuple)
              else Update(relId, oldTuple, tuple));
    }
  }

  /** One payload of the stream. */
  method ReadWal(payload: bytes) returns (r: Result<WalMsg, DecodeError>)
    ensures r == DecodeWal(payload)
  {
    var c := new Cursor(payload);
    var tag :- c.U8();
    if tag == LOWER_W {
      var walStart :- c.Uint(8);
      var walEnd :- c.Uint(8);
      var _ :- c.Int(8);
      var body := c.Rest();
      var inner := new Cursor(body);
      var msg :- inner.ReadMsg();
      r := Ok(XLogData(walStart, walEnd, msg));
    } else if tag == LOWER_K {
      var walEnd :- c.Uint(8);
      var _ :- c.Int(8);
      var reply :- c.U8();
      r := Ok(Keepalive(walEnd, reply != 0));
    } else {
      r := Err(UnknownStream(tag));
    }
  }
}
