/** Which bytes the decoder accepts: exactly those that begin with a message of the format. */
module PgoutputAccepts {
  import opened Wrappers
  import opened Bytes
  import opened Words
  import opened Parsing
  import opened Pgoutput
  import Utf8

  lemma {:induction false} Joined(buf: bytes, p: nat, q: nat, r: nat)
    requires p <= q <= r <= |buf|
    ensures buf[p..q] + buf[q..r] == buf[p..r]
  {
  }

  lemma {:induction false} OneByte(buf: bytes, pos: nat)
    requires ByteAt(buf, pos).Ok?
    ensures pos < |buf| && ByteAt(buf, pos) == Ok((buf[pos], pos + 1)) && buf[pos..pos + 1] == [buf[pos]]
  {
  }

  lemma {:induction false} UintWritten(buf: bytes, pos: nat, k: nat)
    requires UintAt(buf, pos, k).Ok?
    ensures
      var (v, q) := UintAt(buf, pos, k).value;
      q == pos + k <= |buf| && v < Pow256(k) && buf[pos..q] == Be(v, k)
  {
    BytesOfBe(buf[pos..pos + k]);
  }

  lemma {:induction false} IntWritten(buf: bytes, pos: nat, k: nat)
    requires IntAt(buf, pos, k).Ok?
    ensures
      var (x, q) := IntAt(buf, pos, k).value;
      q == pos + k <= |buf| && FitsSigned(x, k) && buf[pos..q] == SignedBe(x, k)
  {
    UintWritten(buf, pos, k);
  }

  lemma {:induction false} CstrWritten(buf: bytes, pos: nat) returns (s: Text)
    requires pos <= |buf| && CstrAt(buf, pos).Ok?
    ensures
      var (t, q) := CstrAt(buf, pos).value;
      pos < q <= |buf| && FitsText(s) && t == Utf8.Lossy(s) && buf[pos..q] == s + [0]
  {
    s := buf[pos..ZeroFrom(buf, pos)];
  }

  lemma {:induction false} DatumWritten(buf: bytes, pos: nat) returns (d: TupleDatum)
    requires pos <= |buf| && DatumAt(buf, pos).Ok?
    ensures
      var (got, q) := DatumAt(buf, pos).value;
      pos < q <= |buf| && FitsDatum(d) && got == ReceivedDatum(d) && buf[pos..q] == EncDatum(d)
  {
    hide Be, Utf8.Lossy;
    OneByte(buf, pos);
    if buf[pos] == LOWER_N {
      d := SqlNull;
    } else if buf[pos] == LOWER_U {
      d := Unchanged;
    } else {
      IntWritten(buf, pos + 1, 4);
      var q := DatumAt(buf, pos).value.1;
      d := Value(buf[pos + 5..q]);
      Joined(buf, pos + 1, pos + 5, q);
      Joined(buf, pos, pos + 1, q);
    }
  }

  lemma {:induction false} DatumsWritten(buf: bytes, pos: nat, n: nat) returns (t: Tuple)
    requires pos <= |buf| && DatumsAt(buf, pos, n).Ok?
    ensures |t| == n && forall i :: 0 <= i < n ==> FitsDatum(t[i])
    ensures
      var (got, q) := DatumsAt(buf, pos, n).value;
      pos <= q <= |buf| && got == ReceivedTuple(t) && buf[pos..q] == EncDatums(t)
    decreases n
  {
    hide DatumAt, EncDatum, ReceivedDatum, FitsDatum;
    t := [];
    if n > 0 {
      var d := DatumWritten(buf, pos);
      var p := DatumAt(buf, pos).value.1;
      var rest := DatumsWritten(buf, p, n - 1);
      t := [d] + rest;
      assert t[1..] == rest;
      Joined(buf, pos, p, DatumsAt(buf, pos, n).value.1);
    }
  }

  lemma {:induction false} TupleWritten(buf: bytes, pos: nat) returns (t: Tuple)
    requires pos <= |buf| && TupleAt(buf, pos).Ok?
    ensures
      var (got, q) := TupleAt(buf, pos).value;
      pos <= q <= |buf| && FitsTuple(t) && got == ReceivedTuple(t) && buf[pos..q] == EncTuple(t)
  {
    hide DatumsAt, EncDatums, ReceivedTuple, Be;
    UintWritten(buf, pos, 2);
    t := DatumsWritten(buf, pos + 2, UintAt(buf, pos, 2).value.0);
    Joined(buf, pos, pos + 2, TupleAt(buf, pos).value.1);
  }

  lemma {:induction false} ColumnWritten(buf: bytes, pos: nat) returns (c: WireColumn)
    requires pos <= |buf| && ColumnAt(buf, pos).Ok?
    ensures
      var (got, q) := ColumnAt(buf, pos).value;
      pos < q <= |buf| && FitsColumn(c) && got == Utf8.Lossy(c.name) && buf[pos..q] == EncColumn(c)
  {
    hide CstrAt, UintAt, IntAt, Be, SignedBe, Utf8.Lossy;
    OneByte(buf, pos);
    var name := CstrWritten(buf, pos + 1);
    var q := CstrAt(buf, pos + 1).value.1;
    UintWritten(buf, q, 4);
    IntWritten(buf, q + 4, 4);
    c := WireColumn(buf[pos], name, UintAt(buf, q, 4).value.0, IntAt(buf, q + 4, 4).value.0);
    Joined(buf, q, q + 4, q + 8);
    Joined(buf, pos + 1, q, q + 8);
    Joined(buf, pos, pos + 1, q + 8);
  }

  lemma {:induction false} ColumnsWritten(buf: bytes, pos: nat, n: nat) returns (cs: seq<WireColumn>)
    requires pos <= |buf| && ColumnsAt(buf, pos, n).Ok?
    ensures |cs| == n && forall i :: 0 <= i < n ==> FitsColumn(cs[i])
    ensures
      var (got, q) := ColumnsAt(buf, pos, n).value;
      pos <= q <= |buf| && got == ReceivedTexts(Names(cs)) && buf[pos..q] == EncColumns(cs)
    decreases n
  {
    hide ColumnAt, EncColumn, FitsColumn, Utf8.Lossy;
    cs := [];
    if n > 0 {
      var c := ColumnWritten(buf, pos);
      var p := ColumnAt(buf, pos).value.1;
      var rest := ColumnsWritten(buf, p, n - 1);
      cs := [c] + rest;
      assert cs[1..] == rest;
      Joined(buf, pos, p, ColumnsAt(buf, pos, n).value.1);
    }
  }

  // ------------------------------------------------------------------ messages

  /** The buffer begins with this message, and says what the decoder found. */
  ghost predicate Begins(buf: bytes, w: Wire, m: Msg) {
    Fits(w) && Encode(w) <= buf && m == Meaning(w)
  }

  lemma {:induction false} FromPieces(buf: bytes, q: nat, rest: bytes)
    requires 1 <= q <= |buf| && buf[1..q] == rest
    ensures [buf[0]] + rest <= buf
  {
    assert buf[..q] == [buf[0]] + buf[1..q];
  }

  lemma {:induction false} BeginWritten(buf: bytes) returns (w: Wire)
    requires buf != [] && buf[0] == B && BeginAt(buf, 1).Ok?
    ensures Begins(buf, w, BeginAt(buf, 1).value)
  {
    hide UintAt, IntAt, Be, SignedBe;
    UintWritten(buf, 1, 8);
    IntWritten(buf, 9, 8);
    UintWritten(buf, 17, 4);
    w := WBegin(UintAt(buf, 1, 8).value.0, IntAt(buf, 9, 8).value.0, UintAt(buf, 17, 4).value.0);
    Joined(buf, 9, 17, 21);
    Joined(buf, 1, 9, 21);
    FromPieces(buf, 21, buf[1..21]);
  }

  lemma {:induction false} CommitWritten(buf: bytes) returns (w: Wire)
    requires buf != [] && buf[0] == C && CommitAt(buf, 1).Ok?
    ensures Begins(buf, w, CommitAt(buf, 1).value)
  {
    hide UintAt, IntAt, Be, SignedBe;
    OneByte(buf, 1);
    UintWritten(buf, 2, 8);
    UintWritten(buf, 10, 8);
    IntWritten(buf, 18, 8);
    w := WCommit(buf[1], UintAt(buf, 2, 8).value.0, UintAt(buf, 10, 8).value.0, IntAt(buf, 18, 8).value.0);
    Joined(buf, 10, 18, 26);
    Joined(buf, 2, 10, 26);
    Joined(buf, 1, 2, 26);
    FromPieces(buf, 26, buf[1..26]);
  }

  lemma {:induction false} RelationWritten(buf: bytes) returns (w: Wire)
    requires buf != [] && buf[0] == R && RelationAt(buf, 1).Ok?
    ensures Begins(buf, w, RelationAt(buf, 1).value)
  {
    hide UintAt, CstrAt, Be, ColumnsAt, EncColumns, Names, ReceivedTexts, Utf8.Lossy, FitsColumn;
    UintWritten(buf, 1, 4);
    var namespace := CstrWritten(buf, 5);
    var p := CstrAt(buf, 5).value.1;
    var name := CstrWritten(buf, p);
    var q := CstrAt(buf, p).value.1;
    OneByte(buf, q);
    UintWritten(buf, q + 1, 2);
    var n := UintAt(buf, q + 1, 2).value.0;
    var columns := ColumnsWritten(buf, q + 3, n);
    var end := ColumnsAt(buf, q + 3, n).value.1;
    w := WRelation(UintAt(buf, 1, 4).value.0, namespace, name, buf[q], columns);
    Joined(buf, q + 1, q + 3, end);
    Joined(buf, q, q + 1, end);
    Joined(buf, p, q, end);
    Joined(buf, 5, p, end);
    Joined(buf, 1, 5, end);
    FromPieces(buf, end, buf[1..end]);
  }

  lemma {:induction false} InsertWritten(buf: bytes) returns (w: Wire)
    requires buf != [] && buf[0] == I && InsertAt(buf, 1).Ok?
    ensures Begins(buf, w, InsertAt(buf, 1).value)
  {
    hide UintAt, TupleAt, Be, EncTuple, FitsTuple, ReceivedTuple;
    UintWritten(buf, 1, 4);
    OneByte(buf, 5);
    var after := TupleWritten(buf, 6);
    var end := TupleAt(buf, 6).value.1;
    w := WInsert(UintAt(buf, 1, 4).value.0, after);
    Joined(buf, 5, 6, end);
    Joined(buf, 1, 5, end);
    FromPieces(buf, end, buf[1..end]);
  }

  lemma {:induction false} DeleteWritten(buf: bytes) returns (w: Wire)
    requires buf != [] && buf[0] == D && DeleteAt(buf, 1).Ok?
    ensures Begins(buf, w, DeleteAt(buf, 1).value)
  {
    hide UintAt, TupleAt, Be, EncTuple, FitsTuple, ReceivedTuple;
    UintWritten(buf, 1, 4);
    OneByte(buf, 5);
    var before := TupleWritten(buf, 6);
    var end := TupleAt(buf, 6).value.1;
    w := WDelete(UintAt(buf, 1, 4).value.0, buf[5] == K, before);
    Joined(buf, 5, 6, end);
    Joined(buf, 1, 5, end);
    FromPieces(buf, end, buf[1..end]);
  }

  lemma {:induction false} PlainUpdateWritten(buf: bytes) returns (w: Wire)
    requires |buf| > 5 && buf[0] == U && UpdateAt(buf, 1).Ok? && buf[5] != O && buf[5] != K
    ensures Begins(buf, w, UpdateAt(buf, 1).value)
  {
    hide UintAt, TupleAt, Be, EncTuple, FitsTuple, ReceivedTuple;
    UintWritten(buf, 1, 4);
    OneByte(buf, 5);
    var after := TupleWritten(buf, 6);
    var end := TupleAt(buf, 6).value.1;
    w := WUpdate(UintAt(buf, 1, 4).value.0, None, after);
    Joined(buf, 5, 6, end);
    Joined(buf, 1, 5, end);
    FromPieces(buf, end, buf[1..end]);
  }

  /** The parts of an update with an old tuple: the tuple, and where the marker after it stands. */
  lemma {:induction false} OldParts(buf: bytes) returns (before: Tuple, q: nat)
    requires |buf| > 5 && UpdateAt(buf, 1).Ok? && (buf[5] == O || buf[5] == K)
    ensures FitsTuple(before) && 6 <= q < |buf| && buf[6..q] == EncTuple(before) && buf[q] == N
    ensures TupleAt(buf, q + 1).Ok? && UintAt(buf, 1, 4).Ok?
    ensures
      UpdateAt(buf, 1) ==
        Ok(Update(UintAt(buf, 1, 4).value.0, Some(ReceivedTuple(before)), TupleAt(buf, q + 1).value.0))
  {
    hide UintAt, TupleAt, EncTuple, FitsTuple, ReceivedTuple;
    UintWritten(buf, 1, 4);
    OneByte(buf, 5);
    before := TupleWritten(buf, 6);
    q := TupleAt(buf, 6).value.1;
    OneByte(buf, q);
  }

  lemma {:induction false} OldPieces(buf: bytes, q: nat, end: nat, before: Tuple, after: Tuple)
    requires 6 <= q < end <= |buf| && (buf[5] == O || buf[5] == K) && buf[q] == N
    requires FitsTuple(before) && FitsTuple(after)
    requires buf[6..q] == EncTuple(before) && buf[q + 1..end] == EncTuple(after)
    ensures buf[5..end] == EncOldAndNew(buf[5] == K, before, after)
  {
    hide EncTuple, FitsTuple;
    Joined(buf, q, q + 1, end);
    Joined(buf, 6, q, end);
    Joined(buf, 5, 6, end);
    assert buf[5..6] == [buf[5]] && buf[q..q + 1] == [N];
  }

  lemma {:induction false} OldUpdateWritten(buf: bytes) returns (w: Wire)
    requires |buf| > 5 && buf[0] == U && UpdateAt(buf, 1).Ok? && (buf[5] == O || buf[5] == K)
    ensures Begins(buf, w, UpdateAt(buf, 1).value)
  {
    hide UpdateAt, UintAt, TupleAt, Be, EncTuple, EncOldAndNew, FitsTuple, ReceivedTuple;
    var before, q := OldParts(buf);
    UintWritten(buf, 1, 4);
    var after := TupleWritten(buf, q + 1);
    var end := TupleAt(buf, q + 1).value.1;
    w := WUpdate(UintAt(buf, 1, 4).value.0, Some((buf[5] == K, before)), after);
    OldPieces(buf, q, end, before, after);
    Joined(buf, 1, 5, end);
    FromPieces(buf, end, buf[1..end]);
  }

  lemma {:induction false} UpdateWritten(buf: bytes) returns (w: Wire)
    requires buf != [] && buf[0] == U && UpdateAt(buf, 1).Ok?
    ensures Begins(buf, w, UpdateAt(buf, 1).value)
  {
    hide TupleAt, Begins;
    OneByte(buf, 5);
    if buf[5] == O || buf[5] == K {
      w := OldUpdateWritten(buf);
    } else {
      w := PlainUpdateWritten(buf);
    }
  }

  /** Whatever is decoded was written: the bytes begin with a message of the format that says so. */
  lemma {:induction false} DecodedWasWritten(buf: bytes) returns (w: Wire)
    requires Decode(buf).Ok?
    ensures Begins(buf, w, Decode(buf).value)
  {
    hide BeginAt, CommitAt, RelationAt, InsertAt, DeleteAt, UpdateAt, Begins;
    OneByte(buf, 0);
    if buf[0] == B {
      w := BeginWritten(buf);
    } else if buf[0] == C {
      w := CommitWritten(buf);
    } else if buf[0] == R {
      w := RelationWritten(buf);
    } else if buf[0] == I {
      w := InsertWritten(buf);
    } else if buf[0] == D {
      w := DeleteWritten(buf);
    } else if buf[0] == U {
      w := UpdateWritten(buf);
    } else {
      w := OtherWritten(buf);
    }
  }

  lemma {:induction false} OtherWritten(buf: bytes) returns (w: Wire)
    requires buf != [] && buf[0] !in {B, C, D, I, R, U}
    ensures Begins(buf, w, Other(buf[0]))
  {
    w := WOther(buf[0], buf[1..]);
    assert buf == [buf[0]] + buf[1..];
  }

  /** The decoder accepts exactly the bytes that begin with a message of the format, and gives what that message
      says. */
  lemma {:induction false} DecodesIff(buf: bytes, m: Msg)
    ensures Decode(buf) == Ok(m) <==> exists w :: Begins(buf, w, m)
  {
    hide Decode, Encode, Fits, Meaning;
    if Decode(buf) == Ok(m) {
      var w := DecodedWasWritten(buf);
    }
    if w :| Begins(buf, w, m) {
      DecodesPrefix(buf, w);
    }
  }

  /** The payload begins with an envelope of the stream, around a message or a keepalive, that says so. */
  ghost predicate Wraps(payload: bytes, sendTs: int, w: Wire, reply: byte, m: WalMsg) {
    && FitsSigned(sendTs, 8)
    && match m
       case XLogData(walStart, walEnd, msg) =>
         && walStart < Pow256(8) && walEnd < Pow256(8) && Fits(w) && msg == Meaning(w)
         && EncodeXLog(walStart, walEnd, sendTs, w) <= payload
       case Keepalive(walEnd, asked) =>
         && walEnd < Pow256(8) && (asked <==> reply != 0)
         && EncodeKeepalive(walEnd, sendTs, reply) <= payload
  }

  lemma {:induction false} PayloadWritten(payload: bytes) returns (sendTs: int, w: Wire, reply: byte)
    requires DecodeWal(payload).Ok?
    ensures Wraps(payload, sendTs, w, reply, DecodeWal(payload).value)
  {
    hide UintAt, IntAt, Be, SignedBe, Decode, Encode, Fits, Meaning;
    OneByte(payload, 0);
    UintWritten(payload, 1, 8);
    w, reply := WOther(0, []), 0;
    if payload[0] == LOWER_W {
      UintWritten(payload, 9, 8);
      IntWritten(payload, 17, 8);
      sendTs := IntAt(payload, 17, 8).value.0;
      w := DecodedWasWritten(payload[25..]);
      var end := 25 + |Encode(w)|;
      assert payload[25..end] == payload[25..][..|Encode(w)|] == Encode(w);
      Joined(payload, 17, 25, end);
      Joined(payload, 9, 17, end);
      Joined(payload, 1, 9, end);
      FromPieces(payload, end, payload[1..end]);
    } else {
      IntWritten(payload, 9, 8);
      OneByte(payload, 17);
      sendTs, reply := IntAt(payload, 9, 8).value.0, payload[17];
      Joined(payload, 9, 17, 18);
      Joined(payload, 1, 9, 18);
      FromPieces(payload, 18, payload[1..18]);
    }
  }

  /** The same for payloads of the stream. */
  lemma {:induction false} PayloadIff(payload: bytes, m: WalMsg)
    ensures DecodeWal(payload) == Ok(m) <==> exists sendTs, w, reply :: Wraps(payload, sendTs, w, reply, m)
  {
    hide DecodeWal, EncodeXLog, EncodeKeepalive, Fits, Meaning, FitsSigned;
    if DecodeWal(payload) == Ok(m) {
      var sendTs, w, reply := PayloadWritten(payload);
    }
    if sendTs, w, reply :| Wraps(payload, sendTs, w, reply, m) {
      match m
      case XLogData(walStart, walEnd, _) => XLogPrefix(payload, walStart, walEnd, sendTs, w);
      case Keepalive(walEnd, _) => KeepalivePrefix(payload, walEnd, sendTs, reply);
    }
  }

  // ------------------------------------------------------------------ what is refused, and how

  ghost predicate AnyOf(b: byte, chars: seq<char>)
    requires forall i :: 0 <= i < |chars| ==> chars[i] < 128 as char
  {
    exists i :: 0 <= i < |chars| && b == Ascii(chars[i])
  }

  /** Which marker may stand before the first tuple of a change. */
  lemma {:induction false} MarkerRefused(buf: bytes)
    requires |buf| > 5
    requires
      || (buf[0] == Ascii('I') && buf[5] != Ascii('N'))
      || (buf[0] == Ascii('D') && !AnyOf(buf[5], "KO"))
      || (buf[0] == Ascii('U') && !AnyOf(buf[5], "KON"))
    ensures Decode(buf) == Err(BadKind(buf[5]))
  {
    hide FromBe, TupleAt;
    assert "KON"[0] == 'K' && "KON"[1] == 'O' && "KON"[2] == 'N' && "KO"[0] == 'K' && "KO"[1] == 'O';
  }

  /** How a column of a tuple is refused. */
  lemma {:induction false} DatumRefused(buf: bytes, pos: nat)
    requires pos <= |buf|
    ensures pos == |buf| ==> DatumAt(buf, pos) == Err(Short)
    ensures pos < |buf| && !AnyOf(buf[pos], "nut") ==> DatumAt(buf, pos) == Err(BadKind(buf[pos]))
    ensures pos < |buf| && buf[pos] == Ascii('t') && pos + 5 > |buf| ==> DatumAt(buf, pos) == Err(Short)
    ensures pos + 5 <= |buf| && buf[pos] == Ascii('t') ==>
      var len := FromBe(buf[pos + 1..pos + 5]);
      && (len >= 0x8000_0000 ==> DatumAt(buf, pos) == Err(NegativeLength))
      && (len < 0x8000_0000 && pos + 5 + len > |buf| ==> DatumAt(buf, pos) == Err(Short))
  {
    hide FromBe, Utf8.Lossy;
    Powers();
    assert "nut"[0] == 'n' && "nut"[1] == 'u' && "nut"[2] == 't';
  }

  /** A message cut short inside its part of fixed size, or a relation whose first name does not end. */
  lemma {:induction false} CutRefused(buf: bytes)
    ensures buf == [] ==> Decode(buf) == Err(Short)
    ensures 0 < |buf| < 21 && buf[0] == Ascii('B') ==> Decode(buf) == Err(Short)
    ensures 0 < |buf| < 26 && buf[0] == Ascii('C') ==> Decode(buf) == Err(Short)
    ensures 0 < |buf| < 5 && AnyOf(buf[0], "RIDU") ==> Decode(buf) == Err(Short)
    ensures |buf| >= 5 && buf[0] == Ascii('R') && 0 !in buf[5..] ==> Decode(buf) == Err(Unterminated)
  {
    hide FromBe, Utf8.Lossy;
    if |buf| >= 5 && buf[0] == Ascii('R') && 0 !in buf[5..] {
      forall i | 5 <= i < |buf| ensures buf[i] != 0 {
        assert buf[i] == buf[5..][i - 5];
      }
    }
  }

  /** Payloads of the stream: an unknown type, or one cut short in its header. */
  lemma {:induction false} PayloadRefused(payload: bytes)
    ensures payload == [] ==> DecodeWal(payload) == Err(Short)
    ensures payload != [] && !AnyOf(payload[0], "wk") ==> DecodeWal(payload) == Err(UnknownStream(payload[0]))
    ensures 0 < |payload| < 25 && payload[0] == Ascii('w') ==> DecodeWal(payload) == Err(Short)
    ensures 0 < |payload| < 18 && payload[0] == Ascii('k') ==> DecodeWal(payload) == Err(Short)
    ensures |payload| >= 25 && payload[0] == Ascii('w') && Decode(payload[25..]).Err? ==>
      DecodeWal(payload) == Err(Decode(payload[25..]).error)
  {
    hide FromBe, Decode;
    assert "wk"[0] == 'w' && "wk"[1] == 'k';
  }
}
