/** Which files load: exactly those in the documented layout with the right checksum, whatever program wrote them and in
    whatever order it put the columns. A number in a file is its eight bytes; all of them are numbers. */
module MirrorFileAccepts {
  import opened Wrappers
  import opened Bytes
  import opened Words
  import opened MirrorTable
  import opened Fnv
  import opened Parsing
  import opened MirrorFile
  import Utf8
  import M = Mirror

  /** A column as it stands in a file, numbers as their bits. */
  datatype RawColumn =
    | RawScalar(bits: seq<nat>)
    | RawDict(codes: seq<nat>, dict: seq<Text>)
    | RawKey(rows: seq<seq<nat>>, ncols: nat)

  type RawEntry = (Text, RawColumn)

  datatype Raw = Raw(lastLsn: nat, rowsApplied: nat, txsApplied: nat, m: M.TableMap, entries: seq<RawEntry>)

  // ------------------------------------------------------------------ the layout

  ghost function Bits(v: seq<nat>): bytes {
    if v == [] then [] else Le(v[0], 8) + Bits(v[1..])
  }

  ghost function BitRows(rows: seq<seq<nat>>): bytes {
    if rows == [] then [] else Bits(rows[0]) + BitRows(rows[1..])
  }

  ghost function Codes(v: seq<nat>): bytes {
    if v == [] then [] else Le(v[0], 4) + Codes(v[1..])
  }

  ghost function RawContent(col: RawColumn): bytes {
    match col
    case RawScalar(bits) => [1] + (Le(|bits|, 8) + Bits(bits))
    case RawDict(codes, dict) => [2] + (Le(|codes|, 8) + (Codes(codes) + TextsEnc(dict)))
    case RawKey(rows, ncols) => [3] + (Le(|rows|, 8) + (Le(ncols, 8) + BitRows(rows)))
  }

  ghost function RawEntries(es: seq<RawEntry>): bytes {
    if es == [] then [] else (TextEnc(es[0].0) + RawContent(es[0].1)) + RawEntries(es[1..])
  }

  ghost function RawBody(raw: Raw): bytes {
    Ascii("BRCDCM01") + (Le(raw.lastLsn, 8) + (Le(raw.rowsApplied, 8) + (Le(raw.txsApplied, 8) +
      (MapEnc(raw.m) + (Le(|raw.entries|, 4) + RawEntries(raw.entries))))))
  }

  ghost function RawFile(raw: Raw): bytes {
    RawBody(raw) + Le(Fnv1a(RawBody(raw)), 8)
  }

  // ------------------------------------------------------------------ what fits, and what it means

  ghost predicate FitBits(v: seq<nat>) {
    forall i :: 0 <= i < |v| ==> v[i] < Pow256(8)
  }

  /** The lengths of a matrix, and their product, are at most 2^63 - 1. */
  ghost predicate IsShape(n: nat, ncols: nat) {
    n <= 0x7FFF_FFFF_FFFF_FFFF && ncols <= 0x7FFF_FFFF_FFFF_FFFF && n * ncols <= 0x7FFF_FFFF_FFFF_FFFF
  }

  /** Codes index the dictionary, and rows of numbers have the width and the shape of a matrix. */
  ghost predicate FitsRaw(col: RawColumn) {
    match col
    case RawScalar(bits) => |bits| < Pow256(8) && FitBits(bits)
    case RawDict(codes, dict) =>
      |codes| < Pow256(8) && FitsTexts(dict) && forall i :: 0 <= i < |codes| ==> codes[i] < |dict|
    case RawKey(rows, ncols) =>
      && |rows| < Pow256(8) && ncols < Pow256(8) && IsShape(|rows|, ncols)
      && forall i :: 0 <= i < |rows| ==> |rows[i]| == ncols && FitBits(rows[i])
  }

  ghost predicate FitsEntries(es: seq<RawEntry>) {
    forall i :: 0 <= i < |es| ==> FitsText(es[i].0) && FitsRaw(es[i].1)
  }

  ghost predicate FitsFile(raw: Raw) {
    && raw.lastLsn < Pow256(8) && raw.rowsApplied < Pow256(8) && raw.txsApplied < Pow256(8)
    && FitsNames(raw.m) && |raw.entries| < Pow256(4) && FitsEntries(raw.entries)
  }

  ghost function Numbers(c: Codec, v: seq<nat>): (r: seq<real>)
    ensures |r| == |v| && forall i :: 0 <= i < |r| ==> r[i] == c.fromBits(v[i])
  {
    seq(|v|, i requires 0 <= i < |v| => c.fromBits(v[i]))
  }

  ghost function NumberRows(c: Codec, rows: seq<seq<nat>>): (r: seq<seq<real>>)
    ensures |r| == |rows| && forall i :: 0 <= i < |r| ==> r[i] == Numbers(c, rows[i])
  {
    seq(|rows|, i requires 0 <= i < |rows| => Numbers(c, rows[i]))
  }

  ghost function Decoded(c: Codec, col: RawColumn): Column {
    match col
    case RawScalar(bits) => ScalarF64(Numbers(c, bits))
    case RawDict(codes, dict) => DictU32(codes, dict)
    case RawKey(rows, ncols) => KeyF64(NumberRows(c, rows), ncols)
  }

  ghost function DecodedAll(c: Codec, es: seq<RawEntry>): (r: seq<Entry>)
    ensures |r| == |es| && forall i :: 0 <= i < |r| ==> r[i] == (es[i].0, Decoded(c, es[i].1))
  {
    seq(|es|, i requires 0 <= i < |es| => (es[i].0, Decoded(c, es[i].1)))
  }

  /** What is loaded; of two columns of one name the later one counts. */
  ghost function Meant(c: Codec, raw: Raw): Image {
    Image(raw.m, M.State(ToColumns(DecodedAll(c, raw.entries)), raw.rowsApplied, raw.txsApplied, raw.lastLsn))
  }

  lemma {:induction false} CellsIs(n: nat, ncols: nat)
    ensures Cells(n, ncols) <= MOST_CELLS <==> IsShape(n, ncols)
  {
    var p := n * ncols;
    if n > 0 && ncols > 0 {
      assert Cells(n, ncols) == p && n <= p && ncols <= p by {
        assert n * ncols == n + n * (ncols - 1) == ncols + ncols * (n - 1);
      }
    }
  }

  // ------------------------------------------------------------------ what was read, was written

  lemma {:induction false} Joined(buf: bytes, p: nat, q: nat, r: nat)
    requires p <= q <= r <= |buf|
    ensures buf[p..q] + buf[q..r] == buf[p..r]
  {
  }

  lemma {:induction false} UintWritten(buf: bytes, pos: nat, k: nat)
    requires UintAt(buf, pos, k).Ok?
    ensures
      var (v, q) := UintAt(buf, pos, k).value;
      q == pos + k <= |buf| && v < Pow256(k) && buf[pos..q] == Le(v, k)
  {
    BytesOfLe(buf[pos..pos + k]);
  }

  lemma {:induction false} TextWritten(buf: bytes, pos: nat)
    requires TextAt(buf, pos).Ok?
    ensures
      var (s, q) := TextAt(buf, pos).value;
      pos <= q <= |buf| && FitsText(s) && buf[pos..q] == TextEnc(s)
  {
    hide Le, Utf8.Valid;
    UintWritten(buf, pos, 4);
    Joined(buf, pos, pos + 4, TextAt(buf, pos).value.1);
  }

  lemma {:induction false} TextListWritten(buf: bytes, pos: nat, n: nat)
    requires pos <= |buf| && ListAt(TextRead, buf, pos, n).Ok?
    ensures
      var (v, q) := ListAt(TextRead, buf, pos, n).value;
      && pos <= q <= |buf| && (forall i :: 0 <= i < n ==> FitsText(v[i])) && buf[pos..q] == EncList(TextEnc, v)
    decreases n
  {
    hide TextAt, TextEnc, FitsText;
    if n > 0 {
      TextWritten(buf, pos);
      var p := TextAt(buf, pos).value.1;
      TextListWritten(buf, p, n - 1);
      Joined(buf, pos, p, ListAt(TextRead, buf, pos, n).value.1);
    }
  }

  lemma {:induction false} TextsWritten(buf: bytes, pos: nat)
    requires TextsAt(buf, pos).Ok?
    ensures
      var (v, q) := TextsAt(buf, pos).value;
      pos <= q <= |buf| && FitsTexts(v) && buf[pos..q] == TextsEnc(v)
  {
    hide Le, EncList, FitsText;
    UintWritten(buf, pos, 4);
    TextListWritten(buf, pos + 4, UintAt(buf, pos, 4).value.0);
    Joined(buf, pos, pos + 4, TextsAt(buf, pos).value.1);
  }

  lemma {:induction false} CodesWritten(buf: bytes, pos: nat, n: nat)
    requires pos <= |buf| && ListAt(CodeRead, buf, pos, n).Ok?
    ensures
      var (v, q) := ListAt(CodeRead, buf, pos, n).value;
      pos <= q <= |buf| && buf[pos..q] == Codes(v)
    decreases n
  {
    hide Le, UintAt;
    if n > 0 {
      UintWritten(buf, pos, 4);
      CodesWritten(buf, pos + 4, n - 1);
      Joined(buf, pos, pos + 4, ListAt(CodeRead, buf, pos, n).value.1);
    }
  }

  lemma {:induction false} FirstNumber(c: Codec, buf: bytes, pos: nat, n: nat)
    requires n > 0 && ListAt(F64Read(c), buf, pos, n).Ok?
    ensures UintAt(buf, pos, 8).Ok?
    ensures
      var (bits, p) := UintAt(buf, pos, 8).value;
      var rest := ListAt(F64Read(c), buf, p, n - 1);
      rest.Ok? && ListAt(F64Read(c), buf, pos, n) == Ok(([c.fromBits(bits)] + rest.value.0, rest.value.1))
  {
    hide UintAt;
    assert F64Read(c)(buf, pos) == F64At(c, buf, pos);
  }

  lemma {:induction false} NumbersWritten(c: Codec, buf: bytes, pos: nat, n: nat) returns (bits: seq<nat>)
    requires pos <= |buf| && ListAt(F64Read(c), buf, pos, n).Ok?
    ensures
      var (v, q) := ListAt(F64Read(c), buf, pos, n).value;
      && pos <= q <= |buf| && |bits| == n && FitBits(bits) && v == Numbers(c, bits) && buf[pos..q] == Bits(bits)
    decreases n
  {
    hide Le, UintAt, F64Read, Numbers;
    bits := [];
    if n > 0 {
      FirstNumber(c, buf, pos, n);
      UintWritten(buf, pos, 8);
      var first := UintAt(buf, pos, 8).value.0;
      var rest := NumbersWritten(c, buf, pos + 8, n - 1);
      bits := [first] + rest;
      assert bits[1..] == rest;
      Joined(buf, pos, pos + 8, ListAt(F64Read(c), buf, pos, n).value.1);
    }
  }

  lemma {:induction false} FirstRow(c: Codec, ncols: nat, buf: bytes, pos: nat, n: nat)
    requires n > 0 && ListAt(RowRead(c, ncols), buf, pos, n).Ok?
    ensures ListAt(F64Read(c), buf, pos, ncols).Ok?
    ensures
      var (row, p) := ListAt(F64Read(c), buf, pos, ncols).value;
      var rest := ListAt(RowRead(c, ncols), buf, p, n - 1);
      rest.Ok? && ListAt(RowRead(c, ncols), buf, pos, n) == Ok(([row] + rest.value.0, rest.value.1))
  {
    hide F64Read;
    assert RowRead(c, ncols)(buf, pos) == ListAt(F64Read(c), buf, pos, ncols);
  }

  lemma {:induction false} RowsWritten(c: Codec, ncols: nat, buf: bytes, pos: nat, n: nat) returns (rows: seq<seq<nat>>)
    requires pos <= |buf| && ListAt(RowRead(c, ncols), buf, pos, n).Ok?
    ensures |rows| == n && forall i :: 0 <= i < n ==> |rows[i]| == ncols && FitBits(rows[i])
    ensures
      var (v, q) := ListAt(RowRead(c, ncols), buf, pos, n).value;
      pos <= q <= |buf| && v == NumberRows(c, rows) && buf[pos..q] == BitRows(rows)
    decreases n
  {
    hide FitBits, Bits, Numbers, F64Read, RowRead, NumberRows;
    rows := [];
    if n > 0 {
      FirstRow(c, ncols, buf, pos, n);
      var row := NumbersWritten(c, buf, pos, ncols);
      var p := ListAt(F64Read(c), buf, pos, ncols).value.1;
      var rest := RowsWritten(c, ncols, buf, p, n - 1);
      rows := [row] + rest;
      assert rows[1..] == rest;
      Joined(buf, pos, p, ListAt(RowRead(c, ncols), buf, pos, n).value.1);
    }
  }

  lemma {:induction false} ContentWritten(c: Codec, buf: bytes, pos: nat) returns (raw: RawColumn)
    requires ContentAt(c, buf, pos).Ok?
    ensures
      var (col, q) := ContentAt(c, buf, pos).value;
      pos <= q <= |buf| && FitsRaw(raw) && col == Decoded(c, raw) && buf[pos..q] == RawContent(raw)
  {
    hide ListAt, UintAt, TextsAt, Le, Bits, BitRows, Codes, TextsEnc, FitsTexts, FitBits, Numbers, NumberRows, IsShape, Cells;
    var p, q := pos + 1, ContentAt(c, buf, pos).value.1;
    assert buf[pos..p] == [buf[pos]];
    UintWritten(buf, p, 8);
    var n := UintAt(buf, p, 8).value.0;
    if buf[pos] == TAG_SCALAR {
      var bits := NumbersWritten(c, buf, p + 8, n);
      raw := RawScalar(bits);
    } else if buf[pos] == TAG_DICT {
      CodesWritten(buf, p + 8, n);
      var (codes, r) := ListAt(CodeRead, buf, p + 8, n).value;
      TextsWritten(buf, r);
      raw := RawDict(codes, TextsAt(buf, r).value.0);
      Joined(buf, p + 8, r, q);
    } else {
      UintWritten(buf, p + 8, 8);
      var ncols := UintAt(buf, p + 8, 8).value.0;
      CellsIs(n, ncols);
      var rows := RowsWritten(c, ncols, buf, p + 16, n);
      raw := RawKey(rows, ncols);
      Joined(buf, p + 8, p + 16, q);
    }
    Joined(buf, p, p + 8, q);
    Joined(buf, pos, p, q);
  }

  lemma {:induction false} FirstEntry(c: Codec, buf: bytes, pos: nat, n: nat)
    requires n > 0 && ListAt(EntryRead(c), buf, pos, n).Ok?
    ensures TextAt(buf, pos).Ok? && ContentAt(c, buf, TextAt(buf, pos).value.1).Ok?
    ensures
      var (name, p) := TextAt(buf, pos).value;
      var (col, q) := ContentAt(c, buf, p).value;
      var rest := ListAt(EntryRead(c), buf, q, n - 1);
      rest.Ok? && ListAt(EntryRead(c), buf, pos, n) == Ok(([(name, col)] + rest.value.0, rest.value.1))
  {
    hide TextAt, ContentAt;
    assert EntryRead(c)(buf, pos) == EntryAt(c, buf, pos);
  }

  lemma {:induction false} EntriesWritten(c: Codec, buf: bytes, pos: nat, n: nat) returns (es: seq<RawEntry>)
    requires pos <= |buf| && ListAt(EntryRead(c), buf, pos, n).Ok?
    ensures |es| == n && FitsEntries(es)
    ensures
      var (got, q) := ListAt(EntryRead(c), buf, pos, n).value;
      pos <= q <= |buf| && got == DecodedAll(c, es) && buf[pos..q] == RawEntries(es)
    decreases n
  {
    hide TextAt, ContentAt, EntryRead, TextEnc, RawContent, FitsText, FitsRaw, Decoded, DecodedAll;
    es := [];
    if n > 0 {
      FirstEntry(c, buf, pos, n);
      TextWritten(buf, pos);
      var (name, p) := TextAt(buf, pos).value;
      var raw := ContentWritten(c, buf, p);
      var q := ContentAt(c, buf, p).value.1;
      var rest := EntriesWritten(c, buf, q, n - 1);
      es := [(name, raw)] + rest;
      assert es[1..] == rest;
      Joined(buf, pos, p, q);
      Joined(buf, pos, q, ListAt(EntryRead(c), buf, pos, n).value.1);
    }
  }

  lemma {:induction false} MapWritten(buf: bytes, pos: nat)
    requires MapAt(buf, pos).Ok?
    ensures
      var (m, q) := MapAt(buf, pos).value;
      pos <= q <= |buf| && FitsNames(m) && buf[pos..q] == MapEnc(m)
  {
    hide TextAt, TextsAt, TextEnc, TextsEnc, FitsText, FitsTexts;
    TextWritten(buf, pos);
    var p := TextAt(buf, pos).value.1;
    TextWritten(buf, p);
    var p1 := TextAt(buf, p).value.1;
    TextWritten(buf, p1);
    var p2 := TextAt(buf, p1).value.1;
    TextsWritten(buf, p2);
    var p3 := TextsAt(buf, p2).value.1;
    TextsWritten(buf, p3);
    var p4 := TextsAt(buf, p3).value.1;
    TextsWritten(buf, p4);
    var q := MapAt(buf, pos).value.1;
    Joined(buf, p3, p4, q);
    Joined(buf, p2, p3, q);
    Joined(buf, p1, p2, q);
    Joined(buf, p, p1, q);
    Joined(buf, pos, p, q);
  }

  lemma {:induction false} BodyPieces(body: bytes, raw: Raw, p: nat)
    requires 32 <= p <= p + 4 <= |body| && body[..8] == Ascii("BRCDCM01")
    requires body[8..16] == Le(raw.lastLsn, 8) && body[16..24] == Le(raw.rowsApplied, 8)
    requires body[24..32] == Le(raw.txsApplied, 8) && body[32..p] == MapEnc(raw.m)
    requires body[p..p + 4] == Le(|raw.entries|, 4) && body[p + 4..|body|] == RawEntries(raw.entries)
    ensures body == RawBody(raw)
  {
    hide Le, MapEnc, RawEntries, Ascii;
    var q := |body|;
    Joined(body, p, p + 4, q);
    Joined(body, 32, p, q);
    Joined(body, 24, 32, q);
    Joined(body, 16, 24, q);
    Joined(body, 8, 16, q);
    Joined(body, 0, 8, q);
    assert body[0..q] == body && body[0..8] == body[..8];
  }

  lemma {:induction false} BodyWritten(c: Codec, body: bytes) returns (raw: Raw)
    requires |body| >= 8 && body[..8] == MAGIC && ParseBody(c, body).Ok?
    ensures FitsFile(raw) && body == RawBody(raw) && ParseBody(c, body) == Ok(Meant(c, raw))
  {
    hide UintAt, MapAt, ListAt, Le, MapEnc, RawEntries, FitsNames, FitsEntries, ToColumns, DecodedAll, Ascii, RawBody;
    MagicIs();
    UintWritten(body, 8, 8);
    UintWritten(body, 16, 8);
    UintWritten(body, 24, 8);
    MapWritten(body, 32);
    var p := MapAt(body, 32).value.1;
    UintWritten(body, p, 4);
    var n := UintAt(body, p, 4).value.0;
    var es := EntriesWritten(c, body, p + 4, n);
    raw := Raw(UintAt(body, 8, 8).value.0, UintAt(body, 16, 8).value.0, UintAt(body, 24, 8).value.0,
               MapAt(body, 32).value.0, es);
    BodyPieces(body, raw, p);
  }

  lemma {:induction false} FileWritten(c: Codec, file: bytes) returns (raw: Raw)
    requires Load(c, file).Ok?
    ensures FitsFile(raw) && file == RawFile(raw) && Load(c, file) == Ok(Meant(c, raw))
  {
    hide ParseBody, Fnv1a, Le, FromLe, RawBody, FitsFile, Meant;
    var n := |file| - 8;
    assert file[..n][..8] == file[..8];
    raw := BodyWritten(c, file[..n]);
    BytesOfLe(file[n..]);
    assert file == file[..n] + file[n..];
  }

  // ------------------------------------------------------------------ what is written, is read

  lemma {:induction false} ReadBits(c: Codec, bits: seq<nat>, buf: bytes, pos: nat)
    requires FitBits(bits) && Stands(buf, pos, Bits(bits))
    ensures ListAt(F64Read(c), buf, pos, |bits|) == Ok((Numbers(c, bits), pos + |Bits(bits)|))
    decreases |bits|
  {
    hide Le, UintAt, Stands;
    if bits != [] {
      StandsSplit(buf, pos, Le(bits[0], 8), Bits(bits[1..]));
      ReadUint(buf, pos, bits[0], 8);
      ReadBits(c, bits[1..], buf, pos + 8);
      assert F64Read(c)(buf, pos) == F64At(c, buf, pos);
      assert Numbers(c, bits) == [c.fromBits(bits[0])] + Numbers(c, bits[1..]);
    }
  }

  lemma {:induction false} ReadBitRows(c: Codec, ncols: nat, rows: seq<seq<nat>>, buf: bytes, pos: nat)
    requires forall i :: 0 <= i < |rows| ==> |rows[i]| == ncols && FitBits(rows[i])
    requires Stands(buf, pos, BitRows(rows))
    ensures ListAt(RowRead(c, ncols), buf, pos, |rows|) == Ok((NumberRows(c, rows), pos + |BitRows(rows)|))
    decreases |rows|
  {
    hide Stands, Bits, FitBits, Numbers, F64Read;
    if rows != [] {
      StandsSplit(buf, pos, Bits(rows[0]), BitRows(rows[1..]));
      ReadBits(c, rows[0], buf, pos);
      ReadBitRows(c, ncols, rows[1..], buf, pos + |Bits(rows[0])|);
      assert RowRead(c, ncols)(buf, pos) == ListAt(F64Read(c), buf, pos, ncols);
      assert NumberRows(c, rows) == [Numbers(c, rows[0])] + NumberRows(c, rows[1..]);
    }
  }

  lemma {:induction false} ReadCodes(codes: seq<nat>, buf: bytes, pos: nat)
    requires Stands(buf, pos, Codes(codes)) && forall i :: 0 <= i < |codes| ==> codes[i] < Pow256(4)
    ensures ListAt(CodeRead, buf, pos, |codes|) == Ok((codes, pos + |Codes(codes)|))
    decreases |codes|
  {
    hide Le, UintAt, Stands;
    if codes != [] {
      StandsSplit(buf, pos, Le(codes[0], 4), Codes(codes[1..]));
      ReadUint(buf, pos, codes[0], 4);
      ReadCodes(codes[1..], buf, pos + 4);
      assert codes == [codes[0]] + codes[1..];
    }
  }

  lemma {:induction false} ReadRawScalar(c: Codec, bits: seq<nat>, buf: bytes, pos: nat)
    requires FitsRaw(RawScalar(bits)) && Stands(buf, pos, Le(|bits|, 8) + Bits(bits))
    ensures ScalarAt(c, buf, pos) == Ok((ScalarF64(Numbers(c, bits)), pos + 8 + |Bits(bits)|))
  {
    hide Stands, UintAt, TextsAt, ListAt, Le, TextsEnc, Bits, BitRows, Codes, Numbers, NumberRows, FitBits, FitsText, F64Read,
         RowRead, CodeRead;
    StandsSplit(buf, pos, Le(|bits|, 8), Bits(bits));
    ReadUint(buf, pos, |bits|, 8);
    ReadBits(c, bits, buf, pos + 8);
  }

  lemma {:induction false} ReadRawDict(c: Codec, codes: seq<nat>, dict: seq<Text>, buf: bytes, pos: nat)
    requires FitsRaw(RawDict(codes, dict)) && Stands(buf, pos, Le(|codes|, 8) + (Codes(codes) + TextsEnc(dict)))
    ensures DictAt(c, buf, pos) == Ok((DictU32(codes, dict), pos + 8 + |Codes(codes)| + |TextsEnc(dict)|))
  {
    hide Stands, UintAt, TextsAt, ListAt, Le, TextsEnc, Bits, BitRows, Codes, Numbers, NumberRows, FitBits, FitsText, F64Read,
         RowRead, CodeRead;
    StandsSplit(buf, pos, Le(|codes|, 8), Codes(codes) + TextsEnc(dict));
    ReadUint(buf, pos, |codes|, 8);
    StandsSplit(buf, pos + 8, Codes(codes), TextsEnc(dict));
    ReadCodes(codes, buf, pos + 8);
    ReadTexts(dict, buf, pos + 8 + |Codes(codes)|);
  }

  lemma {:induction false} ReadRawKey(c: Codec, rows: seq<seq<nat>>, ncols: nat, buf: bytes, pos: nat)
    requires FitsRaw(RawKey(rows, ncols)) && Stands(buf, pos, Le(|rows|, 8) + (Le(ncols, 8) + BitRows(rows)))
    ensures KeyAt(c, buf, pos) == Ok((KeyF64(NumberRows(c, rows), ncols), pos + 16 + |BitRows(rows)|))
  {
    hide Stands, UintAt, TextsAt, ListAt, Le, TextsEnc, Bits, BitRows, Codes, Numbers, NumberRows, FitBits, FitsText, F64Read,
         RowRead, CodeRead;
    hide Cells, Wrapped, IsShape;
    CellsIs(|rows|, ncols);
    StandsSplit(buf, pos, Le(|rows|, 8), Le(ncols, 8) + BitRows(rows));
    ReadUint(buf, pos, |rows|, 8);
    StandsSplit(buf, pos + 8, Le(ncols, 8), BitRows(rows));
    ReadUint(buf, pos + 8, ncols, 8);
    ReadBitRows(c, ncols, rows, buf, pos + 16);
  }

  lemma {:induction false} ReadRaw(c: Codec, raw: RawColumn, buf: bytes, pos: nat)
    requires FitsRaw(raw) && Stands(buf, pos, RawContent(raw))
    ensures ContentAt(c, buf, pos) == Ok((Decoded(c, raw), pos + |RawContent(raw)|))
  {
    hide Stands, TakeAt, ScalarAt, DictAt, KeyAt, Le, TextsEnc, Bits, BitRows, Codes, Numbers, NumberRows, FitsRaw;
    match raw
    case RawScalar(bits) =>
      ReadTag(buf, pos, 1, Le(|bits|, 8) + Bits(bits));
      ReadRawScalar(c, bits, buf, pos + 1);
    case RawDict(codes, dict) =>
      ReadTag(buf, pos, 2, Le(|codes|, 8) + (Codes(codes) + TextsEnc(dict)));
      ReadRawDict(c, codes, dict, buf, pos + 1);
    case RawKey(rows, ncols) =>
      ReadTag(buf, pos, 3, Le(|rows|, 8) + (Le(ncols, 8) + BitRows(rows)));
      ReadRawKey(c, rows, ncols, buf, pos + 1);
  }

  lemma {:induction false} ReadEntries(c: Codec, es: seq<RawEntry>, buf: bytes, pos: nat)
    requires FitsEntries(es) && Stands(buf, pos, RawEntries(es))
    ensures ListAt(EntryRead(c), buf, pos, |es|) == Ok((DecodedAll(c, es), pos + |RawEntries(es)|))
    decreases |es|
  {
    hide Stands, TextAt, ContentAt, TextEnc, RawContent, FitsText, FitsRaw, Decoded;
    if es != [] {
      StandsSplit(buf, pos, TextEnc(es[0].0) + RawContent(es[0].1), RawEntries(es[1..]));
      StandsSplit(buf, pos, TextEnc(es[0].0), RawContent(es[0].1));
      ReadTextAt(es[0].0, buf, pos);
      ReadRaw(c, es[0].1, buf, pos + |TextEnc(es[0].0)|);
      ReadEntries(c, es[1..], buf, pos + |TextEnc(es[0].0) + RawContent(es[0].1)|);
      assert EntryRead(c)(buf, pos) == EntryAt(c, buf, pos);
      assert DecodedAll(c, es) == [(es[0].0, Decoded(c, es[0].1))] + DecodedAll(c, es[1..]);
    }
  }

  lemma {:induction false} ReadBody(c: Codec, raw: Raw)
    requires FitsFile(raw)
    ensures ParseBody(c, RawBody(raw)) == Ok(Meant(c, raw))
  {
    hide Stands, UintAt, MapAt, ListAt, Le, MapEnc, RawEntries, FitsNames, FitsEntries, ToColumns, DecodedAll, Ascii;
    var body := RawBody(raw);
    var table := Le(|raw.entries|, 4) + RawEntries(raw.entries);
    var t2 := MapEnc(raw.m) + table;
    var t1 := Le(raw.txsApplied, 8) + t2;
    var t0 := Le(raw.rowsApplied, 8) + t1;
    MagicIs();
    AllStands(body);
    StandsSplit(body, 0, MAGIC, Le(raw.lastLsn, 8) + t0);
    StandsSplit(body, 8, Le(raw.lastLsn, 8), t0);
    ReadUint(body, 8, raw.lastLsn, 8);
    StandsSplit(body, 16, Le(raw.rowsApplied, 8), t1);
    ReadUint(body, 16, raw.rowsApplied, 8);
    StandsSplit(body, 24, Le(raw.txsApplied, 8), t2);
    ReadUint(body, 24, raw.txsApplied, 8);
    StandsSplit(body, 32, MapEnc(raw.m), table);
    ReadMap(raw.m, body, 32);
    var p := 32 + |MapEnc(raw.m)|;
    StandsSplit(body, p, Le(|raw.entries|, 4), RawEntries(raw.entries));
    ReadUint(body, p, |raw.entries|, 4);
    ReadEntries(c, raw.entries, body, p + 4);
  }

  /** A file loads if and only if it is the layout of something, with its checksum, and what is loaded is what the file
      says. */
  lemma {:induction false} LoadsIff(c: Codec, file: bytes, image: Image)
    ensures Load(c, file) == Ok(image) <==> exists raw :: FitsFile(raw) && file == RawFile(raw) && image == Meant(c, raw)
  {
    hide Load, FitsFile, RawFile, Meant;
    if Load(c, file) == Ok(image) {
      var raw := FileWritten(c, file);
    }
    if raw :| FitsFile(raw) && file == RawFile(raw) && image == Meant(c, raw) {
      ReadFile(c, raw);
    }
  }

  lemma {:induction false} ReadFile(c: Codec, raw: Raw)
    requires FitsFile(raw)
    ensures Load(c, RawFile(raw)) == Ok(Meant(c, raw))
  {
    hide ParseBody, Meant, FitsFile, FromLe, Le, Fnv1a;
    var body, file := RawBody(raw), RawFile(raw);
    MagicIs();
    assert file[..|file| - 8] == body && file[|file| - 8..] == Le(Fnv1a(body), 8);
    assert file[..8] == MAGIC;
    FnvFits(body);
    LeRoundTrip(Fnv1a(body), 8);
    ReadBody(c, raw);
  }

  /** What is refused before anything is decoded, and how. */
  lemma {:induction false} LoadRefused(c: Codec, file: bytes)
    ensures |file| < 16 ==> Load(c, file) == Err(TooShort)
    ensures |file| >= 16 && file[..8] != Ascii("BRCDCM01") ==> Load(c, file) == Err(WrongMagic)
    ensures |file| >= 16 && file[..8] == Ascii("BRCDCM01") && file[|file| - 8..] != Le(Fnv1a(file[..|file| - 8]), 8) ==>
      Load(c, file) == Err(BadChecksum)
  {
    hide ParseBody, Fnv1a, FromLe, Le;
    MagicIs();
    if |file| >= 16 {
      BytesOfLe(file[|file| - 8..]);
    }
  }

  lemma {:induction false} EnoughNumbers(c: Codec, buf: bytes, pos: nat, n: nat)
    requires pos <= |buf|
    ensures ListAt(F64Read(c), buf, pos, n).Ok? <==> 8 * n <= |buf| - pos
    ensures ListAt(F64Read(c), buf, pos, n).Err? ==> ListAt(F64Read(c), buf, pos, n) == Err(Truncated)
    decreases n
  {
    hide FromLe;
    if n > 0 {
      assert F64Read(c)(buf, pos) == F64At(c, buf, pos);
      if pos + 8 <= |buf| {
        EnoughNumbers(c, buf, pos + 8, n - 1);
      }
    }
  }

  /** A shape no matrix has is reported after as many numbers as the product of its lengths says in 64 bits; when there
      are not so many, the file is cut short. */
  lemma {:induction false} ShapeRefused(c: Codec, buf: bytes, pos: nat, n: nat, ncols: nat)
    requires UintAt(buf, pos, 8) == Ok((n, pos + 8)) && UintAt(buf, pos + 8, 8) == Ok((ncols, pos + 16))
    requires !IsShape(n, ncols)
    ensures
      var product := n * ncols % 0x1_0000_0000_0000_0000;
      KeyAt(c, buf, pos) == Err(if 8 * product <= |buf| - (pos + 16) then BadShape else Truncated)
  {
    hide ListAt, UintAt, Cells, IsShape, F64Read;
    Powers();
    CellsIs(n, ncols);
    EnoughNumbers(c, buf, pos + 16, Wrapped(n, ncols));
  }
}
