/** The state file of the mirror: its byte image, what loading it gives back, which mirrors survive the round
    trip, and that no single wrong byte goes unnoticed. A number is written as the eight bytes that stand for
    it; how numbers map to bytes is a parameter. */
module MirrorFile {
  import opened Wrappers
  import opened Bytes
  import opened Words
  import opened MirrorTable
  import opened Fnv
  import opened Parsing
  import Utf8
  import M = Mirror

  // "BRCDCM01"
  const MAGIC: bytes := [66, 82, 67, 68, 67, 77, 48, 49]
  const TAG_SCALAR: byte := 1
  const TAG_DICT: byte := 2
  const TAG_KEY: byte := 3

  /** The largest number of elements of a matrix, zero lengths left out. */
  const MOST_CELLS: nat := 0x7FFF_FFFF_FFFF_FFFF

  function Cells(n: nat, ncols: nat): nat {
    (if n == 0 then 1 else n) * (if ncols == 0 then 1 else ncols)
  }

  /** The product in 64 bits. */
  function Wrapped(n: nat, ncols: nat): nat {
    n * ncols % Pow256(8)
  }

  datatype Codec = Codec(toBits: real -> nat, fromBits: nat -> real)

  datatype FileError = TooShort | WrongMagic | BadChecksum | Truncated | BadText | BadCode | BadTag | BadShape | Trailing

  /** What is saved. */
  datatype Image = Image(m: M.TableMap, state: M.State)

  // ------------------------------------------------------------------ lists, written and read one by one

  function EncList<T>(enc: T -> bytes, v: seq<T>): bytes {
    if v == [] then [] else enc(v[0]) + EncList(enc, v[1..])
  }

  type Reader<T> = (bytes, nat) -> Parsed<T, FileError>

  function ListAt<T>(read: Reader<T>, buf: bytes, pos: nat, n: nat): (r: Parsed<seq<T>, FileError>)
    ensures r.Ok? ==> |r.value.0| == n
    decreases n
  {
    if n == 0 then Ok(([], pos))
    else
      var (x, p) :- read(buf, pos);
      var (rest, q) :- ListAt(read, buf, p, n - 1);
      Ok(([x] + rest, q))
  }

  /** Reading where a value stands gives the value. */
  ghost predicate Readable<T(!new)>(enc: T -> bytes, read: Reader<T>, x: T) {
    forall buf: bytes, pos: nat {:trigger Stands(buf, pos, enc(x))} :: Stands(buf, pos, enc(x)) ==> read(buf, pos) == Ok((x, pos + |enc(x)|))
  }

  lemma {:induction false} ReadList<T(!new)>(enc: T -> bytes, read: Reader<T>, v: seq<T>, buf: bytes, pos: nat)
    requires forall i :: 0 <= i < |v| ==> Readable(enc, read, v[i])
    requires Stands(buf, pos, EncList(enc, v))
    ensures ListAt(read, buf, pos, |v|) == Ok((v, pos + |EncList(enc, v)|))
    decreases |v|
  {
    if v != [] {
      StandsSplit(buf, pos, enc(v[0]), EncList(enc, v[1..]));
      assert Readable(enc, read, v[0]);
      ReadList(enc, read, v[1..], buf, pos + |enc(v[0])|);
      assert v == [v[0]] + v[1..];
    }
  }

  lemma {:induction false} EncListMore<T>(enc: T -> bytes, v: seq<T>, x: T)
    ensures EncList(enc, v + [x]) == EncList(enc, v) + enc(x)
    decreases |v|
  {
    if v == [] {
      assert v + [x] == [x] && [x][1..] == [];
      assert enc(x) + [] == enc(x) == [] + enc(x);
    } else {
      assert (v + [x])[1..] == v[1..] + [x];
      EncListMore(enc, v[1..], x);
      assert enc(v[0]) + (EncList(enc, v[1..]) + enc(x)) == (enc(v[0]) + EncList(enc, v[1..])) + enc(x);
    }
  }

  // ------------------------------------------------------------------ numbers and texts

  function UintAt(buf: bytes, pos: nat, k: nat): (r: Parsed<nat, FileError>)
    ensures r.Ok? ==> r.value.1 == pos + k <= |buf|
  {
    var (s, p) :- TakeAt(buf, pos, k, Truncated);
    Ok((FromLe(s), p))
  }

  function F64At(c: Codec, buf: bytes, pos: nat): Parsed<real, FileError> {
    var (bits, p) :- UintAt(buf, pos, 8);
    Ok((c.fromBits(bits), p))
  }

  function TextAt(buf: bytes, pos: nat): Parsed<Text, FileError> {
    var (n, p) :- UintAt(buf, pos, 4);
    var (s, q) :- TakeAt(buf, p, n, Truncated);
    if Utf8.Valid(s) then Ok((s, q)) else Err(BadText)
  }

  function F64Enc(c: Codec): real -> bytes {
    x => Le(c.toBits(x), 8)
  }

  function F64Read(c: Codec): Reader<real> {
    (buf: bytes, pos: nat) => F64At(c, buf, pos)
  }

  /** The length is cut to 32 bits. */
  function TextEnc(s: Text): bytes {
    Le(|s|, 4) + s
  }

  function TextRead(buf: bytes, pos: nat): Parsed<Text, FileError> {
    TextAt(buf, pos)
  }

  function CodeEnc(k: nat): bytes {
    Le(k, 4)
  }

  function CodeRead(buf: bytes, pos: nat): Parsed<nat, FileError> {
    UintAt(buf, pos, 4)
  }

  function TextsEnc(v: seq<Text>): bytes {
    Le(|v|, 4) + EncList(TextEnc, v)
  }

  function TextsAt(buf: bytes, pos: nat): Parsed<seq<Text>, FileError> {
    var (n, p) :- UintAt(buf, pos, 4);
    ListAt(TextRead, buf, p, n)
  }

  ghost predicate FitsF64(c: Codec, x: real) {
    c.toBits(x) < Pow256(8) && c.fromBits(c.toBits(x)) == x
  }

  ghost predicate FitsText(s: Text) {
    |s| < Pow256(4) && Utf8.Valid(s)
  }

  ghost predicate FitsTexts(v: seq<Text>) {
    |v| < Pow256(4) && forall i :: 0 <= i < |v| ==> FitsText(v[i])
  }

  lemma {:induction false} ReadUint(buf: bytes, pos: nat, v: nat, k: nat)
    requires v < Pow256(k) && Stands(buf, pos, Le(v, k))
    ensures UintAt(buf, pos, k) == Ok((v, pos + k))
  {
    LeRoundTrip(v, k);
  }

  lemma {:induction false} ReadF64(c: Codec, x: real)
    requires FitsF64(c, x)
    ensures Readable(F64Enc(c), F64Read(c), x)
  {
    forall buf: bytes, pos: nat | Stands(buf, pos, F64Enc(c)(x)) ensures F64Read(c)(buf, pos) == Ok((x, pos + |F64Enc(c)(x)|)) {
      ReadUint(buf, pos, c.toBits(x), 8);
    }
  }

  lemma {:induction false} ReadCode(k: nat)
    requires k < Pow256(4)
    ensures Readable(CodeEnc, CodeRead, k)
  {
    forall buf: bytes, pos: nat | Stands(buf, pos, CodeEnc(k)) ensures CodeRead(buf, pos) == Ok((k, pos + |CodeEnc(k)|)) {
      ReadUint(buf, pos, k, 4);
    }
  }

  lemma {:induction false} ReadTextAt(s: Text, buf: bytes, pos: nat)
    requires FitsText(s) && Stands(buf, pos, TextEnc(s))
    ensures TextAt(buf, pos) == Ok((s, pos + |TextEnc(s)|))
  {
    StandsSplit(buf, pos, Le(|s|, 4), s);
    ReadUint(buf, pos, |s|, 4);
  }

  lemma {:induction false} ReadText(s: Text)
    requires FitsText(s)
    ensures Readable(TextEnc, TextRead, s)
  {
    forall buf: bytes, pos: nat | Stands(buf, pos, TextEnc(s)) ensures TextRead(buf, pos) == Ok((s, pos + |TextEnc(s)|)) {
      ReadTextAt(s, buf, pos);
    }
  }

  /** A text is read back exactly when it is UTF-8 and its length fits in 32 bits; a longer one is cut to what is left
      of its length. */
  lemma {:induction false} TextSurvivesIff(s: Text)
    ensures TextAt(TextEnc(s), 0) == Ok((s, |TextEnc(s)|)) <==> |s| < Pow256(4) && Utf8.Valid(s)
  {
    hide Utf8.Valid;
    var buf := TextEnc(s);
    assert buf[0..4] == Le(|s|, 4);
    LeRoundTrip(|s|, 4);
    var n := |s| % Pow256(4);
    assert UintAt(buf, 0, 4) == Ok((n, 4));
    if |s| < Pow256(4) {
      assert n == |s| && buf[4..4 + n] == s;
    } else {
      assert n < |s|;
    }
  }

  lemma {:induction false} ReadTexts(v: seq<Text>, buf: bytes, pos: nat)
    requires FitsTexts(v) && Stands(buf, pos, TextsEnc(v))
    ensures TextsAt(buf, pos) == Ok((v, pos + |TextsEnc(v)|))
  {
    StandsSplit(buf, pos, Le(|v|, 4), EncList(TextEnc, v));
    ReadUint(buf, pos, |v|, 4);
    forall i | 0 <= i < |v| ensures Readable(TextEnc, TextRead, v[i]) {
      ReadText(v[i]);
    }
    ReadList(TextEnc, TextRead, v, buf, pos + 4);
  }

  // ------------------------------------------------------------------ columns

  function RowEnc(c: Codec): seq<real> -> bytes {
    row => EncList(F64Enc(c), row)
  }

  function RowRead(c: Codec, ncols: nat): Reader<seq<real>> {
    (buf: bytes, pos: nat) => ListAt(F64Read(c), buf, pos, ncols)
  }

  function ContentEnc(c: Codec, col: Column): bytes {
    match col
    case ScalarF64(v) => [TAG_SCALAR] + (Le(|v|, 8) + EncList(F64Enc(c), v))
    case DictU32(codes, dict) => [TAG_DICT] + (Le(|codes|, 8) + (EncList(CodeEnc, codes) + TextsEnc(dict)))
    case KeyF64(rows, ncols) => [TAG_KEY] + (Le(|rows|, 8) + (Le(ncols, 8) + EncList(RowEnc(c), rows)))
  }

  type Entry = (Text, Column)

  function EntryEnc(c: Codec): Entry -> bytes {
    (e: Entry) => TextEnc(e.0) + ContentEnc(c, e.1)
  }

  function ScalarAt(c: Codec, buf: bytes, pos: nat): Parsed<Column, FileError> {
    var (n, p) :- UintAt(buf, pos, 8);
    var (v, q) :- ListAt(F64Read(c), buf, p, n);
    Ok((ScalarF64(v), q))
  }

  function DictAt(c: Codec, buf: bytes, pos: nat): Parsed<Column, FileError> {
    var (n, p) :- UintAt(buf, pos, 8);
    var (codes, q) :- ListAt(CodeRead, buf, p, n);
    var (dict, q1) :- TextsAt(buf, q);
    if exists i :: 0 <= i < |codes| && codes[i] >= |dict| then Err(BadCode) else Ok((DictU32(codes, dict), q1))
  }

  /** Rows of numbers. A shape that no matrix has is refused once as many numbers are read as the product says in 64
      bits. */
  function KeyAt(c: Codec, buf: bytes, pos: nat): Parsed<Column, FileError> {
    var (n, p) :- UintAt(buf, pos, 8);
    var (ncols, q) :- UintAt(buf, p, 8);
    if Cells(n, ncols) > MOST_CELLS then
      var (_, _) :- ListAt(F64Read(c), buf, q, Wrapped(n, ncols));
      Err(BadShape)
    else
      var (rows, q1) :- ListAt(RowRead(c, ncols), buf, q, n);
      Ok((KeyF64(rows, ncols), q1))
  }

  function ContentAt(c: Codec, buf: bytes, pos: nat): Parsed<Column, FileError> {
    var (s, p) :- TakeAt(buf, pos, 1, Truncated);
    if s[0] == TAG_SCALAR then ScalarAt(c, buf, p)
    else if s[0] == TAG_DICT then DictAt(c, buf, p)
    else if s[0] == TAG_KEY then KeyAt(c, buf, p)
    else Err(BadTag)
  }

  function EntryAt(c: Codec, buf: bytes, pos: nat): Parsed<Entry, FileError> {
    var (name, p) :- TextAt(buf, pos);
    var (col, q) :- ContentAt(c, buf, p);
    Ok(((name, col), q))
  }

  function EntryRead(c: Codec): Reader<Entry> {
    (buf: bytes, pos: nat) => EntryAt(c, buf, pos)
  }

  ghost predicate FitsF64s(c: Codec, v: seq<real>) {
    forall i :: 0 <= i < |v| ==> FitsF64(c, v[i])
  }

  /** Counts and codes in range, codes that index the dictionary, numbers that have a representation. */
  ghost predicate FitsColumn(c: Codec, col: Column) {
    && Len(col) < Pow256(8)
    && match col
       case ScalarF64(v) => FitsF64s(c, v)
       case DictU32(codes, dict) =>
         FitsTexts(dict) && forall i :: 0 <= i < |codes| ==> codes[i] < |dict|
       case KeyF64(rows, ncols) =>
         && ncols < Pow256(8) && Cells(|rows|, ncols) <= MOST_CELLS
         && forall i :: 0 <= i < |rows| ==> |rows[i]| == ncols && FitsF64s(c, rows[i])
  }

  lemma {:induction false} ReadF64s(c: Codec, v: seq<real>, buf: bytes, pos: nat)
    requires FitsF64s(c, v) && Stands(buf, pos, EncList(F64Enc(c), v))
    ensures ListAt(F64Read(c), buf, pos, |v|) == Ok((v, pos + |EncList(F64Enc(c), v)|))
  {
    forall i | 0 <= i < |v| ensures Readable(F64Enc(c), F64Read(c), v[i]) {
      ReadF64(c, v[i]);
    }
    ReadList(F64Enc(c), F64Read(c), v, buf, pos);
  }

  lemma {:induction false} ReadRow(c: Codec, ncols: nat, row: seq<real>)
    requires |row| == ncols && FitsF64s(c, row)
    ensures Readable(RowEnc(c), RowRead(c, ncols), row)
  {
    hide Stands;
    forall buf: bytes, pos: nat | Stands(buf, pos, RowEnc(c)(row))
      ensures RowRead(c, ncols)(buf, pos) == Ok((row, pos + |RowEnc(c)(row)|))
    {
      ReadF64s(c, row, buf, pos);
    }
  }

  lemma {:induction false} ReadScalar(c: Codec, v: seq<real>, buf: bytes, pos: nat)
    requires FitsColumn(c, ScalarF64(v)) && Stands(buf, pos, Le(|v|, 8) + EncList(F64Enc(c), v))
    ensures ScalarAt(c, buf, pos) == Ok((ScalarF64(v), pos + |Le(|v|, 8) + EncList(F64Enc(c), v)|))
  {
    hide Stands, UintAt, EncList, ListAt, Le, FitsF64s;
    StandsSplit(buf, pos, Le(|v|, 8), EncList(F64Enc(c), v));
    ReadUint(buf, pos, |v|, 8);
    ReadF64s(c, v, buf, pos + 8);
  }

  lemma {:induction false} ReadDict(c: Codec, codes: seq<nat>, dict: seq<Text>, buf: bytes, pos: nat)
    requires FitsColumn(c, DictU32(codes, dict))
    requires Stands(buf, pos, Le(|codes|, 8) + (EncList(CodeEnc, codes) + TextsEnc(dict)))
    ensures DictAt(c, buf, pos)
            == Ok((DictU32(codes, dict), pos + |Le(|codes|, 8) + (EncList(CodeEnc, codes) + TextsEnc(dict))|))
  {
    hide Stands, UintAt, EncList, ListAt, Le, FitsText, TextsAt, TextsEnc, Readable;
    StandsSplit(buf, pos, Le(|codes|, 8), EncList(CodeEnc, codes) + TextsEnc(dict));
    ReadUint(buf, pos, |codes|, 8);
    StandsSplit(buf, pos + 8, EncList(CodeEnc, codes), TextsEnc(dict));
    forall i | 0 <= i < |codes| ensures Readable(CodeEnc, CodeRead, codes[i]) {
      ReadCode(codes[i]);
    }
    ReadList(CodeEnc, CodeRead, codes, buf, pos + 8);
    ReadTexts(dict, buf, pos + 8 + |EncList(CodeEnc, codes)|);
  }

  lemma {:induction false} ReadKey(c: Codec, rows: seq<seq<real>>, ncols: nat, buf: bytes, pos: nat)
    requires FitsColumn(c, KeyF64(rows, ncols))
    requires Stands(buf, pos, Le(|rows|, 8) + (Le(ncols, 8) + EncList(RowEnc(c), rows)))
    ensures KeyAt(c, buf, pos)
            == Ok((KeyF64(rows, ncols), pos + |Le(|rows|, 8) + (Le(ncols, 8) + EncList(RowEnc(c), rows))|))
  {
    hide Stands, UintAt, EncList, ListAt, Le, FitsF64s, Readable, Cells, Wrapped;
    StandsSplit(buf, pos, Le(|rows|, 8), Le(ncols, 8) + EncList(RowEnc(c), rows));
    ReadUint(buf, pos, |rows|, 8);
    StandsSplit(buf, pos + 8, Le(ncols, 8), EncList(RowEnc(c), rows));
    ReadUint(buf, pos + 8, ncols, 8);
    forall i | 0 <= i < |rows| ensures Readable(RowEnc(c), RowRead(c, ncols), rows[i]) {
      ReadRow(c, ncols, rows[i]);
    }
    ReadList(RowEnc(c), RowRead(c, ncols), rows, buf, pos + 16);
  }

  lemma {:induction false} ReadTag(buf: bytes, pos: nat, tag: byte, rest: bytes)
    requires Stands(buf, pos, [tag] + rest)
    ensures TakeAt(buf, pos, 1, Truncated) == Ok(([tag], pos + 1)) && Stands(buf, pos + 1, rest)
  {
    StandsSplit(buf, pos, [tag], rest);
  }

  lemma {:induction false} ReadContent(c: Codec, col: Column, buf: bytes, pos: nat)
    requires FitsColumn(c, col) && Stands(buf, pos, ContentEnc(c, col))
    ensures ContentAt(c, buf, pos) == Ok((col, pos + |ContentEnc(c, col)|))
  {
    hide Stands, TakeAt, FitsColumn, ScalarAt, DictAt, KeyAt, EncList, Le, TextsEnc;
    match col
    case ScalarF64(v) =>
      ReadTag(buf, pos, TAG_SCALAR, Le(|v|, 8) + EncList(F64Enc(c), v));
      ReadScalar(c, v, buf, pos + 1);
    case DictU32(codes, dict) =>
      ReadTag(buf, pos, TAG_DICT, Le(|codes|, 8) + (EncList(CodeEnc, codes) + TextsEnc(dict)));
      ReadDict(c, codes, dict, buf, pos + 1);
    case KeyF64(rows, ncols) =>
      ReadTag(buf, pos, TAG_KEY, Le(|rows|, 8) + (Le(ncols, 8) + EncList(RowEnc(c), rows)));
      ReadKey(c, rows, ncols, buf, pos + 1);
  }

  lemma {:induction false} ReadEntry(c: Codec, e: Entry)
    requires FitsText(e.0) && FitsColumn(c, e.1)
    ensures Readable(EntryEnc(c), EntryRead(c), e)
  {
    hide Stands, FitsText, FitsColumn, TextAt, ContentAt, TextEnc, ContentEnc;
    forall buf: bytes, pos: nat | Stands(buf, pos, EntryEnc(c)(e))
      ensures EntryRead(c)(buf, pos) == Ok((e, pos + |EntryEnc(c)(e)|))
    {
      StandsSplit(buf, pos, TextEnc(e.0), ContentEnc(c, e.1));
      ReadTextAt(e.0, buf, pos);
      ReadContent(c, e.1, buf, pos + |TextEnc(e.0)|);
    }
  }

  // ------------------------------------------------------------------ the image

  /** The columns in the order they are written. */
  function Order(m: M.TableMap): seq<Text> {
    m.scalarCols + m.labelCols + [m.keyCol]
  }

  function Entries(cols: Columns, names: seq<Text>): (r: seq<Entry>)
    requires forall i :: 0 <= i < |names| ==> names[i] in cols
    ensures |r| == |names| && forall i :: 0 <= i < |r| ==> r[i] == (names[i], cols[names[i]])
  {
    seq(|names|, i requires 0 <= i < |names| => (names[i], cols[names[i]]))
  }

  /** Inserting the columns one after the other. */
  function ToColumns(es: seq<Entry>): Columns {
    if es == [] then map[] else ToColumns(es[..|es| - 1])[es[|es| - 1].0 := es[|es| - 1].1]
  }

  lemma {:induction false} ToColumnsBack(cols: Columns, names: seq<Text>)
    requires forall i :: 0 <= i < |names| ==> names[i] in cols
    ensures
      var back := ToColumns(Entries(cols, names));
      (forall c :: c in back <==> c in names) && forall c :: c in back ==> c in cols && back[c] == cols[c]
    decreases |names|
  {
    if names != [] {
      var most, last := names[..|names| - 1], names[|names| - 1];
      assert Entries(cols, names)[..|names| - 1] == Entries(cols, most);
      ToColumnsBack(cols, most);
      assert names == most + [last];
    }
  }

  function MapEnc(m: M.TableMap): bytes {
    TextEnc(m.table) + (TextEnc(m.pk) + (TextEnc(m.keyCol) +
      (TextsEnc(m.labelCols) + (TextsEnc(m.scalarCols) + TextsEnc(m.keyParts)))))
  }

  function MapAt(buf: bytes, pos: nat): Parsed<M.TableMap, FileError> {
    var (table, p) :- TextAt(buf, pos);
    var (pk, p1) :- TextAt(buf, p);
    var (keyCol, p2) :- TextAt(buf, p1);
    var (labelCols, p3) :- TextsAt(buf, p2);
    var (scalarCols, p4) :- TextsAt(buf, p3);
    var (keyParts, p5) :- TextsAt(buf, p4);
    Ok((M.TableMap(table, pk, keyCol, labelCols, scalarCols, keyParts), p5))
  }

  ghost predicate FitsNames(m: M.TableMap) {
    && FitsText(m.table) && FitsText(m.pk) && FitsText(m.keyCol)
    && FitsTexts(m.labelCols) && FitsTexts(m.scalarCols) && FitsTexts(m.keyParts)
  }

  ghost predicate FitsMap(m: M.TableMap) {
    FitsNames(m) && |Order(m)| < Pow256(4)
  }

  lemma {:induction false} ReadMap(m: M.TableMap, buf: bytes, pos: nat)
    requires FitsNames(m) && Stands(buf, pos, MapEnc(m))
    ensures MapAt(buf, pos) == Ok((m, pos + |MapEnc(m)|))
  {
    hide Stands, TextAt, TextsAt, TextEnc, TextsEnc, FitsText, FitsTexts;
    var t3 := TextsEnc(m.scalarCols) + TextsEnc(m.keyParts);
    var t2 := TextsEnc(m.labelCols) + t3;
    var t1 := TextEnc(m.keyCol) + t2;
    var t0 := TextEnc(m.pk) + t1;
    var p := pos + |TextEnc(m.table)|;
    var p1 := p + |TextEnc(m.pk)|;
    var p2 := p1 + |TextEnc(m.keyCol)|;
    var p3 := p2 + |TextsEnc(m.labelCols)|;
    StandsSplit(buf, pos, TextEnc(m.table), t0);
    ReadTextAt(m.table, buf, pos);
    StandsSplit(buf, p, TextEnc(m.pk), t1);
    ReadTextAt(m.pk, buf, p);
    StandsSplit(buf, p1, TextEnc(m.keyCol), t2);
    ReadTextAt(m.keyCol, buf, p1);
    StandsSplit(buf, p2, TextsEnc(m.labelCols), t3);
    ReadTexts(m.labelCols, buf, p2);
    StandsSplit(buf, p3, TextsEnc(m.scalarCols), TextsEnc(m.keyParts));
    ReadTexts(m.scalarCols, buf, p3);
    ReadTexts(m.keyParts, buf, p3 + |TextsEnc(m.scalarCols)|);
  }

  function TableEnc(c: Codec, es: seq<Entry>): bytes {
    Le(|es|, 4) + EncList(EntryEnc(c), es)
  }

  function TableAt(c: Codec, buf: bytes, pos: nat): Parsed<Columns, FileError> {
    var (n, p) :- UintAt(buf, pos, 4);
    var (es, q) :- ListAt(EntryRead(c), buf, p, n);
    Ok((ToColumns(es), q))
  }

  predicate Covered(m: M.TableMap, cols: Columns) {
    forall i :: 0 <= i < |Order(m)| ==> Order(m)[i] in cols
  }

  function Body(c: Codec, image: Image): bytes
    requires Covered(image.m, image.state.cols)
  {
    var s := image.state;
    MAGIC + (Le(s.lastLsn, 8) + (Le(s.rowsApplied, 8) + (Le(s.txsApplied, 8) +
      (MapEnc(image.m) + TableEnc(c, Entries(s.cols, Order(image.m)))))))
  }

  function File(c: Codec, image: Image): bytes
    requires Covered(image.m, image.state.cols)
  {
    Body(c, image) + Le(Fnv1a(Body(c, image)), 8)
  }

  function ParseBody(c: Codec, body: bytes): Result<Image, FileError> {
    var (lsn, p) :- UintAt(body, 8, 8);
    var (rows, p1) :- UintAt(body, p, 8);
    var (txs, p2) :- UintAt(body, p1, 8);
    var (m, p3) :- MapAt(body, p2);
    var (cols, p4) :- TableAt(c, body, p3);
    if p4 != |body| then Err(Trailing) else Ok(Image(m, M.State(cols, rows, txs, lsn)))
  }

  function Load(c: Codec, file: bytes): Result<Image, FileError> {
    if |file| < 16 then Err(TooShort)
    else if file[..8] != MAGIC then Err(WrongMagic)
    else if FromLe(file[|file| - 8..]) != Fnv1a(file[..|file| - 8]) then Err(BadChecksum)
    else ParseBody(c, file[..|file| - 8])
  }

  /** The mirror has exactly the mapped columns, and everything in it fits the format. */
  ghost predicate Fits(c: Codec, image: Image) {
    var s := image.state;
    && FitsMap(image.m) && s.lastLsn < Pow256(8) && s.rowsApplied < Pow256(8) && s.txsApplied < Pow256(8)
    && (forall name :: name in s.cols <==> name in Order(image.m))
    && forall name :: name in s.cols ==> FitsColumn(c, s.cols[name])
  }

  lemma {:induction false} ReadTable(c: Codec, image: Image, buf: bytes, pos: nat)
    requires Fits(c, image) && Covered(image.m, image.state.cols)
    requires Stands(buf, pos, TableEnc(c, Entries(image.state.cols, Order(image.m))))
    ensures TableAt(c, buf, pos)
            == Ok((image.state.cols, pos + |TableEnc(c, Entries(image.state.cols, Order(image.m)))|))
  {
    hide Stands, UintAt, EncList, ListAt, Le, FitsText, FitsColumn, Readable, ToColumns;
    var cols, names := image.state.cols, Order(image.m);
    var es := Entries(cols, names);
    StandsSplit(buf, pos, Le(|es|, 4), EncList(EntryEnc(c), es));
    ReadUint(buf, pos, |es|, 4);
    forall i | 0 <= i < |es| ensures Readable(EntryEnc(c), EntryRead(c), es[i]) {
      NameFits(image.m, i);
      ReadEntry(c, es[i]);
    }
    ReadList(EntryEnc(c), EntryRead(c), es, buf, pos + 4);
    ToColumnsBack(cols, names);
    assert ToColumns(es) == cols;
  }

  lemma {:induction false} NameFits(m: M.TableMap, i: nat)
    requires FitsMap(m) && i < |Order(m)|
    ensures FitsText(Order(m)[i])
  {
    hide FitsText;
  }

  /** Loading a saved mirror gives it back: map, columns, counters and watermark, with the body read exactly. */
  lemma {:induction false} LoadSave(c: Codec, image: Image)
    requires Fits(c, image)
    ensures Covered(image.m, image.state.cols) && Load(c, File(c, image)) == Ok(image)
  {
    assert Covered(image.m, image.state.cols) by {
      forall i | 0 <= i < |Order(image.m)| ensures Order(image.m)[i] in image.state.cols {
        assert Order(image.m)[i] in Order(image.m);
      }
    }
    var body, file := Body(c, image), File(c, image);
    assert file[..|file| - 8] == body && file[|file| - 8..] == Le(Fnv1a(body), 8);
    assert file[..8] == MAGIC;
    FnvFits(body);
    LeRoundTrip(Fnv1a(body), 8);
    ParseOfBody(c, image);
  }

  // ------------------------------------------------------------------ against the documented layout

  ghost function U32(v: nat): bytes {
    [v % 256, v / 256 % 256, v / 256 / 256 % 256, v / 256 / 256 / 256 % 256]
  }

  ghost function U64(v: nat): bytes {
    U32(v) + U32(v / 0x1_0000_0000)
  }

  ghost function Str(s: Text): bytes {
    U32(|s|) + s
  }

  ghost function Strs(v: seq<Text>): bytes {
    if v == [] then [] else Str(v[0]) + Strs(v[1..])
  }

  ghost function StrVec(v: seq<Text>): bytes {
    U32(|v|) + Strs(v)
  }

  ghost function F64s(c: Codec, v: seq<real>): bytes {
    if v == [] then [] else U64(c.toBits(v[0])) + F64s(c, v[1..])
  }

  ghost function RowMajor(c: Codec, rows: seq<seq<real>>): bytes {
    if rows == [] then [] else F64s(c, rows[0]) + RowMajor(c, rows[1..])
  }

  ghost function U32s(v: seq<nat>): bytes {
    if v == [] then [] else U32(v[0]) + U32s(v[1..])
  }

  /** A column under its name: a tag, the length or shape, and what is in it. */
  ghost function ColumnImage(c: Codec, name: Text, col: Column): bytes {
    match col
    case ScalarF64(v) => Str(name) + [1] + U64(|v|) + F64s(c, v)
    case DictU32(codes, dict) => Str(name) + [2] + U64(|codes|) + U32s(codes) + StrVec(dict)
    case KeyF64(rows, ncols) => Str(name) + [3] + U64(|rows|) + U64(ncols) + RowMajor(c, rows)
  }

  ghost function ColumnImages(c: Codec, cols: Columns, names: seq<Text>): bytes
    requires forall i :: 0 <= i < |names| ==> names[i] in cols
  {
    if names == [] then [] else ColumnImage(c, names[0], cols[names[0]]) + ColumnImages(c, cols, names[1..])
  }

  ghost function Ascii(s: string): bytes
    requires forall i :: 0 <= i < |s| ==> s[i] < 128 as char
  {
    seq(|s|, i requires 0 <= i < |s| => s[i] as int)
  }

  /** Everything in front of the checksum: magic, watermark and counters, the map, and the columns, scalar ones first and
      the key column last. */
  ghost function Layout(c: Codec, m: M.TableMap, state: M.State): bytes
    requires Covered(m, state.cols)
  {
    var names := m.scalarCols + m.labelCols + [m.keyCol];
    assert names == Order(m);
    Ascii("BRCDCM01") + U64(state.lastLsn) + U64(state.rowsApplied) + U64(state.txsApplied)
    + Str(m.table) + Str(m.pk) + Str(m.keyCol) + StrVec(m.labelCols) + StrVec(m.scalarCols) + StrVec(m.keyParts)
    + U32(|names|) + ColumnImages(c, state.cols, names)
  }

  lemma {:induction false} LeStep(v: nat, k: nat)
    requires k > 0
    ensures Le(v, k) == [v % 256] + Le(v / 256, k - 1)
  {
  }

  lemma {:induction false} U32Is(v: nat)
    ensures Le(v, 4) == U32(v)
  {
    LeStep(v, 4);
    LeStep(v / 256, 3);
    LeStep(v / 256 / 256, 2);
    LeStep(v / 256 / 256 / 256, 1);
    assert Le(v / 256 / 256 / 256 / 256, 0) == [];
  }

  lemma {:induction false} U64Is(v: nat)
    ensures Le(v, 8) == U64(v)
  {
    var high := v / 256 / 256 / 256 / 256;
    assert high == v / 0x1_0000_0000;
    LeStep(v, 8);
    LeStep(v / 256, 7);
    LeStep(v / 256 / 256, 6);
    LeStep(v / 256 / 256 / 256, 5);
    U32Is(high);
    assert Le(v, 8) == U32(v) + Le(high, 4);
  }

  lemma {:induction false} StrsAre(v: seq<Text>)
    ensures EncList(TextEnc, v) == Strs(v)
  {
    if v != [] {
      U32Is(|v[0]|);
      StrsAre(v[1..]);
    }
  }

  lemma {:induction false} F64sAre(c: Codec, v: seq<real>)
    ensures EncList(F64Enc(c), v) == F64s(c, v)
  {
    if v != [] {
      U64Is(c.toBits(v[0]));
      F64sAre(c, v[1..]);
    }
  }

  lemma {:induction false} RowMajorIs(c: Codec, rows: seq<seq<real>>)
    ensures EncList(RowEnc(c), rows) == RowMajor(c, rows)
  {
    if rows != [] {
      F64sAre(c, rows[0]);
      RowMajorIs(c, rows[1..]);
    }
  }

  lemma {:induction false} U32sAre(v: seq<nat>)
    ensures EncList(CodeEnc, v) == U32s(v)
  {
    if v != [] {
      U32Is(v[0]);
      U32sAre(v[1..]);
    }
  }

  lemma {:induction false} ColumnImageIs(c: Codec, name: Text, col: Column)
    ensures EntryEnc(c)((name, col)) == ColumnImage(c, name, col)
  {
    hide Le, U32, U64, EncList, Strs, F64s, RowMajor, U32s;
    U32Is(|name|);
    match col
    case ScalarF64(v) =>
      U64Is(|v|);
      F64sAre(c, v);
    case DictU32(codes, dict) =>
      U64Is(|codes|);
      U32sAre(codes);
      U32Is(|dict|);
      StrsAre(dict);
    case KeyF64(rows, ncols) =>
      U64Is(|rows|);
      U64Is(ncols);
      RowMajorIs(c, rows);
  }

  lemma {:induction false} ColumnImagesAre(c: Codec, cols: Columns, names: seq<Text>)
    requires forall i :: 0 <= i < |names| ==> names[i] in cols
    ensures EncList(EntryEnc(c), Entries(cols, names)) == ColumnImages(c, cols, names)
    decreases |names|
  {
    hide ColumnImage, EntryEnc;
    if names != [] {
      ColumnImageIs(c, names[0], cols[names[0]]);
      assert Entries(cols, names)[1..] == Entries(cols, names[1..]);
      ColumnImagesAre(c, cols, names[1..]);
    }
  }

  lemma {:induction false} MagicIs()
    ensures MAGIC == Ascii("BRCDCM01")
  {
  }

  /** The file is the documented layout and, behind it, its checksum. */
  lemma {:induction false} FileIs(c: Codec, m: M.TableMap, state: M.State)
    requires Covered(m, state.cols)
    ensures File(c, Image(m, state)) == Layout(c, m, state) + U64(Fnv1a(Layout(c, m, state)))
  {
    hide Le, U64, Layout, Body, Fnv1a;
    BodyIs(c, m, state);
    U64Is(Fnv1a(Body(c, Image(m, state))));
  }

  lemma {:induction false} TextIs(s: Text)
    ensures TextEnc(s) == Str(s)
  {
    hide Le, U32;
    U32Is(|s|);
  }

  lemma {:induction false} TextsAre(v: seq<Text>)
    ensures TextsEnc(v) == StrVec(v)
  {
    hide Le, U32, EncList, Strs;
    U32Is(|v|);
    StrsAre(v);
  }

  lemma {:induction false} MapIs(m: M.TableMap)
    ensures MapEnc(m) == Str(m.table) + Str(m.pk) + Str(m.keyCol)
                         + StrVec(m.labelCols) + StrVec(m.scalarCols) + StrVec(m.keyParts)
  {
    hide TextEnc, TextsEnc, Str, StrVec;
    TextIs(m.table);
    TextIs(m.pk);
    TextIs(m.keyCol);
    TextsAre(m.labelCols);
    TextsAre(m.scalarCols);
    TextsAre(m.keyParts);
  }

  lemma {:induction false} BodyIs(c: Codec, m: M.TableMap, state: M.State)
    requires Covered(m, state.cols)
    ensures Body(c, Image(m, state)) == Layout(c, m, state)
  {
    hide Le, U32, U64, EncList, Strs, StrVec, Str, MapEnc, ColumnImages, Ascii, Entries;
    var names := Order(m);
    MagicIs();
    U64Is(state.lastLsn);
    U64Is(state.rowsApplied);
    U64Is(state.txsApplied);
    MapIs(m);
    U32Is(|names|);
    ColumnImagesAre(c, state.cols, names);
  }

  /** The state of a mirror, saved and loaded, is the same state, when lengths and counters fit their fields, texts are
      UTF-8 and the numbers survive as bytes. */
  lemma {:induction false} MirrorReloads(c: Codec, m: M.TableMap, state: M.State, up: M.Upstream)
    requires M.Mirrors(m, state.cols, up) && FitsMap(m)
    requires state.lastLsn < Pow256(8) && state.rowsApplied < Pow256(8) && state.txsApplied < Pow256(8)
    requires forall name :: name in state.cols ==> FitsColumn(c, state.cols[name])
    ensures Covered(m, state.cols) && Load(c, File(c, Image(m, state))) == Ok(Image(m, state))
  {
    hide FitsMap, FitsColumn, Load, File;
    LoadSave(c, Image(m, state));
  }

  lemma {:induction false} FnvFits(s: bytes)
    ensures Fnv1a(s) < Pow256(8)
  {
    assert Pow256(8) == MOD;
  }

  lemma {:induction false} ParseOfBody(c: Codec, image: Image)
    requires Fits(c, image) && Covered(image.m, image.state.cols)
    ensures ParseBody(c, Body(c, image)) == Ok(image)
  {
    hide Stands, UintAt, EncList, ListAt, Le, FitsNames, FitsColumn, MapEnc, TableEnc, MapAt, TableAt, Covered;
    var s, body := image.state, Body(c, image);
    var table := TableEnc(c, Entries(s.cols, Order(image.m)));
    var t2 := MapEnc(image.m) + table;
    var t1 := Le(s.txsApplied, 8) + t2;
    var t0 := Le(s.rowsApplied, 8) + t1;
    AllStands(body);
    StandsSplit(body, 0, MAGIC, Le(s.lastLsn, 8) + t0);
    StandsSplit(body, 8, Le(s.lastLsn, 8), t0);
    ReadUint(body, 8, s.lastLsn, 8);
    StandsSplit(body, 16, Le(s.rowsApplied, 8), t1);
    ReadUint(body, 16, s.rowsApplied, 8);
    StandsSplit(body, 24, Le(s.txsApplied, 8), t2);
    ReadUint(body, 24, s.txsApplied, 8);
    StandsSplit(body, 32, MapEnc(image.m), table);
    ReadMap(image.m, body, 32);
    ReadTable(c, image, body, 32 + |MapEnc(image.m)|);
  }

  lemma {:induction false} AllStands(buf: bytes)
    ensures Stands(buf, 0, buf)
  {
  }

  /** A saved file with one byte changed, wherever it is, is refused. */
  lemma {:induction false} OneWrongByte(c: Codec, image: Image, i: nat, b: byte)
    requires Fits(c, image) && Covered(image.m, image.state.cols)
    requires i < |File(c, image)| && b != File(c, image)[i]
    ensures Load(c, File(c, image)[i := b]).Err?
  {
    hide ParseBody, MapEnc, TableEnc, Fnv1a, Covered;
    var body, file := Body(c, image), File(c, image);
    var bad := file[i := b];
    var n := |file| - 8;
    assert file[..n] == body && file[n..] == Le(Fnv1a(body), 8);
    FnvFits(body);
    LeRoundTrip(Fnv1a(body), 8);
    if i < n {
      assert bad[..n] == body[i := b] && bad[n..] == file[n..];
      OneByteChanges(body, i, b);
    } else {
      assert bad[..n] == body && bad[n..] == file[n..][i - n := b];
      FromLeInjective(bad[n..], file[n..]);
    }
  }

  lemma {:induction false} FromLeInjective(s: bytes, t: bytes)
    requires |s| == |t|
    ensures FromLe(s) == FromLe(t) <==> s == t
    decreases |s|
  {
    if s != [] {
      FromLeInjective(s[1..], t[1..]);
      assert s == [s[0]] + s[1..] && t == [t[0]] + t[1..];
    }
  }

  // ------------------------------------------------------------------ the encoder and the decoder

  class Enc {
    var buf: bytes

    constructor ()
      ensures buf == MAGIC
    {
      buf := MAGIC;
    }

    method U8(v: byte)
      modifies this
      ensures buf == old(buf) + [v]
    {
      buf := buf + [v];
    }

    /** The lowest `k` bytes. */
    method Uint(v: nat, k: nat)
      modifies this
      ensures buf == old(buf) + Le(v, k)
    {
      buf := buf + Le(v, k);
    }

    method Str(s: Text)
      modifies this
      ensures buf == old(buf) + TextEnc(s)
    {
      Uint(|s|, 4);
      buf := buf + s;
    }

    method StrVec(v: seq<Text>)
      modifies this
      ensures buf == old(buf) + TextsEnc(v)
    {
      hide TextEnc;
      Uint(|v|, 4);
      ghost var start := buf;
      assert EncList(TextEnc, v[..0]) == [];
      for i := 0 to |v|
        invariant buf == start + EncList(TextEnc, v[..i])
      {
        assert v[..i + 1] == v[..i] + [v[i]];
        EncListMore(TextEnc, v[..i], v[i]);
        Str(v[i]);
      }
      assert v[..|v|] == v;
    }

    method F64s(c: Codec, v: seq<real>)
      modifies this
      ensures buf == old(buf) + EncList(F64Enc(c), v)
    {
      assert EncList(F64Enc(c), v[..0]) == [];
      for i := 0 to |v|
        invariant buf == old(buf) + EncList(F64Enc(c), v[..i])
      {
        assert v[..i + 1] == v[..i] + [v[i]];
        EncListMore(F64Enc(c), v[..i], v[i]);
        Uint(c.toBits(v[i]), 8);
      }
      assert v[..|v|] == v;
    }

    method Codes(v: seq<nat>)
      modifies this
      ensures buf == old(buf) + EncList(CodeEnc, v)
    {
      assert EncList(CodeEnc, v[..0]) == [];
      for i := 0 to |v|
        invariant buf == old(buf) + EncList(CodeEnc, v[..i])
      {
        assert v[..i + 1] == v[..i] + [v[i]];
        EncListMore(CodeEnc, v[..i], v[i]);
        Uint(v[i], 4);
      }
      assert v[..|v|] == v;
    }

    method KeyRows(c: Codec, rows: seq<seq<real>>)
      modifies this
      ensures buf == old(buf) + EncList(RowEnc(c), rows)
    {
      assert EncList(RowEnc(c), rows[..0]) == [];
      for i := 0 to |rows|
        invariant buf == old(buf) + EncList(RowEnc(c), rows[..i])
      {
        assert rows[..i + 1] == rows[..i] + [rows[i]];
        EncListMore(RowEnc(c), rows[..i], rows[i]);
        F64s(c, rows[i]);
      }
      assert rows[..|rows|] == rows;
    }

    method WriteContent(c: Codec, col: Column)
      modifies this
      ensures buf == old(buf) + ContentEnc(c, col)
    {
      hide TextsEnc, EncList, Le;
      match col {
        case ScalarF64(v) =>
          U8(TAG_SCALAR);
          Uint(|v|, 8);
          F64s(c, v);
          Regroup(old(buf), [TAG_SCALAR], Le(|v|, 8), EncList(F64Enc(c), v), []);
        case DictU32(codes, dict) =>
          U8(TAG_DICT);
          Uint(|codes|, 8);
          Codes(codes);
          StrVec(dict);
          Regroup(old(buf), [TAG_DICT], Le(|codes|, 8), EncList(CodeEnc, codes), TextsEnc(dict));
        case KeyF64(rows, ncols) =>
          U8(TAG_KEY);
          Uint(|rows|, 8);
          Uint(ncols, 8);
          KeyRows(c, rows);
          Regroup(old(buf), [TAG_KEY], Le(|rows|, 8), Le(ncols, 8), EncList(RowEnc(c), rows));
      }
    }

    method WriteColumn(c: Codec, name: Text, col: Column)
      modifies this
      ensures buf == old(buf) + EntryEnc(c)((name, col))
    {
      hide TextEnc, ContentEnc;
      Str(name);
      WriteContent(c, col);
      assert (old(buf) + TextEnc(name)) + ContentEnc(c, col) == old(buf) + (TextEnc(name) + ContentEnc(c, col));
    }

    method WriteMap(m: M.TableMap)
      modifies this
      ensures buf == old(buf) + MapEnc(m)
    {
      hide TextEnc, TextsEnc;
      Str(m.table);
      Str(m.pk);
      Str(m.keyCol);
      ghost var rest := TextsEnc(m.labelCols) + (TextsEnc(m.scalarCols) + TextsEnc(m.keyParts));
      ghost var names := buf;
      StrVec(m.labelCols);
      StrVec(m.scalarCols);
      StrVec(m.keyParts);
      Regroup(names, TextsEnc(m.labelCols), TextsEnc(m.scalarCols), TextsEnc(m.keyParts), []);
      assert buf == names + rest;
      Regroup(old(buf), TextEnc(m.table), TextEnc(m.pk), TextEnc(m.keyCol), rest);
    }

    /** The columns in order, unless one of them is missing. */
    method WriteTable(c: Codec, cols: Columns, order: seq<Text>) returns (ok: bool)
      modifies this
      ensures ok <==> forall i :: 0 <= i < |order| ==> order[i] in cols
      ensures ok ==> buf == old(buf) + TableEnc(c, Entries(cols, order))
    {
      hide EncList, Le;
      Uint(|order|, 4);
      var done: seq<Entry> := [];
      NothingWritten(c);
      ghost var head := buf;
      for i := 0 to |order|
        invariant |done| == i && forall k :: 0 <= k < i ==> order[k] in cols && done[k] == (order[k], cols[order[k]])
        invariant buf == head + EncList(EntryEnc(c), done)
      {
        if order[i] !in cols {
          return false;
        }
        EncListMore(EntryEnc(c), done, (order[i], cols[order[i]]));
        WriteColumn(c, order[i], cols[order[i]]);
        done := done + [(order[i], cols[order[i]])];
      }
      assert done == Entries(cols, order);
      assert head + EncList(EntryEnc(c), done) == old(buf) + (Le(|order|, 4) + EncList(EntryEnc(c), done));
      ok := true;
    }
  }

  lemma {:induction false} NothingWritten(c: Codec)
    ensures EncList(EntryEnc(c), []) == []
  {
  }

  lemma {:induction false} Regroup(a: bytes, b: bytes, c: bytes, d: bytes, e: bytes)
    ensures (((a + b) + c) + d) + e == a + (b + (c + (d + e)))
    ensures ((a + b) + c) + d == a + (b + (c + d))
  {
  }

  /** The bytes of the state file, unless a mapped column is missing from the table. */
  method Save(c: Codec, image: Image) returns (r: Option<bytes>)
    ensures r.Some? <==> Covered(image.m, image.state.cols)
    ensures r.Some? ==> r.value == File(c, image)
  {
    hide MapEnc, TableEnc, Le;
    var m, s := image.m, image.state;
    var e := new Enc();
    e.Uint(s.lastLsn, 8);
    e.Uint(s.rowsApplied, 8);
    e.Uint(s.txsApplied, 8);
    ghost var head := e.buf;
    e.WriteMap(m);
    var ok := e.WriteTable(c, s.cols, Order(m));
    if !ok {
      return None;
    }
    ghost var rest := MapEnc(m) + TableEnc(c, Entries(s.cols, Order(m)));
    assert e.buf == head + rest;
    Regroup(MAGIC, Le(s.lastLsn, 8), Le(s.rowsApplied, 8), Le(s.txsApplied, 8), rest);
    assert e.buf == Body(c, image);
    e.Uint(Fnv1a(e.buf), 8);
    r := Some(e.buf);
  }

  class Dec {
    const buf: bytes
    var pos: nat

    constructor (buf: bytes, pos: nat)
      ensures this.buf == buf && this.pos == pos
    {
      this.buf, this.pos := buf, pos;
    }

    method Take(n: nat) returns (r: Result<bytes, FileError>)
      modifies this
      ensures Reads(TakeAt(buf, old(pos), n, Truncated), r, pos)
    {
      var end := pos + n;
      if end > |buf| {
        return Err(Truncated);
      }
      r := Ok(buf[pos..end]);
      pos := end;
    }

    method Uint(k: nat) returns (r: Result<nat, FileError>)
      modifies this
      ensures Reads(UintAt(buf, old(pos), k), r, pos)
    {
      var s :- Take(k);
      r := Ok(FromLe(s));
    }

    method Str() returns (r: Result<Text, FileError>)
      modifies this
      ensures Reads(TextAt(buf, old(pos)), r, pos)
    {
      var n :- Uint(4);
      var s :- Take(n);
      if !Utf8.Valid(s) {
        return Err(BadText);
      }
      r := Ok(s);
    }

    method StrVec() returns (r: Result<seq<Text>, FileError>)
      modifies this
      ensures Reads(TextsAt(buf, old(pos)), r, pos)
    {
      hide TextAt;
      var n :- Uint(4);
      var v: seq<Text> := [];
      ghost var start := pos;
      PrependNothing(ListAt(TextRead, buf, pos, n));
      for i := 0 to n
        invariant ListAt(TextRead, buf, start, n) == Prepended(v, ListAt(TextRead, buf, pos, n - i))
      {
        var s :- Str();
        PrependMore(v, s, ListAt(TextRead, buf, pos, n - i - 1));
        v := v + [s];
      }
      assert v + [] == v;
      r := Ok(v);
    }

    method F64s(c: Codec, n: nat) returns (r: Result<seq<real>, FileError>)
      modifies this
      ensures Reads(ListAt(F64Read(c), buf, old(pos), n), r, pos)
    {
      var v: seq<real> := [];
      PrependNothing(ListAt(F64Read(c), buf, pos, n));
      for i := 0 to n
        invariant ListAt(F64Read(c), buf, old(pos), n) == Prepended(v, ListAt(F64Read(c), buf, pos, n - i))
      {
        ghost var here := pos;
        var bits :- Uint(8);
        assert F64At(c, buf, here) == Ok((c.fromBits(bits), pos));
        PrependMore(v, c.fromBits(bits), ListAt(F64Read(c), buf, pos, n - i - 1));
        v := v + [c.fromBits(bits)];
      }
      assert v + [] == v;
      r := Ok(v);
    }

    method Codes(n: nat) returns (r: Result<seq<nat>, FileError>)
      modifies this
      ensures Reads(ListAt(CodeRead, buf, old(pos), n), r, pos)
    {
      hide UintAt;
      var v: seq<nat> := [];
      PrependNothing(ListAt(CodeRead, buf, pos, n));
      for i := 0 to n
        invariant ListAt(CodeRead, buf, old(pos), n) == Prepended(v, ListAt(CodeRead, buf, pos, n - i))
      {
        var k :- Uint(4);
        PrependMore(v, k, ListAt(CodeRead, buf, pos, n - i - 1));
        v := v + [k];
      }
      assert v + [] == v;
      r := Ok(v);
    }

    method KeyRows(c: Codec, n: nat, ncols: nat) returns (r: Result<seq<seq<real>>, FileError>)
      modifies this
      ensures Reads(ListAt(RowRead(c, ncols), buf, old(pos), n), r, pos)
    {
      var v: seq<seq<real>> := [];
      PrependNothing(ListAt(RowRead(c, ncols), buf, pos, n));
      for i := 0 to n
        invariant ListAt(RowRead(c, ncols), buf, old(pos), n)
                  == Prepended(v, ListAt(RowRead(c, ncols), buf, pos, n - i))
      {
        var row :- F64s(c, ncols);
        PrependMore(v, row, ListAt(RowRead(c, ncols), buf, pos, n - i - 1));
        v := v + [row];
      }
      assert v + [] == v;
      r := Ok(v);
    }

    method ReadColumn(c: Codec) returns (r: Result<Column, FileError>)
      modifies this
      ensures Reads(ContentAt(c, buf, old(pos)), r, pos)
    {
      hide ListAt, UintAt, TextsAt, Cells, Wrapped;
      var tag :- Take(1);
      if tag[0] == TAG_SCALAR {
        var n :- Uint(8);
        var v :- F64s(c, n);
        r := Ok(ScalarF64(v));
      } else if tag[0] == TAG_DICT {
        var n :- Uint(8);
        var codes :- Codes(n);
        var dict :- StrVec();
        for i := 0 to |codes|
          invariant forall k :: 0 <= k < i ==> codes[k] < |dict|
        {
          if codes[i] >= |dict| {
            return Err(BadCode);
          }
        }
        r := Ok(DictU32(codes, dict));
      } else if tag[0] == TAG_KEY {
        var n :- Uint(8);
        var ncols :- Uint(8);
        if Cells(n, ncols) > MOST_CELLS {
          var _ :- F64s(c, Wrapped(n, ncols));
          return Err(BadShape);
        }
        var rows :- KeyRows(c, n, ncols);
        r := Ok(KeyF64(rows, ncols));
      } else {
        r := Err(BadTag);
      }
    }

    method ReadMap() returns (r: Result<M.TableMap, FileError>)
      modifies this
      ensures Reads(MapAt(buf, old(pos)), r, pos)
    {
      hide TextAt, TextsAt;
      var table :- Str();
      var pk :- Str();
      var keyCol :- Str();
      var labelCols :- StrVec();
      var scalarCols :- StrVec();
      var keyParts :- StrVec();
      r := Ok(M.TableMap(table, pk, keyCol, labelCols, scalarCols, keyParts));
    }

    method ReadEntry(c: Codec) returns (r: Result<Entry, FileError>)
      modifies this
      ensures Reads(EntryAt(c, buf, old(pos)), r, pos)
    {
      hide TextAt, ContentAt;
      var name :- Str();
      var col :- ReadColumn(c);
      r := Ok((name, col));
    }

    /** The columns; a column that occurs again replaces the one before. */
    method ReadTable(c: Codec) returns (r: Result<Columns, FileError>)
      modifies this
      ensures Reads(TableAt(c, buf, old(pos)), r, pos)
    {
      hide EntryAt, UintAt, ToColumns;
      var n :- Uint(4);
      var cols: Columns := map[];
      ghost var es: seq<Entry> := [];
      ghost var start := pos;
      ToColumnsOfNone();
      PrependNothing(ListAt(EntryRead(c), buf, pos, n));
      for i := 0 to n
        invariant ListAt(EntryRead(c), buf, start, n) == Prepended(es, ListAt(EntryRead(c), buf, pos, n - i))
        invariant cols == ToColumns(es)
      {
        var e :- ReadEntry(c);
        PrependMore(es, e, ListAt(EntryRead(c), buf, pos, n - i - 1));
        ToColumnsMore(es, e);
        cols := cols[e.0 := e.1];
        es := es + [e];
      }
      assert es + [] == es;
      r := Ok(cols);
    }
  }

  lemma {:induction false} ToColumnsOfNone()
    ensures ToColumns([]) == map[]
  {
  }

  lemma {:induction false} ToColumnsMore(es: seq<Entry>, e: Entry)
    ensures ToColumns(es + [e]) == ToColumns(es)[e.0 := e.1]
  {
    assert (es + [e])[..|es|] == es;
  }

  /** The mirror that a state file holds. */
  method LoadFile(c: Codec, file: bytes) returns (r: Result<Image, FileError>)
    ensures r == Load(c, file)
  {
    hide MapAt, TableAt, UintAt, Fnv1a;
    if |file| < 16 {
      return Err(TooShort);
    }
    if file[..8] != MAGIC {
      return Err(WrongMagic);
    }
    var body, trailer := file[..|file| - 8], file[|file| - 8..];
    if Fnv1a(body) != FromLe(trailer) {
      return Err(BadChecksum);
    }
    var d := new Dec(body, 8);
    var lsn :- d.Uint(8);
    var rows :- d.Uint(8);
    var txs :- d.Uint(8);
    var m :- d.ReadMap();
    var cols :- d.ReadTable(c);
    if d.pos != |body| {
      return Err(Trailing);
    }
    r := Ok(Image(m, M.State(cols, rows, txs, lsn)));
  }
}
