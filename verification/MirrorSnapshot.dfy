/** The first mirror: the columns built from the text rows of a snapshot are the rows that the same texts would
    have built one by one. */
module MirrorSnapshot {
  import opened Wrappers
  import opened MirrorTable
  import opened Mirror
  import Pgoutput

  type TextRow = seq<Option<Text>>

  /** A row of the snapshot as a tuple; values beyond the row are not there. */
  function TupleOf(names: seq<Text>, row: TextRow): (t: Tuple)
    ensures |t| == (if |names| <= |row| then |names| else |row|)
    ensures forall j :: 0 <= j < |t| ==>
      t[j] == (names[j], if row[j].Some? then Pgoutput.Value(row[j].value) else Pgoutput.SqlNull)
  {
    seq(if |names| <= |row| then |names| else |row|,
        j requires 0 <= j < |names| && j < |row| =>
          (names[j], if row[j].Some? then Pgoutput.Value(row[j].value) else Pgoutput.SqlNull))
  }

  function IndexOf(names: seq<Text>, c: Text): (k: nat)
    ensures k <= |names| && (k < |names| <==> c in names) && (k < |names| ==> names[k] == c)
    ensures forall j :: 0 <= j < k ==> names[j] != c
  {
    if names == [] || names[0] == c then 0 else 1 + IndexOf(names[1..], c)
  }

  /** The text of a column in a row. */
  function Cell(names: seq<Text>, row: TextRow, c: Text): Result<Text, ApplyError> {
    var k := IndexOf(names, c);
    if k == |names| then Err(MissingInTuple(c))
    else if k < |row| && row[k].Some? then Ok(row[k].value)
    else Err(NullIn(c))
  }

  /** The cell is the datum that a lookup in the tuple finds first. */
  lemma {:induction false} CellIsDatum(names: seq<Text>, row: TextRow, c: Text)
    ensures
      match Cell(names, row, c)
      case Ok(s) => DatumOf(TupleOf(names, row), c) == Ok(Pgoutput.Value(s))
      case Err(_) => DatumOf(TupleOf(names, row), c).Err? || DatumOf(TupleOf(names, row), c) == Ok(Pgoutput.SqlNull)
  {
    FirstDatum(TupleOf(names, row), c, IndexOf(names, c));
  }

  lemma {:induction false} FirstDatum(t: Tuple, c: Text, k: nat)
    requires forall j :: 0 <= j < |t| && j < k ==> t[j].0 != c
    requires k < |t| ==> t[k].0 == c
    ensures DatumOf(t, c) == if k < |t| then Ok(t[k].1) else Err(MissingInTuple(c))
    decreases |t|
  {
    if t != [] && k > 0 {
      assert forall j :: 0 <= j < |t[1..]| ==> t[1..][j] == t[j + 1];
      FirstDatum(t[1..], c, k - 1);
    }
  }

  // ------------------------------------------------------------------ columns

  ghost predicate ScalarColumn(parse: Parse, names: seq<Text>, rows: seq<TextRow>, c: Text, v: seq<real>) {
    |v| == |rows| && forall i :: 0 <= i < |rows| ==> ScalarOf(parse, TupleOf(names, rows[i]), None, c) == Ok(v[i])
  }

  ghost predicate LabelColumn(names: seq<Text>, rows: seq<TextRow>, c: Text, codes: seq<nat>, dict: seq<Text>) {
    |codes| == |rows| && forall i :: 0 <= i < |rows| ==>
      codes[i] < |dict| && LabelOf(TupleOf(names, rows[i]), None, c) == Ok(dict[codes[i]])
  }

  ghost predicate KeyColumn(parse: Parse, names: seq<Text>, rows: seq<TextRow>, parts: seq<Text>, keys: seq<seq<real>>) {
    |keys| == |rows| && forall i :: 0 <= i < |rows| ==>
      KeyVector(parse, TupleOf(names, rows[i]), None, parts, |parts|) == Ok(keys[i])
  }

  /** All rows of the snapshot have the scalar. */
  ghost predicate ScalarsThere(parse: Parse, names: seq<Text>, rows: seq<TextRow>, c: Text) {
    c in names && forall i :: 0 <= i < |rows| ==> ScalarOf(parse, TupleOf(names, rows[i]), None, c).Ok?
  }

  ghost predicate LabelsThere(names: seq<Text>, rows: seq<TextRow>, c: Text) {
    c in names && forall i :: 0 <= i < |rows| ==> LabelOf(TupleOf(names, rows[i]), None, c).Ok?
  }

  method ReadScalars(parse: Parse, names: seq<Text>, rows: seq<TextRow>, c: Text) returns (r: Result<seq<real>, ApplyError>)
    ensures r.Ok? <==> ScalarsThere(parse, names, rows, c)
    ensures r.Ok? ==> ScalarColumn(parse, names, rows, c, r.value)
  {
    hide TupleOf;
    if IndexOf(names, c) == |names| {
      return Err(MissingInTuple(c));
    }
    var v := [];
    for i := 0 to |rows|
      invariant |v| == i
      invariant forall k :: 0 <= k < i ==> ScalarOf(parse, TupleOf(names, rows[k]), None, c) == Ok(v[k])
    {
      CellIsDatum(names, rows[i], c);
      var s :- Cell(names, rows[i], c);
      var x :- Number(parse, s, c);
      v := v + [x];
    }
    r := Ok(v);
  }

  method ReadLabels(names: seq<Text>, rows: seq<TextRow>, c: Text) returns (r: Result<Column, ApplyError>)
    ensures r.Ok? <==> LabelsThere(names, rows, c)
    ensures r.Ok? ==> r.value.DictU32? && LabelColumn(names, rows, c, r.value.codes, r.value.dict)
  {
    hide TupleOf;
    if IndexOf(names, c) == |names| {
      return Err(MissingInTuple(c));
    }
    var codes: seq<nat>, dict: seq<Text> := [], [];
    for i := 0 to |rows|
      invariant |codes| == i
      invariant forall k :: 0 <= k < i ==>
        codes[k] < |dict| && LabelOf(TupleOf(names, rows[k]), None, c) == Ok(dict[codes[k]])
    {
      CellIsDatum(names, rows[i], c);
      var s :- Cell(names, rows[i], c);
      var k := Position(dict, s);
      if k == |dict| {
        dict := dict + [s];
      }
      codes := codes + [k];
    }
    r := Ok(DictU32(codes, dict));
  }

  method ReadKeys(parse: Parse, names: seq<Text>, rows: seq<TextRow>, parts: seq<Text>)
    returns (r: Result<seq<seq<real>>, ApplyError>)
    ensures r.Ok? <==> forall p :: p in parts ==> ScalarsThere(parse, names, rows, p)
    ensures r.Ok? ==> KeyColumn(parse, names, rows, parts, r.value)
  {
    hide TupleOf, ScalarOf;
    for j := 0 to |parts|
      invariant forall k :: 0 <= k < j ==> parts[k] in names
    {
      if IndexOf(names, parts[j]) == |names| {
        assert !ScalarsThere(parse, names, rows, parts[j]);
        return Err(MissingInTuple(parts[j]));
      }
    }
    var keys := [];
    for i := 0 to |rows|
      invariant |keys| == i
      invariant forall k :: 0 <= k < i ==> KeyVector(parse, TupleOf(names, rows[k]), None, parts, |parts|) == Ok(keys[k])
    {
      var key := ReadKey(parse, names, rows[i], parts);
      if key.Err? {
        KeyFailed(parse, names, rows, parts, i);
        return Err(key.error);
      }
      keys := keys + [key.value];
    }
    forall p | p in parts ensures ScalarsThere(parse, names, rows, p) {
      PartThere(parse, names, rows, parts, keys, p);
    }
    r := Ok(keys);
  }

  lemma {:induction false} KeyFailed(parse: Parse, names: seq<Text>, rows: seq<TextRow>, parts: seq<Text>, i: nat)
    requires i < |rows| && KeyVector(parse, TupleOf(names, rows[i]), None, parts, |parts|).Err?
    ensures exists p :: p in parts && !ScalarsThere(parse, names, rows, p)
  {
    hide TupleOf, ScalarOf;
    var t := TupleOf(names, rows[i]);
    if forall j :: 0 <= j < |parts| ==> ScalarOf(parse, t, None, parts[j]).Ok? {
      KeyVectorOk(parse, t, parts, |parts|);
      assert false;
    }
    var j :| 0 <= j < |parts| && ScalarOf(parse, t, None, parts[j]).Err?;
    assert !ScalarsThere(parse, names, rows, parts[j]);
  }

  lemma {:induction false} KeyVectorOk(parse: Parse, t: Tuple, parts: seq<Text>, k: nat)
    requires k <= |parts| && forall j :: 0 <= j < k ==> ScalarOf(parse, t, None, parts[j]).Ok?
    ensures KeyVector(parse, t, None, parts, k).Ok?
  {
    if k > 0 {
      KeyVectorOk(parse, t, parts, k - 1);
    }
  }

  lemma {:induction false} PartThere(parse: Parse, names: seq<Text>, rows: seq<TextRow>, parts: seq<Text>,
                                     keys: seq<seq<real>>, p: Text)
    requires KeyColumn(parse, names, rows, parts, keys) && p in parts && forall q :: q in parts ==> q in names
    ensures ScalarsThere(parse, names, rows, p)
  {
    hide TupleOf, ScalarOf;
    var j :| 0 <= j < |parts| && parts[j] == p;
    forall i | 0 <= i < |rows| ensures ScalarOf(parse, TupleOf(names, rows[i]), None, p).Ok? {
      KeyVectorIs(parse, TupleOf(names, rows[i]), None, parts, |parts|);
    }
  }

  method ReadKey(parse: Parse, names: seq<Text>, row: TextRow, parts: seq<Text>) returns (r: Result<seq<real>, ApplyError>)
    requires forall p :: p in parts ==> p in names
    ensures
      match KeyVector(parse, TupleOf(names, row), None, parts, |parts|)
      case Ok(key) => r == Ok(key)
      case Err(_) => r.Err?
  {
    hide TupleOf;
    var key := [];
    for j := 0 to |parts|
      invariant KeyVector(parse, TupleOf(names, row), None, parts, j) == Ok(key)
    {
      CellIsDatum(names, row, parts[j]);
      var s := Cell(names, row, parts[j]);
      var x := if s.Ok? then Number(parse, s.value, parts[j]) else Err(s.error);
      if x.Err? {
        KeyVectorFails(parse, TupleOf(names, row), None, parts, j);
        return Err(x.error);
      }
      key := key + [x.value];
    }
    r := Ok(key);
  }

  // ------------------------------------------------------------------ the table

  /** Every mapped column is in the snapshot, and every row of it makes a row. */
  ghost predicate Complete(m: TableMap, parse: Parse, names: seq<Text>, rows: seq<TextRow>) {
    && (forall c :: c in m.scalarCols || c in m.labelCols ==> c in names)
    && forall i :: 0 <= i < |rows| ==> RowFrom(m, parse, TupleOf(names, rows[i]), None).Ok?
  }

  lemma {:induction false} CompleteIff(m: TableMap, parse: Parse, names: seq<Text>, rows: seq<TextRow>)
    requires MapOk(m)
    ensures Complete(m, parse, names, rows) <==>
      (forall c :: c in m.scalarCols ==> ScalarsThere(parse, names, rows, c))
      && (forall c :: c in m.labelCols ==> LabelsThere(names, rows, c))
  {
    hide TupleOf, ScalarOf, LabelOf, RowFrom;
    forall i | 0 <= i < |rows|
      ensures RowFrom(m, parse, TupleOf(names, rows[i]), None).Ok? <==>
        (forall c :: c in m.scalarCols ==> ScalarOf(parse, TupleOf(names, rows[i]), None, c).Ok?)
        && (forall c :: c in m.labelCols ==> LabelOf(TupleOf(names, rows[i]), None, c).Ok?)
    {
      RowFromIff(m, parse, TupleOf(names, rows[i]));
    }
  }

  lemma {:induction false} RowFromIff(m: TableMap, parse: Parse, t: Tuple)
    requires MapOk(m)
    ensures RowFrom(m, parse, t, None).Ok? <==>
      (forall c :: c in m.scalarCols ==> ScalarOf(parse, t, None, c).Ok?)
      && (forall c :: c in m.labelCols ==> LabelOf(t, None, c).Ok?)
  {
    hide ScalarOf, LabelOf, RowOk;
    if RowFrom(m, parse, t, None).Ok? {
      RowFromOk(m, parse, t, None);
    }
    if (forall c :: c in m.scalarCols ==> ScalarOf(parse, t, None, c).Ok?)
       && (forall c :: c in m.labelCols ==> LabelOf(t, None, c).Ok?) {
      ScalarCellsOk(parse, t, m.scalarCols, |m.scalarCols|);
      LabelCellsOk(t, ScalarCells(parse, t, None, m.scalarCols, |m.scalarCols|).value, m.labelCols, |m.labelCols|);
      KeyVectorOk(parse, t, m.keyParts, |m.keyParts|);
    }
  }

  lemma {:induction false} ScalarCellsOk(parse: Parse, t: Tuple, names: seq<Text>, k: nat)
    requires k <= |names| && forall c :: c in names ==> ScalarOf(parse, t, None, c).Ok?
    ensures ScalarCells(parse, t, None, names, k).Ok?
  {
    if k > 0 {
      ScalarCellsOk(parse, t, names, k - 1);
    }
  }

  lemma {:induction false} LabelCellsOk(t: Tuple, row: RowValues, names: seq<Text>, k: nat)
    requires k <= |names| && forall c :: c in names ==> LabelOf(t, None, c).Ok?
    ensures LabelCells(t, None, row, names, k).Ok?
  {
    if k > 0 {
      LabelCellsOk(t, row, names, k - 1);
    }
  }

  /** The columns read so far are those of the snapshot. */
  ghost predicate ColumnsOf(m: TableMap, parse: Parse, names: seq<Text>, rows: seq<TextRow>, cols: Columns) {
    && (forall c :: c in m.scalarCols ==> c in cols && cols[c].ScalarF64? && ScalarColumn(parse, names, rows, c, cols[c].v))
    && (forall c :: c in m.labelCols ==>
          c in cols && cols[c].DictU32? && LabelColumn(names, rows, c, cols[c].codes, cols[c].dict))
    && m.keyCol in cols && cols[m.keyCol].KeyF64? && cols[m.keyCol].ncols == |m.keyParts|
    && KeyColumn(parse, names, rows, m.keyParts, cols[m.keyCol].rows)
    && forall c :: c in cols ==> c in m.scalarCols || c in m.labelCols || c == m.keyCol
  }

  lemma {:induction false} ColumnsAreRect(m: TableMap, parse: Parse, names: seq<Text>, rows: seq<TextRow>,
                                          cols: Columns)
    requires MapOk(m) && ColumnsOf(m, parse, names, rows, cols)
    ensures Layout(m, cols) && NRows(m, cols) == |rows|
  {
    hide TupleOf, ScalarOf, LabelOf, KeyVector;
    forall i | 0 <= i < |rows| ensures |cols[m.keyCol].rows[i]| == |m.keyParts| {
      KeyVectorIs(parse, TupleOf(names, rows[i]), None, m.keyParts, |m.keyParts|);
    }
  }

  lemma {:induction false} RowOfColumns(m: TableMap, parse: Parse, names: seq<Text>, rows: seq<TextRow>,
                                        cols: Columns, i: nat)
    requires MapOk(m) && ColumnsOf(m, parse, names, rows, cols) && Layout(m, cols) && NRows(m, cols) == |rows|
    requires i < |rows| && Complete(m, parse, names, rows)
    ensures RowOk(m, RowAt(cols, |rows|, i))
    ensures Ok(RowAt(cols, |rows|, i)) == RowFrom(m, parse, TupleOf(names, rows[i]), None)
  {
    hide TupleOf, ScalarOf, LabelOf, KeyVector, RowFrom;
    var t := TupleOf(names, rows[i]);
    var row, want := RowAt(cols, |rows|, i), RowFrom(m, parse, t, None).value;
    RowFromOk(m, parse, t, None);
    KeyVectorIs(parse, t, None, m.keyParts, |m.keyParts|);
    forall j | 0 <= j < |m.keyParts|
      ensures m.keyParts[j] in row && row[m.keyParts[j]] == Num(row[m.keyCol].key[j])
    {
      assert m.keyParts[j] in m.scalarCols;
    }
    assert RowOk(m, row);
    SameRow(m, row, want);
  }

  /** The columns hold the rows that the texts of the snapshot make. */
  ghost predicate BuiltFrom(m: TableMap, parse: Parse, names: seq<Text>, rows: seq<TextRow>, cols: Columns) {
    && MapOk(m) && Shape(m, cols) && NRows(m, cols) == |rows|
    && forall i :: 0 <= i < |rows| ==> Ok(Rows(m, cols)[i]) == RowFrom(m, parse, TupleOf(names, rows[i]), None)
  }

  lemma {:induction false} ColumnsAreBuilt(m: TableMap, parse: Parse, names: seq<Text>, rows: seq<TextRow>, cols: Columns)
    requires MapOk(m) && ColumnsOf(m, parse, names, rows, cols) && Complete(m, parse, names, rows)
    ensures BuiltFrom(m, parse, names, rows, cols)
  {
    hide TupleOf, RowFrom, ScalarColumn, LabelColumn, KeyColumn, RowOk, Rect, RowAt, ColumnsOf, Complete;
    ColumnsAreRect(m, parse, names, rows, cols);
    forall i | 0 <= i < |rows|
      ensures RowOk(m, RowAt(cols, |rows|, i))
      ensures Ok(RowAt(cols, |rows|, i)) == RowFrom(m, parse, TupleOf(names, rows[i]), None)
    {
      RowOfColumns(m, parse, names, rows, cols, i);
    }
  }

  /** The mirror table of a snapshot. It exists exactly when every mapped column is there and every value is
      present and, where it must be, a number; its rows are the rows of the snapshot. */
  method FromSnapshot(m: TableMap, parse: Parse, names: seq<Text>, rows: seq<TextRow>)
    returns (r: Result<Columns, ApplyError>)
    requires MapOk(m)
    ensures r.Ok? <==> Complete(m, parse, names, rows)
    ensures r.Ok? ==> BuiltFrom(m, parse, names, rows, r.value)
  {
    hide TupleOf, ScalarOf, LabelOf, KeyVector, RowFrom, Complete, ScalarsThere, LabelsThere, ScalarColumn, LabelColumn,
         KeyColumn, RowOk, Rect;
    CompleteIff(m, parse, names, rows);
    var cols: Columns := map[];
    for k := 0 to |m.scalarCols|
      invariant forall c :: c in cols <==> c in m.scalarCols[..k]
      invariant forall c :: c in cols ==> cols[c].ScalarF64? && ScalarColumn(parse, names, rows, c, cols[c].v)
      invariant forall c :: c in m.scalarCols[..k] ==> ScalarsThere(parse, names, rows, c)
    {
      assert m.scalarCols[k] in m.scalarCols;
      var v :- ReadScalars(parse, names, rows, m.scalarCols[k]);
      cols := cols[m.scalarCols[k] := ScalarF64(v)];
      assert m.scalarCols[..k + 1] == m.scalarCols[..k] + [m.scalarCols[k]];
    }
    assert m.scalarCols[..|m.scalarCols|] == m.scalarCols;
    ghost var scalars := cols;
    for k := 0 to |m.labelCols|
      invariant forall c :: c in cols <==> c in m.scalarCols || c in m.labelCols[..k]
      invariant forall c :: c in m.scalarCols ==> cols[c] == scalars[c]
      invariant forall c :: c in m.labelCols[..k] ==>
        cols[c].DictU32? && LabelColumn(names, rows, c, cols[c].codes, cols[c].dict)
      invariant forall c :: c in m.labelCols[..k] ==> LabelsThere(names, rows, c)
    {
      assert m.labelCols[k] in m.labelCols;
      var col :- ReadLabels(names, rows, m.labelCols[k]);
      cols := cols[m.labelCols[k] := col];
      assert m.labelCols[..k + 1] == m.labelCols[..k] + [m.labelCols[k]];
    }
    assert m.labelCols[..|m.labelCols|] == m.labelCols;
    // The key parts are scalar columns, so this read does not fail any more.
    var keys := ReadKeys(parse, names, rows, m.keyParts);
    cols := cols[m.keyCol := KeyF64(keys.value, |m.keyParts|)];
    assert ColumnsOf(m, parse, names, rows, cols);
    ColumnsAreBuilt(m, parse, names, rows, cols);
    r := Ok(cols);
  }

  // ------------------------------------------------------------------ the table it stands for

  /** The first `n` rows by their keys. */
  ghost function Keyed(v: seq<real>, rows: seq<RowValues>, n: nat): Upstream
    requires n <= |v| == |rows|
  {
    if n == 0 then map[] else Keyed(v, rows, n - 1)[v[n - 1] := rows[n - 1]]
  }

  lemma {:induction false} KeyedHolds(v: seq<real>, rows: seq<RowValues>, n: nat)
    requires n <= |v| == |rows| && forall i, j :: 0 <= i < j < |v| ==> v[i] != v[j]
    ensures Holds(v[..n], rows[..n], Keyed(v, rows, n))
  {
    if n > 0 {
      KeyedHolds(v, rows, n - 1);
      HoldsMore(v[..n - 1], rows[..n - 1], Keyed(v, rows, n - 1), v[n - 1], rows[n - 1]);
      assert v[..n] == v[..n - 1] + [v[n - 1]] && rows[..n] == rows[..n - 1] + [rows[n - 1]];
    }
  }

  /** No two rows of the snapshot parse to one key. */
  ghost predicate KeysDiffer(m: TableMap, parse: Parse, names: seq<Text>, rows: seq<TextRow>) {
    forall i, j :: 0 <= i < j < |rows| ==>
      ScalarOf(parse, TupleOf(names, rows[i]), None, m.pk) != ScalarOf(parse, TupleOf(names, rows[j]), None, m.pk)
  }

  /** The table of the snapshot. */
  ghost function TableOf(m: TableMap, cols: Columns): Upstream
    requires MapOk(m) && Shape(m, cols)
  {
    Keyed(cols[m.pk].v, Rows(m, cols), NRows(m, cols))
  }

  lemma {:induction false} KeyIsParsed(m: TableMap, parse: Parse, names: seq<Text>, rows: seq<TextRow>, cols: Columns,
                                       i: nat)
    requires BuiltFrom(m, parse, names, rows, cols) && i < |rows|
    ensures |cols[m.pk].v| == |rows|
    ensures ScalarOf(parse, TupleOf(names, rows[i]), None, m.pk) == Ok(cols[m.pk].v[i])
  {
    hide ScalarOf, TupleOf, RowFrom;
    KeyAt(m, cols, i);
    assert Ok(Rows(m, cols)[i]) == RowFrom(m, parse, TupleOf(names, rows[i]), None);
    RowFromOk(m, parse, TupleOf(names, rows[i]), None);
  }

  /** A mirror built from a snapshot mirrors some table, the one of its rows, if and only if no two rows of the snapshot
      parse to one key. */
  lemma {:induction false} SnapshotMirrorsIff(m: TableMap, parse: Parse, names: seq<Text>, rows: seq<TextRow>,
                                              cols: Columns)
    requires BuiltFrom(m, parse, names, rows, cols)
    ensures KeysDiffer(m, parse, names, rows) <==> exists up :: Mirrors(m, cols, up)
    ensures KeysDiffer(m, parse, names, rows) ==> Mirrors(m, cols, TableOf(m, cols))
  {
    KeyCount(m, cols);
    var v := cols[m.pk].v;
    hide ScalarOf, TupleOf, RowFrom, Shape, Rows;
    forall i | 0 <= i < |rows|
      ensures |v| == |rows| && ScalarOf(parse, TupleOf(names, rows[i]), None, m.pk) == Ok(v[i])
    {
      KeyIsParsed(m, parse, names, rows, cols, i);
    }
    if KeysDiffer(m, parse, names, rows) {
      KeyedHolds(v, Rows(m, cols), |v|);
      assert v[..|v|] == v && Rows(m, cols)[..|v|] == Rows(m, cols);
      assert Mirrors(m, cols, TableOf(m, cols));
    }
    if exists up :: Mirrors(m, cols, up) {
      var up :| Mirrors(m, cols, up);
      forall i, j | 0 <= i < j < |rows|
        ensures ScalarOf(parse, TupleOf(names, rows[i]), None, m.pk) != ScalarOf(parse, TupleOf(names, rows[j]), None, m.pk)
      {
        assert v[i] != v[j];
      }
    }
  }

  lemma {:induction false} KeyCount(m: TableMap, cols: Columns)
    requires MapOk(m) && Shape(m, cols)
    ensures m.pk in cols && cols[m.pk].ScalarF64? && |cols[m.pk].v| == NRows(m, cols) == |Rows(m, cols)|
  {
  }
}
