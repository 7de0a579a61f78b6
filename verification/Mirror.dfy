/** Applying committed transactions to the mirror, and why the mirror then simulates the keyed table upstream. */
module Mirror {
  import opened Wrappers
  import opened Bytes
  import opened MirrorTable
  import opened Counting
  import Pgoutput
  import TxAssembler

  type Tuple = TxAssembler.NamedTuple
  type RowChange = TxAssembler.RowChange
  type CommittedTx = TxAssembler.CommittedTx

  /** How the relation upstream maps onto the table of the mirror. */
  datatype TableMap = TableMap(table: Text, pk: Text, keyCol: Text, labelCols: seq<Text>, scalarCols: seq<Text>,
                               keyParts: seq<Text>)

  /** Numbers as text; what is not a finite number has no value. */
  type Parse = Text -> Option<real>

  datatype ApplyError =
    | MissingInTuple(col: Text)
    | NullIn(col: Text)
    | UnchangedIn(col: Text)
    | NotANumber(col: Text)
    | NotMirrored(col: Text)
    | CannotLocate
    | NotInMirror(key: real)
    | RemovedRows(n: nat)
    | Database(e: DbError)

  /** The key and its parts are scalar columns, and no name is used for two kinds of column. */
  ghost predicate MapOk(m: TableMap) {
    && m.pk in m.scalarCols && m.keyCol !in m.scalarCols && m.keyCol !in m.labelCols
    && (forall p :: p in m.keyParts ==> p in m.scalarCols)
    && (forall c :: c in m.scalarCols ==> c !in m.labelCols)
  }

  // ------------------------------------------------------------------ rows from tuples

  /** The datum under a name; the first one when the name occurs twice. */
  function DatumOf(t: Tuple, name: Text): Result<Pgoutput.TupleDatum, ApplyError> {
    if t == [] then Err(MissingInTuple(name))
    else if t[0].0 == name then Ok(t[0].1)
    else DatumOf(t[1..], name)
  }

  function Lookup(t: Tuple, name: Text): Result<Text, ApplyError> {
    var d :- DatumOf(t, name);
    match d
    case Value(s) => Ok(s)
    case SqlNull => Err(NullIn(name))
    case Unchanged => Err(UnchangedIn(name))
  }

  function Number(parse: Parse, s: Text, name: Text): Result<real, ApplyError> {
    match parse(s)
    case Some(x) => Ok(x)
    case None => Err(NotANumber(name))
  }

  /** Where unchanged datums are looked up: a row of the mirror as it is now, when there is one. */
  type Current = Option<RowValues>

  function ScalarOf(parse: Parse, t: Tuple, current: Current, name: Text): Result<real, ApplyError> {
    var d :- DatumOf(t, name);
    match d
    case Value(s) => Number(parse, s, name)
    case SqlNull => Err(NullIn(name))
    case Unchanged =>
      if current.None? then Err(UnchangedIn(name))
      else if name in current.value && current.value[name].Num? then Ok(current.value[name].x)
      else Err(NotMirrored(name))
  }

  function LabelOf(t: Tuple, current: Current, name: Text): Result<Text, ApplyError> {
    var d :- DatumOf(t, name);
    match d
    case Value(s) => Ok(s)
    case SqlNull => Err(NullIn(name))
    case Unchanged =>
      if current.None? then Err(UnchangedIn(name))
      else if name in current.value && current.value[name].Label? then Ok(current.value[name].text)
      else Err(NotMirrored(name))
  }

  /** The scalar cells of the first `k` columns, then the label cells, then the key. */
  function ScalarCells(parse: Parse, t: Tuple, current: Current, names: seq<Text>, k: nat): Result<RowValues, ApplyError>
    requires k <= |names|
  {
    if k == 0 then Ok(map[])
    else
      var row :- ScalarCells(parse, t, current, names, k - 1);
      var x :- ScalarOf(parse, t, current, names[k - 1]);
      Ok(row[names[k - 1] := Num(x)])
  }

  function LabelCells(t: Tuple, current: Current, row: RowValues, names: seq<Text>, k: nat): Result<RowValues, ApplyError>
    requires k <= |names|
  {
    if k == 0 then Ok(row)
    else
      var more :- LabelCells(t, current, row, names, k - 1);
      var s :- LabelOf(t, current, names[k - 1]);
      Ok(more[names[k - 1] := Label(s)])
  }

  function KeyVector(parse: Parse, t: Tuple, current: Current, parts: seq<Text>, k: nat): Result<seq<real>, ApplyError>
    requires k <= |parts|
  {
    if k == 0 then Ok([])
    else
      var key :- KeyVector(parse, t, current, parts, k - 1);
      var x :- ScalarOf(parse, t, current, parts[k - 1]);
      Ok(key + [x])
  }

  function RowFrom(m: TableMap, parse: Parse, t: Tuple, current: Current): Result<RowValues, ApplyError> {
    var scalars :- ScalarCells(parse, t, current, m.scalarCols, |m.scalarCols|);
    var cells :- LabelCells(t, current, scalars, m.labelCols, |m.labelCols|);
    var key :- KeyVector(parse, t, current, m.keyParts, |m.keyParts|);
    Ok(cells[m.keyCol := Vector(key)])
  }

  /** A row of the mapped columns whose key vector is made of its key-part scalars. */
  ghost predicate RowOk(m: TableMap, row: RowValues) {
    && (forall c :: c in row <==> c in m.scalarCols || c in m.labelCols || c == m.keyCol)
    && (forall c :: c in m.scalarCols ==> c in row && row[c].Num?)
    && (forall c :: c in m.labelCols ==> c in row && row[c].Label?)
    && m.keyCol in row && row[m.keyCol].Vector? && |row[m.keyCol].key| == |m.keyParts|
    && forall j :: 0 <= j < |m.keyParts| ==>
      m.keyParts[j] in row && row[m.keyParts[j]] == Num(row[m.keyCol].key[j])
  }

  lemma {:induction false} ScalarCellsAre(parse: Parse, t: Tuple, current: Current, names: seq<Text>, k: nat)
    requires k <= |names| && ScalarCells(parse, t, current, names, k).Ok?
    ensures
      var row := ScalarCells(parse, t, current, names, k).value;
      && (forall c :: c in row <==> c in names[..k])
      && forall c :: c in row ==> ScalarOf(parse, t, current, c).Ok? && row[c] == Num(ScalarOf(parse, t, current, c).value)
  {
    if k > 0 {
      ScalarCellsAre(parse, t, current, names, k - 1);
      assert names[..k] == names[..k - 1] + [names[k - 1]];
    }
  }

  lemma {:induction false} LabelCellsAre(t: Tuple, current: Current, row: RowValues, names: seq<Text>, k: nat)
    requires k <= |names| && LabelCells(t, current, row, names, k).Ok?
    ensures
      var all := LabelCells(t, current, row, names, k).value;
      && (forall c :: c in all <==> c in row || c in names[..k])
      && forall c :: c in all ==>
        if c in names[..k] then LabelOf(t, current, c).Ok? && all[c] == Label(LabelOf(t, current, c).value)
        else c in row && all[c] == row[c]
  {
    if k > 0 {
      LabelCellsAre(t, current, row, names, k - 1);
      assert names[..k] == names[..k - 1] + [names[k - 1]];
    }
  }

  lemma {:induction false} KeyVectorIs(parse: Parse, t: Tuple, current: Current, parts: seq<Text>, k: nat)
    requires k <= |parts| && KeyVector(parse, t, current, parts, k).Ok?
    ensures
      var key := KeyVector(parse, t, current, parts, k).value;
      && |key| == k
      && forall j :: 0 <= j < k ==> ScalarOf(parse, t, current, parts[j]) == Ok(key[j])
  {
    if k > 0 {
      KeyVectorIs(parse, t, current, parts, k - 1);
    }
  }

  /** Every row that is built is a row of the mapped columns, with its key vector in step. */
  lemma {:induction false} RowFromOk(m: TableMap, parse: Parse, t: Tuple, current: Current)
    requires MapOk(m) && RowFrom(m, parse, t, current).Ok?
    ensures RowOk(m, RowFrom(m, parse, t, current).value)
    ensures
      var row := RowFrom(m, parse, t, current).value;
      && (forall c :: c in m.scalarCols ==> c in row && row[c].Num? && ScalarOf(parse, t, current, c) == Ok(row[c].x))
      && (forall c :: c in m.labelCols ==> c in row && row[c].Label? && LabelOf(t, current, c) == Ok(row[c].text))
  {
    var scalars := ScalarCells(parse, t, current, m.scalarCols, |m.scalarCols|).value;
    ScalarCellsAre(parse, t, current, m.scalarCols, |m.scalarCols|);
    LabelCellsAre(t, current, scalars, m.labelCols, |m.labelCols|);
    KeyVectorIs(parse, t, current, m.keyParts, |m.keyParts|);
    assert m.scalarCols[..|m.scalarCols|] == m.scalarCols && m.labelCols[..|m.labelCols|] == m.labelCols;
  }

  /** The datum is the text of the value, or stands for the value that the row had before. */
  ghost predicate Writes(parse: Parse, t: Tuple, name: Text, x: MirrorTable.Value, before: Current) {
    match DatumOf(t, name)
    case Ok(Value(s)) => if x.Num? then parse(s) == Some(x.x) else x == Label(s)
    case Ok(Unchanged) => before.Some? && name in before.value && before.value[name] == x
    case _ => false
  }

  ghost predicate WritesRow(m: TableMap, parse: Parse, t: Tuple, row: RowValues, before: Current)
    requires RowOk(m, row)
  {
    && (forall c :: c in m.scalarCols ==> Writes(parse, t, c, row[c], before))
    && (forall c :: c in m.labelCols ==> Writes(parse, t, c, row[c], before))
  }

  lemma {:induction false} ScalarCellsFrom(m: TableMap, parse: Parse, t: Tuple, row: RowValues, before: Current, k: nat)
    requires RowOk(m, row) && WritesRow(m, parse, t, row, before) && k <= |m.scalarCols|
    ensures ScalarCells(parse, t, before, m.scalarCols, k).Ok?
  {
    if k > 0 {
      ScalarCellsFrom(m, parse, t, row, before, k - 1);
      assert m.scalarCols[k - 1] in m.scalarCols;
    }
  }

  lemma {:induction false} LabelCellsFrom(m: TableMap, parse: Parse, t: Tuple, row: RowValues, before: Current,
                                          base: RowValues, k: nat)
    requires RowOk(m, row) && WritesRow(m, parse, t, row, before) && k <= |m.labelCols|
    ensures LabelCells(t, before, base, m.labelCols, k).Ok?
  {
    if k > 0 {
      LabelCellsFrom(m, parse, t, row, before, base, k - 1);
      assert m.labelCols[k - 1] in m.labelCols;
    }
  }

  lemma {:induction false} KeyVectorFrom(m: TableMap, parse: Parse, t: Tuple, row: RowValues, before: Current, k: nat)
    requires MapOk(m) && RowOk(m, row) && WritesRow(m, parse, t, row, before) && k <= |m.keyParts|
    ensures KeyVector(parse, t, before, m.keyParts, k) == Ok(row[m.keyCol].key[..k])
  {
    if k > 0 {
      KeyVectorFrom(m, parse, t, row, before, k - 1);
      assert m.keyParts[k - 1] in m.keyParts;
      assert row[m.keyCol].key[..k] == row[m.keyCol].key[..k - 1] + [row[m.keyCol].key[k - 1]];
    }
  }

  lemma {:induction false} RowFromExists(m: TableMap, parse: Parse, t: Tuple, row: RowValues, before: Current)
    requires MapOk(m) && RowOk(m, row) && WritesRow(m, parse, t, row, before)
    ensures RowFrom(m, parse, t, before).Ok?
  {
    hide RowOk, WritesRow;
    ScalarCellsFrom(m, parse, t, row, before, |m.scalarCols|);
    var scalars := ScalarCells(parse, t, before, m.scalarCols, |m.scalarCols|).value;
    LabelCellsFrom(m, parse, t, row, before, scalars, |m.labelCols|);
    KeyVectorFrom(m, parse, t, row, before, |m.keyParts|);
  }

  lemma {:induction false} WrittenScalar(m: TableMap, parse: Parse, t: Tuple, row: RowValues, before: Current, c: Text)
    requires RowOk(m, row) && WritesRow(m, parse, t, row, before) && c in m.scalarCols
    ensures ScalarOf(parse, t, before, c) == Ok(row[c].x)
  {
    assert Writes(parse, t, c, row[c], before);
  }

  lemma {:induction false} WrittenLabel(m: TableMap, parse: Parse, t: Tuple, row: RowValues, before: Current, c: Text)
    requires RowOk(m, row) && WritesRow(m, parse, t, row, before) && c in m.labelCols
    ensures LabelOf(t, before, c) == Ok(row[c].text)
  {
    assert Writes(parse, t, c, row[c], before);
  }

  /** Rows with the same scalars and labels have the same key vector, and so are the same. */
  lemma {:induction false} SameRow(m: TableMap, a: RowValues, b: RowValues)
    requires MapOk(m) && RowOk(m, a) && RowOk(m, b)
    requires forall c :: c in m.scalarCols || c in m.labelCols ==> a[c] == b[c]
    ensures a == b
  {
    forall j | 0 <= j < |m.keyParts| ensures a[m.keyCol].key[j] == b[m.keyCol].key[j] {
      assert m.keyParts[j] in m.scalarCols;
    }
    assert a[m.keyCol].key == b[m.keyCol].key;
    assert a.Keys == b.Keys;
  }

  /** A tuple that writes a row gives back that row. */
  lemma {:induction false} RowRoundTrip(m: TableMap, parse: Parse, t: Tuple, row: RowValues, before: Current)
    requires MapOk(m) && RowOk(m, row) && WritesRow(m, parse, t, row, before)
    ensures RowFrom(m, parse, t, before) == Ok(row)
  {
    hide RowFrom, WritesRow, ScalarOf, LabelOf;
    RowFromExists(m, parse, t, row, before);
    RowFromOk(m, parse, t, before);
    var built := RowFrom(m, parse, t, before).value;
    forall c | c in m.scalarCols || c in m.labelCols ensures built[c] == row[c] {
      if c in m.scalarCols {
        WrittenScalar(m, parse, t, row, before, c);
      } else {
        WrittenLabel(m, parse, t, row, before, c);
      }
    }
    SameRow(m, built, row);
  }

  // ------------------------------------------------------------------ the mirror table

  function NRows(m: TableMap, cols: Columns): nat {
    if m.pk in cols then Len(cols[m.pk]) else 0
  }

  /** The table has exactly the mapped columns, each of its kind, all of one length. */
  ghost predicate Layout(m: TableMap, cols: Columns) {
    && (forall c :: c in cols <==> c in m.scalarCols || c in m.labelCols || c == m.keyCol)
    && (forall c :: c in m.scalarCols ==> c in cols && cols[c].ScalarF64?)
    && (forall c :: c in m.labelCols ==> c in cols && cols[c].DictU32?)
    && m.keyCol in cols && cols[m.keyCol].KeyF64? && cols[m.keyCol].ncols == |m.keyParts|
    && Rect(cols, NRows(m, cols))
  }

  /** And every row's key vector is made of its key-part scalars. */
  ghost predicate Shape(m: TableMap, cols: Columns) {
    Layout(m, cols) && forall i :: 0 <= i < NRows(m, cols) ==> RowOk(m, RowAt(cols, NRows(m, cols), i))
  }

  lemma {:induction false} SameLayout(m: TableMap, cols: Columns, after: Columns, n: nat)
    requires MapOk(m) && Layout(m, cols) && SameKinds(cols, after) && Rect(after, n)
    ensures Layout(m, after) && NRows(m, after) == n
  {
    assert forall c :: c in cols ==> SameKind(cols[c], after[c]);
  }

  /** A row of the mapped columns is always accepted. */
  lemma {:induction false} InsertKeepsShape(m: TableMap, cols: Columns, row: RowValues)
    requires MapOk(m) && Shape(m, cols) && RowOk(m, row)
    ensures InsertRow(cols, row).Ok?
    ensures
      var n, after := NRows(m, cols), InsertRow(cols, row).value;
      && Shape(m, after) && NRows(m, after) == n + 1 && RowAt(after, n + 1, n) == row
      && forall i :: 0 <= i < n ==> RowAt(after, n + 1, i) == RowAt(cols, n, i)
  {
    var n := NRows(m, cols);
    RowSuits(m, cols, row);
    InsertAppends(cols, n, row);
    var after := InsertRow(cols, row).value;
    SameLayout(m, cols, after, n + 1);
    var n' := n + 1;
    forall i | 0 <= i < n' ensures RowOk(m, RowAt(after, n', i)) {
      if i < n {
        assert RowAt(after, n', i) == RowAt(cols, n, i);
      }
    }
  }

  lemma {:induction false} RowSuits(m: TableMap, cols: Columns, row: RowValues)
    requires Layout(m, cols) && RowOk(m, row)
    ensures row.Keys == cols.Keys && forall c :: c in cols ==> Suits(cols[c], row[c])
  {
  }

  lemma {:induction false} DeleteKeepsShape(m: TableMap, cols: Columns, key: real)
    requires MapOk(m) && Shape(m, cols)
    ensures cols[m.pk].ScalarF64? && Len(cols[m.pk]) == NRows(m, cols)
    ensures DeleteWhere(cols, NRows(m, cols), m.pk, key).Ok?
    ensures
      var n := NRows(m, cols);
      var idx, after := Kept(cols[m.pk].v, key, n), DeleteWhere(cols, n, m.pk, key).value.0;
      && Shape(m, after) && NRows(m, after) == |idx| == n - DeleteWhere(cols, n, m.pk, key).value.1
      && forall k :: 0 <= k < |idx| ==> RowAt(after, |idx|, k) == RowAt(cols, n, idx[k])
  {
    var n := NRows(m, cols);
    var idx := Kept(cols[m.pk].v, key, n);
    DeleteKeepsOthers(cols, n, m.pk, key);
    var after := DeleteWhere(cols, n, m.pk, key).value.0;
    SameLayout(m, cols, after, |idx|);
    forall k | 0 <= k < |idx| ensures RowOk(m, RowAt(after, |idx|, k)) {
      assert RowAt(after, |idx|, k) == RowAt(cols, n, idx[k]);
    }
  }

  // ------------------------------------------------------------------ one change

  /** The first position of a number. */
  function FirstWith(v: seq<real>, x: real, n: nat): (i: nat)
    requires n <= |v|
    ensures i <= n && (i < n ==> v[i] == x) && forall k :: 0 <= k < i ==> v[k] != x
    decreases n
  {
    if n == 0 then 0
    else
      var i := FirstWith(v, x, n - 1);
      if i < n - 1 || v[n - 1] == x then i else n
  }

  predicate HasUnchanged(t: Tuple) {
    exists k :: 0 <= k < |t| && t[k].1.Unchanged?
  }

  /** The row of the mirror that unchanged datums refer to. */
  function CurrentFor(m: TableMap, cols: Columns, key: real, t: Tuple): Result<Current, ApplyError>
    requires MapOk(m) && Shape(m, cols)
  {
    if !HasUnchanged(t) then Ok(None)
    else
      var n := NRows(m, cols);
      var i := FirstWith(cols[m.pk].v, key, n);
      if i == n then Err(NotInMirror(key)) else Ok(Some(RowAt(cols, n, i)))
  }

  /** The text of the key that locates the row of an update. */
  function OldKey(m: TableMap, oldRow: Option<Tuple>, after: Tuple): Result<Text, ApplyError> {
    if oldRow.Some? then Lookup(oldRow.value, m.pk)
    else
      var d :- DatumOf(after, m.pk);
      match d
      case Value(s) => Ok(s)
      case Unchanged => Err(CannotLocate)
      case SqlNull => Err(NullIn(m.pk))
  }

  /** The table after a change, also when the change failed, and whether it counts. */
  datatype Outcome = Outcome(cols: Columns, result: Result<bool, ApplyError>)

  /** Deletes the row with this key; any other number of rows is an error, after they are gone. */
  function Remove(m: TableMap, cols: Columns, key: real): (o: Outcome)
    requires MapOk(m) && Shape(m, cols)
    ensures Shape(m, o.cols)
  {
    DeleteKeepsShape(m, cols, key);
    var (after, removed) := DeleteWhere(cols, NRows(m, cols), m.pk, key).value;
    Outcome(after, if removed == 1 then Ok(true) else Err(RemovedRows(removed)))
  }

  function Add(m: TableMap, cols: Columns, row: RowValues): (o: Outcome)
    requires MapOk(m) && Shape(m, cols) && RowOk(m, row)
    ensures Shape(m, o.cols)
  {
    InsertKeepsShape(m, cols, row);
    Outcome(InsertRow(cols, row).value, Ok(true))
  }

  function ApplyInsert(m: TableMap, parse: Parse, cols: Columns, t: Tuple): (o: Outcome)
    requires MapOk(m) && Shape(m, cols)
    ensures Shape(m, o.cols)
  {
    match RowFrom(m, parse, t, None)
    case Err(e) => Outcome(cols, Err(e))
    case Ok(row) =>
      RowFromOk(m, parse, t, None);
      Add(m, cols, row)
  }

  function KeyOfDelete(m: TableMap, parse: Parse, before: Tuple): Result<real, ApplyError> {
    var s :- Lookup(before, m.pk);
    Number(parse, s, m.pk)
  }

  function ApplyDelete(m: TableMap, parse: Parse, cols: Columns, before: Tuple): (o: Outcome)
    requires MapOk(m) && Shape(m, cols)
    ensures Shape(m, o.cols)
  {
    match KeyOfDelete(m, parse, before)
    case Err(e) => Outcome(cols, Err(e))
    case Ok(key) => Remove(m, cols, key)
  }

  /** The key of the row to replace, and the row to replace it with, both found before anything changes. */
  function Resolve(m: TableMap, parse: Parse, cols: Columns, oldRow: Option<Tuple>, after: Tuple)
    : Result<(real, RowValues), ApplyError>
    requires MapOk(m) && Shape(m, cols)
  {
    var s :- OldKey(m, oldRow, after);
    var key :- Number(parse, s, m.pk);
    var current :- CurrentFor(m, cols, key, after);
    var row :- RowFrom(m, parse, after, current);
    Ok((key, row))
  }

  lemma {:induction false} ResolvedOk(m: TableMap, parse: Parse, cols: Columns, oldRow: Option<Tuple>, after: Tuple)
    requires MapOk(m) && Shape(m, cols) && Resolve(m, parse, cols, oldRow, after).Ok?
    ensures RowOk(m, Resolve(m, parse, cols, oldRow, after).value.1)
  {
    hide RowOk, RowFrom;
    var key := Resolve(m, parse, cols, oldRow, after).value.0;
    RowFromOk(m, parse, after, CurrentFor(m, cols, key, after).value);
  }

  function ApplyUpdate(m: TableMap, parse: Parse, cols: Columns, oldRow: Option<Tuple>, after: Tuple): (o: Outcome)
    requires MapOk(m) && Shape(m, cols)
    ensures Shape(m, o.cols)
  {
    match Resolve(m, parse, cols, oldRow, after)
    case Err(e) => Outcome(cols, Err(e))
    case Ok((key, row)) =>
      ResolvedOk(m, parse, cols, oldRow, after);
      var removed := Remove(m, cols, key);
      if removed.result.Err? then removed else Add(m, removed.cols, row)
  }

  /** One change. A change of another relation does nothing and does not count. */
  function ApplyChange(m: TableMap, parse: Parse, cols: Columns, change: RowChange): (o: Outcome)
    requires MapOk(m) && Shape(m, cols)
    ensures Shape(m, o.cols)
  {
    if change.rel != m.table then Outcome(cols, Ok(false))
    else
      match change
      case RowInsert(_, t) => ApplyInsert(m, parse, cols, t)
      case RowDelete(_, before) => ApplyDelete(m, parse, cols, before)
      case RowUpdate(_, oldRow, after) => ApplyUpdate(m, parse, cols, oldRow, after)
  }

  /** The table after the first `k` changes, or up to and including the first that failed, and how many counted. */
  function ApplyAll(m: TableMap, parse: Parse, cols: Columns, changes: seq<RowChange>, k: nat)
    : (r: (Columns, Result<nat, ApplyError>))
    requires MapOk(m) && Shape(m, cols) && k <= |changes|
    ensures Shape(m, r.0)
  {
    if k == 0 then (cols, Ok(0))
    else
      var (c, r) := ApplyAll(m, parse, cols, changes, k - 1);
      if r.Err? then (c, r)
      else
        var o := ApplyChange(m, parse, c, changes[k - 1]);
        (o.cols, match o.result
                 case Ok(counts) => Ok(if counts then r.value + 1 else r.value)
                 case Err(e) => Err(e))
  }

  /** What the mirror is made of. */
  datatype State = State(cols: Columns, rowsApplied: nat, txsApplied: nat, lastLsn: nat)

  /** A transaction that is not newer than the watermark is skipped; one that fails leaves the watermark and the
      counters, but not the table, as they were. */
  function TxOutcome(m: TableMap, parse: Parse, s: State, tx: CommittedTx): (r: (State, Result<nat, ApplyError>))
    requires MapOk(m) && Shape(m, s.cols)
    ensures Shape(m, r.0.cols)
  {
    if tx.endLsn <= s.lastLsn then (s, Ok(0))
    else
      match ApplyAll(m, parse, s.cols, tx.changes, |tx.changes|)
      case (cols, Ok(n)) => (State(cols, s.rowsApplied + n, s.txsApplied + 1, tx.endLsn), Ok(n))
      case (cols, Err(e)) => (s.(cols := cols), Err(e))
  }

  // ------------------------------------------------------------------ what is refused

  /** A column that cannot be read, and the error for it: it is not in the tuple, or is NULL, or is left out with no row to
      take it from or nothing of its kind there, or is no number where one is wanted. */
  ghost predicate Unreadable(parse: Parse, t: Tuple, current: Current, name: Text, number: bool, e: ApplyError) {
    if forall k :: 0 <= k < |t| ==> t[k].0 != name then e == MissingInTuple(name)
    else
      match DatumOf(t, name)
      case Ok(SqlNull) => e == NullIn(name)
      case Ok(Unchanged) =>
        if current == None then e == UnchangedIn(name)
        else
          && e == NotMirrored(name)
          && !(name in current.value && if number then current.value[name].Num? else current.value[name].Label?)
      case Ok(Value(s)) => number && parse(s) == None && e == NotANumber(name)
      case Err(_) => false
  }

  ghost predicate Readable(parse: Parse, t: Tuple, current: Current, name: Text, number: bool) {
    forall e :: !Unreadable(parse, t, current, name, number, e)
  }

  ghost predicate AllReadable(parse: Parse, t: Tuple, current: Current, names: seq<Text>, number: bool) {
    forall i :: 0 <= i < |names| ==> Readable(parse, t, current, names[i], number)
  }

  /** The error is that of the first of these columns that cannot be read. */
  ghost predicate FirstUnreadable(parse: Parse, t: Tuple, current: Current, names: seq<Text>, number: bool,
                                  e: ApplyError)
  {
    exists i :: 0 <= i < |names| && Unreadable(parse, t, current, names[i], number, e)
                && AllReadable(parse, t, current, names[..i], number)
  }

  /** Scalars are read first, then labels, then the parts of the key vector. */
  ghost predicate RowError(m: TableMap, parse: Parse, t: Tuple, current: Current, e: ApplyError) {
    if !AllReadable(parse, t, current, m.scalarCols, true) then FirstUnreadable(parse, t, current, m.scalarCols, true, e)
    else if !AllReadable(parse, t, current, m.labelCols, false) then
      FirstUnreadable(parse, t, current, m.labelCols, false, e)
    else FirstUnreadable(parse, t, current, m.keyParts, true, e)
  }

  lemma {:induction false} MissingIff(t: Tuple, name: Text)
    ensures DatumOf(t, name) == Err(MissingInTuple(name)) <==> forall k :: 0 <= k < |t| ==> t[k].0 != name
    ensures DatumOf(t, name).Err? ==> DatumOf(t, name) == Err(MissingInTuple(name))
  {
    if t != [] {
      MissingIff(t[1..], name);
      if t[0].0 != name && DatumOf(t[1..], name).Err? {
        forall k | 0 <= k < |t| ensures t[k].0 != name {
          assert k > 0 ==> t[k] == t[1..][k - 1];
        }
      }
    }
  }

  lemma {:induction false} ScalarReadable(parse: Parse, t: Tuple, current: Current, name: Text)
    ensures ScalarOf(parse, t, current, name).Err? ==>
      Unreadable(parse, t, current, name, true, ScalarOf(parse, t, current, name).error)
    ensures ScalarOf(parse, t, current, name).Ok? ==> Readable(parse, t, current, name, true)
  {
    MissingIff(t, name);
  }

  lemma {:induction false} LabelReadable(parse: Parse, t: Tuple, current: Current, name: Text)
    ensures LabelOf(t, current, name).Err? ==>
      Unreadable(parse, t, current, name, false, LabelOf(t, current, name).error)
    ensures LabelOf(t, current, name).Ok? ==> Readable(parse, t, current, name, false)
  {
    MissingIff(t, name);
  }

  lemma {:induction false} ScalarCellsError(parse: Parse, t: Tuple, current: Current, names: seq<Text>, k: nat)
    requires k <= |names|
    ensures
      match ScalarCells(parse, t, current, names, k)
      case Ok(_) => AllReadable(parse, t, current, names[..k], true)
      case Err(e) => exists i :: 0 <= i < k && Unreadable(parse, t, current, names[i], true, e)
                                 && AllReadable(parse, t, current, names[..i], true)
  {
    hide ScalarOf, Readable, Unreadable;
    if k > 0 {
      ScalarCellsError(parse, t, current, names, k - 1);
      ScalarReadable(parse, t, current, names[k - 1]);
      assert names[..k] == names[..k - 1] + [names[k - 1]];
    }
  }

  lemma {:induction false} LabelCellsError(parse: Parse, t: Tuple, current: Current, row: RowValues, names: seq<Text>,
                                           k: nat)
    requires k <= |names|
    ensures
      match LabelCells(t, current, row, names, k)
      case Ok(_) => AllReadable(parse, t, current, names[..k], false)
      case Err(e) => exists i :: 0 <= i < k && Unreadable(parse, t, current, names[i], false, e)
                                 && AllReadable(parse, t, current, names[..i], false)
  {
    hide LabelOf, Readable, Unreadable;
    if k > 0 {
      LabelCellsError(parse, t, current, row, names, k - 1);
      LabelReadable(parse, t, current, names[k - 1]);
      assert names[..k] == names[..k - 1] + [names[k - 1]];
    }
  }

  lemma {:induction false} KeyVectorError(parse: Parse, t: Tuple, current: Current, parts: seq<Text>, k: nat)
    requires k <= |parts|
    ensures
      match KeyVector(parse, t, current, parts, k)
      case Ok(_) => AllReadable(parse, t, current, parts[..k], true)
      case Err(e) => exists i :: 0 <= i < k && Unreadable(parse, t, current, parts[i], true, e)
                                 && AllReadable(parse, t, current, parts[..i], true)
  {
    hide ScalarOf, Readable, Unreadable;
    if k > 0 {
      KeyVectorError(parse, t, current, parts, k - 1);
      ScalarReadable(parse, t, current, parts[k - 1]);
      assert parts[..k] == parts[..k - 1] + [parts[k - 1]];
    }
  }

  lemma {:induction false} NotAllReadable(parse: Parse, t: Tuple, current: Current, names: seq<Text>, number: bool,
                                          e: ApplyError, i: nat)
    requires i < |names| && Unreadable(parse, t, current, names[i], number, e)
    requires AllReadable(parse, t, current, names[..i], number)
    ensures !AllReadable(parse, t, current, names, number) && FirstUnreadable(parse, t, current, names, number, e)
  {
    hide Unreadable;
    assert !Readable(parse, t, current, names[i], number);
  }

  /** A row is built exactly when every column can be read, and otherwise the first that cannot be is reported. */
  lemma {:induction false} RowFromError(m: TableMap, parse: Parse, t: Tuple, current: Current)
    ensures
      match RowFrom(m, parse, t, current)
      case Ok(_) => AllReadable(parse, t, current, m.scalarCols, true) && AllReadable(parse, t, current, m.labelCols, false)
                    && AllReadable(parse, t, current, m.keyParts, true)
      case Err(e) => RowError(m, parse, t, current, e)
  {
    hide ScalarCells, LabelCells, KeyVector, Unreadable, Readable, AllReadable, FirstUnreadable;
    ScalarCellsError(parse, t, current, m.scalarCols, |m.scalarCols|);
    assert m.scalarCols[..|m.scalarCols|] == m.scalarCols && m.labelCols[..|m.labelCols|] == m.labelCols;
    assert m.keyParts[..|m.keyParts|] == m.keyParts;
    match ScalarCells(parse, t, current, m.scalarCols, |m.scalarCols|)
    case Err(e) =>
      var i :| 0 <= i < |m.scalarCols| && Unreadable(parse, t, current, m.scalarCols[i], true, e)
               && AllReadable(parse, t, current, m.scalarCols[..i], true);
      NotAllReadable(parse, t, current, m.scalarCols, true, e, i);
    case Ok(scalars) =>
      LabelCellsError(parse, t, current, scalars, m.labelCols, |m.labelCols|);
      match LabelCells(t, current, scalars, m.labelCols, |m.labelCols|)
      case Err(e) =>
        var i :| 0 <= i < |m.labelCols| && Unreadable(parse, t, current, m.labelCols[i], false, e)
                 && AllReadable(parse, t, current, m.labelCols[..i], false);
        NotAllReadable(parse, t, current, m.labelCols, false, e, i);
      case Ok(_) =>
        KeyVectorError(parse, t, current, m.keyParts, |m.keyParts|);
        if KeyVector(parse, t, current, m.keyParts, |m.keyParts|).Err? {
          var e := KeyVector(parse, t, current, m.keyParts, |m.keyParts|).error;
          var i :| 0 <= i < |m.keyParts| && Unreadable(parse, t, current, m.keyParts[i], true, e)
                   && AllReadable(parse, t, current, m.keyParts[..i], true);
          NotAllReadable(parse, t, current, m.keyParts, true, e, i);
        }
  }

  /** The text in the key column of the tuple is the key. */
  ghost predicate KeySent(m: TableMap, parse: Parse, t: Tuple, key: real) {
    match DatumOf(t, m.pk)
    case Ok(Value(s)) => parse(s) == Some(key)
    case _ => false
  }

  /** The tuple whose key names the row to replace. */
  ghost function Naming(oldRow: Option<Tuple>, after: Tuple): Tuple {
    if oldRow.Some? then oldRow.value else after
  }

  /** No row to look for: the key of the old tuple cannot be read, or, without an old tuple, that of the new one. */
  ghost predicate KeyError(m: TableMap, parse: Parse, oldRow: Option<Tuple>, after: Tuple, e: ApplyError) {
    match oldRow
    case Some(t) => Unreadable(parse, t, None, m.pk, true, e)
    case None =>
      match DatumOf(after, m.pk)
      case Err(_) => e == MissingInTuple(m.pk)
      case Ok(SqlNull) => e == NullIn(m.pk)
      case Ok(Unchanged) => e == CannotLocate
      case Ok(Value(s)) => parse(s) == None && e == NotANumber(m.pk)
  }

  /** The row that left-out values are taken from: the first one with the key, and none when nothing is left out. */
  ghost predicate TakenFrom(m: TableMap, cols: Columns, key: real, after: Tuple, current: Current)
    requires MapOk(m) && Shape(m, cols)
  {
    if forall k :: 0 <= k < |after| ==> after[k].1 != Pgoutput.Unchanged then current == None
    else exists i :: 0 <= i < NRows(m, cols) && cols[m.pk].v[i] == key && current == Some(RowAt(cols, NRows(m, cols), i))
                     && forall k :: 0 <= k < i ==> cols[m.pk].v[k] != key
  }

  /** The rows with the key are gone, and there was not exactly one. */
  ghost predicate NotOneRow(m: TableMap, cols: Columns, o: Outcome, key: real)
    requires MapOk(m) && Shape(m, cols) && Shape(m, o.cols)
  {
    var n, left := NRows(m, cols), NRows(m, o.cols);
    && left <= n && o.result == Err(RemovedRows(n - left)) && n - left != 1
    && forall k :: 0 <= k < left ==> o.cols[m.pk].v[k] != key
  }

  /** Why a change of the mirrored table fails. Unless the wrong number of rows was found, the table is as it was. */
  ghost predicate Refusal(m: TableMap, parse: Parse, cols: Columns, change: RowChange, o: Outcome, e: ApplyError)
    requires MapOk(m) && Shape(m, cols) && Shape(m, o.cols)
  {
    match change
    case RowInsert(_, t) => o.cols == cols && RowError(m, parse, t, None, e)
    case RowDelete(_, t) =>
      || (o.cols == cols && Unreadable(parse, t, None, m.pk, true, e))
      || exists key :: KeySent(m, parse, t, key) && NotOneRow(m, cols, o, key)
    case RowUpdate(_, oldRow, after) =>
      || (o.cols == cols && KeyError(m, parse, oldRow, after, e))
      || exists key :: KeySent(m, parse, Naming(oldRow, after), key)
           && (NotOneRow(m, cols, o, key)
               || (o.cols == cols && e == NotInMirror(key) && forall current :: !TakenFrom(m, cols, key, after, current))
               || (o.cols == cols && exists current :: TakenFrom(m, cols, key, after, current)
                                                      && RowError(m, parse, after, current, e)))
  }

  lemma {:induction false} LookupError(m: TableMap, parse: Parse, t: Tuple)
    ensures
      match KeyOfDelete(m, parse, t)
      case Ok(key) => KeySent(m, parse, t, key)
      case Err(e) => Unreadable(parse, t, None, m.pk, true, e)
  {
    MissingIff(t, m.pk);
  }

  lemma {:induction false} OldKeyError(m: TableMap, parse: Parse, oldRow: Option<Tuple>, after: Tuple)
    ensures
      match OldKey(m, oldRow, after)
      case Err(e) => KeyError(m, parse, oldRow, after, e)
      case Ok(s) =>
        match Number(parse, s, m.pk)
        case Err(e) => KeyError(m, parse, oldRow, after, e)
        case Ok(key) => KeySent(m, parse, Naming(oldRow, after), key)
  {
    MissingIff(after, m.pk);
    if oldRow.Some? {
      MissingIff(oldRow.value, m.pk);
    }
  }

  lemma {:induction false} CurrentIs(m: TableMap, cols: Columns, key: real, after: Tuple)
    requires MapOk(m) && Shape(m, cols)
    ensures
      match CurrentFor(m, cols, key, after)
      case Ok(current) => TakenFrom(m, cols, key, after, current)
      case Err(e) => e == NotInMirror(key) && forall current :: !TakenFrom(m, cols, key, after, current)
  {
  }

  lemma {:induction false} RemoveError(m: TableMap, cols: Columns, key: real)
    requires MapOk(m) && Shape(m, cols) && Remove(m, cols, key).result.Err?
    ensures NotOneRow(m, cols, Remove(m, cols, key), key)
  {
    DeleteKeepsShape(m, cols, key);
    var o := Remove(m, cols, key);
    var n, left := NRows(m, cols), NRows(m, o.cols);
    var idx := Kept(cols[m.pk].v, key, n);
    forall k | 0 <= k < left ensures o.cols[m.pk].v[k] != key {
      assert RowAt(o.cols, left, k) == RowAt(cols, n, idx[k]);
      assert RowAt(o.cols, left, k)[m.pk] == Num(o.cols[m.pk].v[k]);
      assert RowAt(cols, n, idx[k])[m.pk] == Num(cols[m.pk].v[idx[k]]);
    }
  }

  /** The error of a change that fails is that of the first thing wrong with it. */
  lemma {:induction false} RefusedBecause(m: TableMap, parse: Parse, cols: Columns, change: RowChange)
    requires MapOk(m) && Shape(m, cols) && ApplyChange(m, parse, cols, change).result.Err?
    ensures
      var o := ApplyChange(m, parse, cols, change);
      Refusal(m, parse, cols, change, o, o.result.error)
  {
    hide RowFrom, RowError, Unreadable, KeySent, KeyError, TakenFrom, NotOneRow, Remove, Shape, OldKey, Number, CurrentFor;
    match change
    case RowInsert(_, t) => RowFromError(m, parse, t, None);
    case RowDelete(_, t) =>
      LookupError(m, parse, t);
      if KeyOfDelete(m, parse, t).Ok? {
        RemoveError(m, cols, KeyOfDelete(m, parse, t).value);
      }
    case RowUpdate(_, oldRow, after) =>
      OldKeyError(m, parse, oldRow, after);
      if OldKey(m, oldRow, after).Ok? && Number(parse, OldKey(m, oldRow, after).value, m.pk).Ok? {
        var key := Number(parse, OldKey(m, oldRow, after).value, m.pk).value;
        CurrentIs(m, cols, key, after);
        if CurrentFor(m, cols, key, after).Ok? {
          RowFromError(m, parse, after, CurrentFor(m, cols, key, after).value);
          if Remove(m, cols, key).result.Err? {
            RemoveError(m, cols, key);
          }
        }
      }
  }

  // ------------------------------------------------------------------ the table upstream

  /** The table upstream: its rows by key. */
  type Upstream = map<real, RowValues>

  /** A change upstream, here or to another table. A truncation is sent, but no row change comes of it. */
  datatype UpChange =
    | UpInsert(row: RowValues)
    | UpDelete(key: real)
    | UpUpdate(key: real, row: RowValues)
    | UpTruncate
    | Elsewhere
    | TruncateElsewhere
  {
    predicate Truncates() {
      UpTruncate? || TruncateElsewhere?
    }

    predicate Here() {
      UpInsert? || UpDelete? || UpUpdate?
    }
  }

  function KeyIn(m: TableMap, row: RowValues): real
    requires MapOk(m) && RowOk(m, row)
  {
    row[m.pk].x
  }

  /** What the database upstream accepts: keys stay unique. */
  ghost predicate UpOk(m: TableMap, up: Upstream, c: UpChange)
    requires MapOk(m)
  {
    match c
    case UpInsert(row) => RowOk(m, row) && KeyIn(m, row) !in up
    case UpDelete(key) => key in up
    case UpUpdate(key, row) => key in up && RowOk(m, row) && (KeyIn(m, row) == key || KeyIn(m, row) !in up)
    case _ => true
  }

  function UpApply(m: TableMap, up: Upstream, c: UpChange): Upstream
    requires MapOk(m) && UpOk(m, up, c)
  {
    match c
    case UpInsert(row) => up[KeyIn(m, row) := row]
    case UpDelete(key) => up - {key}
    case UpUpdate(key, row) => (up - {key})[KeyIn(m, row) := row]
    case UpTruncate => map[]
    case _ => up
  }

  /** How a change upstream reaches the mirror: an old tuple may be complete, hold the key only, or, when the key
      stayed, be absent; a new tuple may leave out values that stayed. */
  ghost predicate Reports(m: TableMap, parse: Parse, up: Upstream, c: UpChange, change: RowChange)
    requires MapOk(m) && UpOk(m, up, c)
  {
    match c
    case UpTruncate => false
    case TruncateElsewhere => false
    case Elsewhere => change.rel != m.table
    case UpInsert(row) => change.rel == m.table && change.RowInsert? && WritesRow(m, parse, change.cols, row, None)
    case UpDelete(key) => change.rel == m.table && change.RowDelete? && KeySent(m, parse, change.before, key)
    case UpUpdate(key, row) =>
      && change.rel == m.table && change.RowUpdate?
      && WritesRow(m, parse, change.after, row, Some(up[key]))
      && KeySent(m, parse, if change.oldRow.Some? then change.oldRow.value else change.after, key)
  }

  /** The rows, in the order of the table. */
  function Rows(m: TableMap, cols: Columns): (rows: seq<RowValues>)
    requires Shape(m, cols)
    ensures |rows| == NRows(m, cols) && forall i :: 0 <= i < |rows| ==> rows[i] == RowAt(cols, NRows(m, cols), i)
  {
    seq(NRows(m, cols), i requires 0 <= i < NRows(m, cols) => RowAt(cols, NRows(m, cols), i))
  }

  /** Keys and rows that are exactly those upstream, each once. */
  ghost predicate Holds(v: seq<real>, rows: seq<RowValues>, up: Upstream) {
    && |v| == |rows|
    && (forall i :: 0 <= i < |v| ==> v[i] in up && up[v[i]] == rows[i])
    && (forall i, j :: 0 <= i < j < |v| ==> v[i] != v[j])
    && (forall key :: key in up ==> key in v)
  }

  /** The mirror holds exactly the rows upstream, each once. */
  ghost predicate Mirrors(m: TableMap, cols: Columns, up: Upstream) {
    && MapOk(m) && Shape(m, cols)
    && Holds(cols[m.pk].v, Rows(m, cols), up)
  }

  lemma {:induction false} KeyAt(m: TableMap, cols: Columns, i: nat)
    requires MapOk(m) && Shape(m, cols) && i < NRows(m, cols)
    ensures |cols[m.pk].v| == NRows(m, cols)
    ensures KeyIn(m, Rows(m, cols)[i]) == cols[m.pk].v[i]
  {
  }

  lemma {:induction false} HoldsMore(v: seq<real>, rows: seq<RowValues>, up: Upstream, key: real, row: RowValues)
    requires Holds(v, rows, up) && key !in up
    ensures Holds(v + [key], rows + [row], up[key := row])
  {
  }

  /** Taking out the one row with a key. */
  lemma {:induction false} HoldsFewer(v: seq<real>, rows: seq<RowValues>, up: Upstream, key: real)
    requires Holds(v, rows, up) && key in up
    ensures |Kept(v, key, |v|)| == |v| - 1 && AllBelow(Kept(v, key, |v|), |v|)
    ensures Holds(Pick(v, Kept(v, key, |v|)), Pick(rows, Kept(v, key, |v|)), up - {key})
  {
    hide Kept, Pick;
    var idx := Kept(v, key, |v|);
    var i :| 0 <= i < |v| && v[i] == key;
    KeptButOne(v, |v|, i);
    forall other | other in up - {key} ensures other in Pick(v, idx) {
      StillThere(v, key, other);
    }
  }

  lemma {:induction false} StillThere(v: seq<real>, key: real, other: real)
    requires other in v && other != key
    ensures AllBelow(Kept(v, key, |v|), |v|) && other in Pick(v, Kept(v, key, |v|))
  {
    var idx := Kept(v, key, |v|);
    var j :| 0 <= j < |v| && v[j] == other;
    assert j in idx;
    var k :| 0 <= k < |idx| && idx[k] == j;
    assert Pick(v, idx)[k] == other;
  }

  lemma {:induction false} KeptButOne(v: seq<real>, n: nat, i: nat)
    requires i < n <= |v| && forall k :: 0 <= k < n && k != i ==> v[k] != v[i]
    ensures |Kept(v, v[i], n)| == n - 1
  {
    if i < n - 1 {
      KeptButOne(v, n - 1, i);
    } else {
      KeptAllOthers(v, v[i], n - 1);
    }
  }

  lemma {:induction false} KeptAllOthers(v: seq<real>, x: real, n: nat)
    requires n <= |v| && forall k :: 0 <= k < n ==> v[k] != x
    ensures |Kept(v, x, n)| == n
  {
    if n > 0 {
      KeptAllOthers(v, x, n - 1);
    }
  }

  lemma {:induction false} AddedRows(m: TableMap, cols: Columns, row: RowValues)
    requires MapOk(m) && Shape(m, cols) && RowOk(m, row)
    ensures
      var after := Add(m, cols, row).cols;
      after[m.pk].v == cols[m.pk].v + [KeyIn(m, row)] && Rows(m, after) == Rows(m, cols) + [row]
  {
    hide RowOk;
    var n, after := NRows(m, cols), Add(m, cols, row).cols;
    InsertKeepsShape(m, cols, row);
    assert Rows(m, after) == Rows(m, cols) + [row];
    forall i | 0 <= i < n + 1 ensures after[m.pk].v[i] == if i < n then cols[m.pk].v[i] else KeyIn(m, row) {
      KeyAt(m, after, i);
      if i < n {
        KeyAt(m, cols, i);
      }
    }
  }

  lemma {:induction false} RemainingRows(m: TableMap, cols: Columns, key: real)
    requires MapOk(m) && Shape(m, cols)
    ensures |cols[m.pk].v| == NRows(m, cols)
    ensures
      var idx, after := Kept(cols[m.pk].v, key, NRows(m, cols)), Remove(m, cols, key).cols;
      && AllBelow(idx, NRows(m, cols))
      && after[m.pk].v == Pick(cols[m.pk].v, idx) && Rows(m, after) == Pick(Rows(m, cols), idx)
      && (|idx| == NRows(m, cols) - 1 ==> Remove(m, cols, key).result == Ok(true))
  {
    hide RowOk;
    var n, after := NRows(m, cols), Remove(m, cols, key).cols;
    DeleteKeepsShape(m, cols, key);
    var idx := Kept(cols[m.pk].v, key, n);
    assert Rows(m, after) == Pick(Rows(m, cols), idx);
    forall k | 0 <= k < |idx| ensures after[m.pk].v[k] == cols[m.pk].v[idx[k]] {
      KeyAt(m, after, k);
      KeyAt(m, cols, idx[k]);
    }
  }

  lemma {:induction false} AddMirrors(m: TableMap, cols: Columns, up: Upstream, row: RowValues)
    requires Mirrors(m, cols, up) && RowOk(m, row) && KeyIn(m, row) !in up
    ensures Add(m, cols, row).result == Ok(true)
    ensures Mirrors(m, Add(m, cols, row).cols, up[KeyIn(m, row) := row])
  {
    hide RowOk, Holds;
    AddedRows(m, cols, row);
    HoldsMore(cols[m.pk].v, Rows(m, cols), up, KeyIn(m, row), row);
  }

  lemma {:induction false} RemoveMirrors(m: TableMap, cols: Columns, up: Upstream, key: real)
    requires Mirrors(m, cols, up) && key in up
    ensures Remove(m, cols, key).result == Ok(true)
    ensures Mirrors(m, Remove(m, cols, key).cols, up - {key})
  {
    hide RowOk, Holds, Remove;
    RemainingRows(m, cols, key);
    HoldsFewer(cols[m.pk].v, Rows(m, cols), up, key);
  }

  /** The row that unchanged datums refer to is the row upstream. */
  lemma {:induction false} CurrentIsUpstream(m: TableMap, cols: Columns, up: Upstream, key: real, t: Tuple)
    requires Mirrors(m, cols, up) && key in up
    ensures CurrentFor(m, cols, key, t) == Ok(if HasUnchanged(t) then Some(up[key]) else None)
  {
    hide RowOk;
    var n, v := NRows(m, cols), cols[m.pk].v;
    assert n == |v|;
    var i :| 0 <= i < n && v[i] == key;
    var f := FirstWith(v, key, n);
    assert f < n && v[f] == key;
    assert Rows(m, cols)[f] == RowAt(cols, n, f);
  }

  /** A tuple without unchanged datums writes a row by itself. */
  lemma {:induction false} WritesAlone(m: TableMap, parse: Parse, t: Tuple, row: RowValues, before: Current)
    requires RowOk(m, row) && WritesRow(m, parse, t, row, before) && !HasUnchanged(t)
    ensures WritesRow(m, parse, t, row, None)
  {
    forall c | c in m.scalarCols || c in m.labelCols ensures Writes(parse, t, c, row[c], None) {
      assert Writes(parse, t, c, row[c], before);
      NoUnchanged(t, c);
    }
  }

  lemma {:induction false} NoUnchanged(t: Tuple, name: Text)
    requires !HasUnchanged(t)
    ensures DatumOf(t, name) != Ok(Pgoutput.Unchanged)
    decreases |t|
  {
    if t != [] {
      assert !t[0].1.Unchanged?;
      assert forall k :: 0 <= k < |t[1..]| ==> t[1..][k] == t[k + 1];
      NoUnchanged(t[1..], name);
    }
  }

  /** One reported change does to the mirror what it did upstream. */
  lemma {:induction false} ChangeSimulates(m: TableMap, parse: Parse, cols: Columns, up: Upstream, c: UpChange,
                                           change: RowChange)
    requires Mirrors(m, cols, up) && UpOk(m, up, c) && Reports(m, parse, up, c, change)
    ensures ApplyChange(m, parse, cols, change).result == Ok(c.Here())
    ensures Mirrors(m, ApplyChange(m, parse, cols, change).cols, UpApply(m, up, c))
  {
    hide RowOk, Shape, Holds, WritesRow, Add, Remove, RowFrom;
    match c
    case Elsewhere =>
    case UpInsert(row) =>
      RowRoundTrip(m, parse, change.cols, row, None);
      AddMirrors(m, cols, up, row);
    case UpDelete(key) =>
      RemoveMirrors(m, cols, up, key);
    case UpUpdate(key, row) =>
      CurrentIsUpstream(m, cols, up, key, change.after);
      if !HasUnchanged(change.after) {
        WritesAlone(m, parse, change.after, row, Some(up[key]));
      }
      RowRoundTrip(m, parse, change.after, row, if HasUnchanged(change.after) then Some(up[key]) else None);
      RemoveMirrors(m, cols, up, key);
      AddMirrors(m, Remove(m, cols, key).cols, up - {key}, row);
  }

  /** An update that moves a row to a free key: the row is found by the old tuple, and replaced. */
  lemma {:induction false} KeyMoves(m: TableMap, parse: Parse, cols: Columns, up: Upstream, key: real, row: RowValues,
                                    before: Tuple, after: Tuple)
    requires Mirrors(m, cols, up) && key in up && RowOk(m, row) && KeyIn(m, row) !in up
    requires DatumOf(before, m.pk).Ok? && DatumOf(before, m.pk).value.Value?
    requires parse(DatumOf(before, m.pk).value.text) == Some(key) && WritesRow(m, parse, after, row, Some(up[key]))
    ensures
      var o := ApplyChange(m, parse, cols, TxAssembler.RowUpdate(m.table, Some(before), after));
      o.result == Ok(true) && Mirrors(m, o.cols, (up - {key})[KeyIn(m, row) := row])
  {
    hide Mirrors, WritesRow, RowOk, ApplyChange;
    ChangeSimulates(m, parse, cols, up, UpUpdate(key, row), TxAssembler.RowUpdate(m.table, Some(before), after));
  }

  /** An update that keeps the key and comes without an old tuple: the row is found by the new one. */
  lemma {:induction false} RowChanges(m: TableMap, parse: Parse, cols: Columns, up: Upstream, row: RowValues, after: Tuple)
    requires Mirrors(m, cols, up) && RowOk(m, row) && KeyIn(m, row) in up
    requires DatumOf(after, m.pk).Ok? && DatumOf(after, m.pk).value.Value?
    requires parse(DatumOf(after, m.pk).value.text) == Some(KeyIn(m, row))
    requires WritesRow(m, parse, after, row, Some(up[KeyIn(m, row)]))
    ensures
      var o := ApplyChange(m, parse, cols, TxAssembler.RowUpdate(m.table, None, after));
      o.result == Ok(true) && Mirrors(m, o.cols, up[KeyIn(m, row) := row])
  {
    MirrorsShape(m, cols, up);
    hide Mirrors, WritesRow, RowOk, ApplyChange;
    var key := KeyIn(m, row);
    ChangeSimulates(m, parse, cols, up, UpUpdate(key, row), TxAssembler.RowUpdate(m.table, None, after));
    assert (up - {key})[key := row] == up[key := row];
  }

  // ------------------------------------------------------------------ transactions

  /** The table upstream after the first `k` changes. */
  ghost predicate Runs(m: TableMap, up: Upstream, cs: seq<UpChange>, ups: seq<Upstream>)
    requires MapOk(m)
  {
    && |ups| == |cs| + 1 && ups[0] == up
    && forall k :: 0 <= k < |cs| ==> UpOk(m, ups[k], cs[k]) && ups[k + 1] == UpApply(m, ups[k], cs[k])
  }

  /** How many of the first `k` changes come as row changes. */
  function Told(cs: seq<UpChange>, k: nat): nat
    requires k <= |cs|
  {
    if k == 0 then 0 else Told(cs, k - 1) + (if cs[k - 1].Truncates() then 0 else 1)
  }

  /** Every truncation finds the table empty. */
  ghost predicate TruncatesNothing(cs: seq<UpChange>, ups: seq<Upstream>) {
    forall k :: 0 <= k < |cs| && k < |ups| && cs[k].UpTruncate? ==> ups[k] == map[]
  }

  /** Change `k` is a truncation, or comes as its row change. */
  ghost predicate ReportedAt(m: TableMap, parse: Parse, cs: seq<UpChange>, ups: seq<Upstream>, tx: CommittedTx, k: nat)
    requires MapOk(m) && k < |cs| < |ups| && UpOk(m, ups[k], cs[k])
  {
    !cs[k].Truncates() ==>
      Told(cs, k) < |tx.changes| && Reports(m, parse, ups[k], cs[k], tx.changes[Told(cs, k)])
  }

  /** A transaction of the stream is the report of these changes, made one after the other; truncations are missing. */
  ghost predicate ReportsTx(m: TableMap, parse: Parse, up: Upstream, cs: seq<UpChange>, ups: seq<Upstream>, tx: CommittedTx)
    requires MapOk(m)
  {
    && Runs(m, up, cs, ups) && |tx.changes| == Told(cs, |cs|)
    && forall k :: 0 <= k < |cs| ==> ReportedAt(m, parse, cs, ups, tx, k)
  }

  function CountHere(cs: seq<UpChange>, k: nat): nat
    requires k <= |cs|
  {
    if k == 0 then 0 else CountHere(cs, k - 1) + (if cs[k - 1].Here() then 1 else 0)
  }

  lemma {:induction false} ToldBound(cs: seq<UpChange>, k: nat, n: nat)
    requires k <= n <= |cs|
    ensures Told(cs, k) <= Told(cs, n)
  {
    if k < n {
      ToldBound(cs, k, n - 1);
    }
  }

  lemma {:induction false} ReportedStep(m: TableMap, parse: Parse, up: Upstream, cs: seq<UpChange>, ups: seq<Upstream>,
                                        tx: CommittedTx, k: nat)
    requires MapOk(m) && ReportsTx(m, parse, up, cs, ups, tx) && k < |cs|
    ensures |ups| == |cs| + 1 && UpOk(m, ups[k], cs[k]) && ups[k + 1] == UpApply(m, ups[k], cs[k])
    ensures Told(cs, k) <= Told(cs, k + 1) <= |tx.changes|
    ensures if cs[k].Truncates() then Told(cs, k + 1) == Told(cs, k) else Told(cs, k + 1) == Told(cs, k) + 1
    ensures !cs[k].Truncates() ==> Reports(m, parse, ups[k], cs[k], tx.changes[Told(cs, k)])
  {
    hide UpOk, UpApply, Reports;
    ToldBound(cs, k + 1, |cs|);
    assert ReportedAt(m, parse, cs, ups, tx, k);
  }

  /** One change more. */
  lemma {:induction false} AppliedStep(m: TableMap, parse: Parse, cols: Columns, changes: seq<RowChange>, n: nat)
    requires MapOk(m) && Shape(m, cols) && n < |changes|
    ensures
      var (before, r) := ApplyAll(m, parse, cols, changes, n);
      var (after, r') := ApplyAll(m, parse, cols, changes, n + 1);
      if r.Err? then r' == r
      else
        var o := ApplyChange(m, parse, before, changes[n]);
        && after == o.cols && (r'.Ok? <==> o.result.Ok?)
        && (r'.Ok? ==> r'.value == if o.result.value then r.value + 1 else r.value)
  {
    hide Shape, ApplyChange;
  }

  lemma {:induction false} PrefixSimulates(m: TableMap, parse: Parse, cols: Columns, up: Upstream, cs: seq<UpChange>,
                                           ups: seq<Upstream>, tx: CommittedTx, k: nat)
    requires Mirrors(m, cols, up) && ReportsTx(m, parse, up, cs, ups, tx) && TruncatesNothing(cs, ups) && k <= |cs|
    ensures Told(cs, k) <= |tx.changes|
    ensures ApplyAll(m, parse, cols, tx.changes, Told(cs, k)).1 == Ok(CountHere(cs, k))
    ensures Mirrors(m, ApplyAll(m, parse, cols, tx.changes, Told(cs, k)).0, ups[k])
  {
    hide Holds, Shape, ApplyChange, UpOk, Reports, ReportsTx, ApplyAll, Told;
    if k == 0 {
      NothingToldYet(m, parse, cols, cs, ups, up, tx);
    } else {
      PrefixSimulates(m, parse, cols, up, cs, ups, tx, k - 1);
      ReportedStep(m, parse, up, cs, ups, tx, k - 1);
      if !cs[k - 1].Truncates() {
        hide UpApply;
        var n := Told(cs, k - 1);
        AppliedStep(m, parse, cols, tx.changes, n);
        ChangeSimulates(m, parse, ApplyAll(m, parse, cols, tx.changes, n).0, ups[k - 1], cs[k - 1], tx.changes[n]);
      }
    }
  }

  lemma {:induction false} NothingToldYet(m: TableMap, parse: Parse, cols: Columns, cs: seq<UpChange>, ups: seq<Upstream>,
                                          up: Upstream, tx: CommittedTx)
    requires MapOk(m) && Shape(m, cols) && ReportsTx(m, parse, up, cs, ups, tx)
    ensures ApplyAll(m, parse, cols, tx.changes, Told(cs, 0)) == (cols, Ok(0)) && TruncatesNothing(cs[..0], ups)
    ensures |ups| == |cs| + 1 && ups[0] == up && CountHere(cs, 0) == 0 && Told(cs, 0) == 0
  {
  }

  /** A new transaction whose truncations find the table empty is applied whole, and takes the mirror where it took the
      table upstream. */
  lemma {:induction false} TxSimulates(m: TableMap, parse: Parse, s: State, up: Upstream, cs: seq<UpChange>,
                                       ups: seq<Upstream>, tx: CommittedTx)
    requires Mirrors(m, s.cols, up) && ReportsTx(m, parse, up, cs, ups, tx) && tx.endLsn > s.lastLsn
    requires TruncatesNothing(cs, ups)
    ensures
      var (s', r) := TxOutcome(m, parse, s, tx);
      && r == Ok(CountHere(cs, |cs|)) && Mirrors(m, s'.cols, ups[|cs|])
      && s'.lastLsn == tx.endLsn && s'.txsApplied == s.txsApplied + 1
      && s'.rowsApplied == s.rowsApplied + CountHere(cs, |cs|)
  {
    hide Holds, Shape;
    PrefixSimulates(m, parse, s.cols, up, cs, ups, tx, |cs|);
  }

  /** A mirror has as many rows as the table upstream. */
  lemma {:induction false} SameRowCount(m: TableMap, cols: Columns, up: Upstream)
    requires Mirrors(m, cols, up)
    ensures NRows(m, cols) == |up|
  {
    var v := cols[m.pk].v;
    DistinctSize(v);
    forall key ensures key in up <==> key in v {
      if key in v {
        var i :| 0 <= i < |v| && v[i] == key;
      }
    }
    assert up.Keys == Members(v);
    assert |v| == NRows(m, cols);
  }

  // ------------------------------------------------------------------ truncations that are missed

  /** A change that is not refused adds to the mirror, and takes from it, as many rows as upstream. */
  lemma {:induction false} SameGrowth(m: TableMap, parse: Parse, cols: Columns, up: Upstream, c: UpChange,
                                      change: RowChange)
    requires MapOk(m) && Shape(m, cols) && UpOk(m, up, c) && Reports(m, parse, up, c, change)
    requires ApplyChange(m, parse, cols, change).result.Ok?
    ensures NRows(m, ApplyChange(m, parse, cols, change).cols) - NRows(m, cols) == |UpApply(m, up, c)| - |up|
  {
    hide RowOk, Shape, WritesRow, RowFrom, Add, Remove, CurrentFor;
    match c
    case Elsewhere =>
    case UpInsert(row) =>
      RowFromOk(m, parse, change.cols, None);
      AddCounts(m, cols, RowFrom(m, parse, change.cols, None).value);
      OneMore(up, KeyIn(m, row), row);
    case UpDelete(key) =>
      RemoveCounts(m, cols, key);
      OneFewer(up, key);
    case UpUpdate(key, row) =>
      var (k, written) := Resolve(m, parse, cols, change.oldRow, change.after).value;
      ResolvedOk(m, parse, cols, change.oldRow, change.after);
      RemoveCounts(m, cols, k);
      AddCounts(m, Remove(m, cols, k).cols, written);
      OneFewer(up, key);
      OneMore(up - {key}, KeyIn(m, row), row);
  }

  lemma {:induction false} OneMore(up: Upstream, key: real, row: RowValues)
    requires key !in up
    ensures |up[key := row]| == |up| + 1
  {
    assert up[key := row].Keys == up.Keys + {key};
  }

  lemma {:induction false} OneFewer(up: Upstream, key: real)
    requires key in up
    ensures |up - {key}| == |up| - 1
  {
    assert (up - {key}).Keys == up.Keys - {key};
  }

  lemma {:induction false} AddCounts(m: TableMap, cols: Columns, row: RowValues)
    requires MapOk(m) && Shape(m, cols) && RowOk(m, row)
    ensures NRows(m, Add(m, cols, row).cols) == NRows(m, cols) + 1
  {
    InsertKeepsShape(m, cols, row);
  }

  lemma {:induction false} RemoveCounts(m: TableMap, cols: Columns, key: real)
    requires MapOk(m) && Shape(m, cols)
    ensures Remove(m, cols, key).result.Ok? ==> NRows(m, Remove(m, cols, key).cols) == NRows(m, cols) - 1
  {
    DeleteKeepsShape(m, cols, key);
  }

  lemma {:induction false} TruncatesMore(cs: seq<UpChange>, ups: seq<Upstream>, k: nat)
    requires 0 < k <= |cs| && k < |ups|
    ensures TruncatesNothing(cs[..k], ups)
            <==> TruncatesNothing(cs[..k - 1], ups) && (cs[k - 1].UpTruncate? ==> ups[k - 1] == map[])
  {
    assert forall j :: 0 <= j < k - 1 ==> cs[..k][j] == cs[..k - 1][j];
    assert cs[..k][k - 1] == cs[k - 1];
  }

  /** A mirror never has fewer rows than the table upstream, and has more once a truncation has found rows. */
  lemma {:induction false} SurplusStays(m: TableMap, parse: Parse, cols: Columns, up: Upstream, cs: seq<UpChange>,
                                        ups: seq<Upstream>, tx: CommittedTx, k: nat)
    requires MapOk(m) && Shape(m, cols) && NRows(m, cols) == |up|
    requires ReportsTx(m, parse, up, cs, ups, tx) && k <= |cs|
    ensures Told(cs, k) <= |tx.changes|
    ensures
      var (after, r) := ApplyAll(m, parse, cols, tx.changes, Told(cs, k));
      r.Ok? ==>
        && NRows(m, after) >= |ups[k]|
        && (!TruncatesNothing(cs[..k], ups) ==> NRows(m, after) > |ups[k]|)
  {
    hide Shape, ApplyChange, UpOk, UpApply, Reports, NRows, TruncatesNothing, ApplyAll, ReportsTx, Told;
    if k == 0 {
      NothingToldYet(m, parse, cols, cs, ups, up, tx);
    } else {
      SurplusStays(m, parse, cols, up, cs, ups, tx, k - 1);
      ReportedStep(m, parse, up, cs, ups, tx, k - 1);
      TruncatesMore(cs, ups, k);
      var c, n := cs[k - 1], Told(cs, k - 1);
      if c.Truncates() {
        NoMoreRows(m, ups[k - 1], c);
      } else {
        AppliedStep(m, parse, cols, tx.changes, n);
        if ApplyAll(m, parse, cols, tx.changes, n + 1).1.Ok? {
          SameGrowth(m, parse, ApplyAll(m, parse, cols, tx.changes, n).0, ups[k - 1], c, tx.changes[n]);
        }
      }
    }
  }

  lemma {:induction false} NoMoreRows(m: TableMap, up: Upstream, c: UpChange)
    requires MapOk(m) && UpOk(m, up, c) && c.Truncates()
    ensures |UpApply(m, up, c)| <= |up|
    ensures c.UpTruncate? && up != map[] ==> |UpApply(m, up, c)| < |up|
  {
    if |up| == 0 {
      assert up.Keys == {};
      assert up == map[];
    }
  }

  /** A new transaction with a truncation that finds rows is refused, or leaves a mirror with too many rows. */
  lemma {:induction false} TruncatedIsMissed(m: TableMap, parse: Parse, s: State, up: Upstream, cs: seq<UpChange>,
                                             ups: seq<Upstream>, tx: CommittedTx)
    requires Mirrors(m, s.cols, up) && ReportsTx(m, parse, up, cs, ups, tx) && tx.endLsn > s.lastLsn
    requires !TruncatesNothing(cs, ups)
    ensures
      var (s', r) := TxOutcome(m, parse, s, tx);
      r.Ok? ==> s'.lastLsn == tx.endLsn && NRows(m, s'.cols) > |ups[|cs|]| && !Mirrors(m, s'.cols, ups[|cs|])
  {
    hide Holds, Shape, ApplyAll, NRows;
    SameRowCount(m, s.cols, up);
    SurplusStays(m, parse, s.cols, up, cs, ups, tx, |cs|);
    assert cs[..|cs|] == cs;
    var (s', r) := TxOutcome(m, parse, s, tx);
    if r.Ok? && Mirrors(m, s'.cols, ups[|cs|]) {
      SameRowCount(m, s'.cols, ups[|cs|]);
    }
  }

  /** A row that a truncation should have taken, inserted again and then deleted: two rows have the key. */
  lemma {:induction false} ReinsertedIsRefused(m: TableMap, parse: Parse, s: State, row: RowValues, t: Tuple,
                                               inserted: CommittedTx, deleted: CommittedTx)
    requires MapOk(m) && RowOk(m, row) && WritesRow(m, parse, t, row, None)
    requires Mirrors(m, s.cols, map[KeyIn(m, row) := row]) && s.lastLsn < inserted.endLsn < deleted.endLsn
    requires inserted.changes == [TxAssembler.RowInsert(m.table, t)]
    requires deleted.changes == [TxAssembler.RowDelete(m.table, t)]
    ensures
      var (s', r) := TxOutcome(m, parse, s, inserted);
      r == Ok(1) && s'.lastLsn == inserted.endLsn && TxOutcome(m, parse, s', deleted).1 == Err(RemovedRows(2))
  {
    hide RowOk, Shape, WritesRow, RowFrom, Rows, Add, Remove;
    var key, after := KeyIn(m, row), Add(m, s.cols, row).cols;
    RowRoundTrip(m, parse, t, row, None);
    AddAlways(m, s.cols, row);
    assert ApplyAll(m, parse, s.cols, inserted.changes, 0) == (s.cols, Ok(0));
    assert ApplyAll(m, parse, s.cols, inserted.changes, 1) == (after, Ok(1));
    WrittenKey(m, parse, t, row);
    TwoRows(m, s.cols, row);
    assert ApplyAll(m, parse, after, deleted.changes, 0) == (after, Ok(0));
    assert ApplyAll(m, parse, after, deleted.changes, 1).1 == Err(RemovedRows(2));
  }

  lemma {:induction false} WrittenKey(m: TableMap, parse: Parse, t: Tuple, row: RowValues)
    requires MapOk(m) && RowOk(m, row) && WritesRow(m, parse, t, row, None)
    ensures KeyOfDelete(m, parse, t) == Ok(KeyIn(m, row))
  {
    assert Writes(parse, t, m.pk, row[m.pk], None);
  }

  lemma {:induction false} TwoRows(m: TableMap, cols: Columns, row: RowValues)
    requires MapOk(m) && RowOk(m, row) && Mirrors(m, cols, map[KeyIn(m, row) := row])
    ensures Remove(m, Add(m, cols, row).cols, KeyIn(m, row)).result == Err(RemovedRows(2))
  {
    hide RowOk, Remove, Add;
    var key, after := KeyIn(m, row), Add(m, cols, row).cols;
    var v, v' := cols[m.pk].v, after[m.pk].v;
    SameRowCount(m, cols, map[key := row]);
    AddedRows(m, cols, row);
    AddCounts(m, cols, row);
    FailedRemove(m, after, key);
    hide Shape, Rows;
    assert |v| == 1 && v[0] == key;
    assert v' == [key, key];
    assert Kept(v', key, 0) == [] && Kept(v', key, 1) == [] && Kept(v', key, 2) == [];
  }

  // ------------------------------------------------------------------ transactions that fail

  /** A transaction fails at the first of its changes that fails, with that change's error; what the change before it
      and the failing one itself did to the table stays. */
  lemma {:induction false} FailsAt(m: TableMap, parse: Parse, cols: Columns, changes: seq<RowChange>,
                                   n: nat) returns (k: nat)
    requires MapOk(m) && Shape(m, cols) && n <= |changes| && ApplyAll(m, parse, cols, changes, n).1.Err?
    ensures k < n && ApplyAll(m, parse, cols, changes, k).1.Ok?
    ensures
      var o := ApplyChange(m, parse, ApplyAll(m, parse, cols, changes, k).0, changes[k]);
      o.result.Err? && ApplyAll(m, parse, cols, changes, n) == (o.cols, Err(o.result.error))
  {
    hide Shape, ApplyChange;
    if ApplyAll(m, parse, cols, changes, n - 1).1.Err? {
      k := FailsAt(m, parse, cols, changes, n - 1);
    } else {
      k := n - 1;
    }
  }

  /** The key under which a change deletes rows, once it gets that far. */
  function GoneBy(m: TableMap, parse: Parse, cols: Columns, change: RowChange): Option<real>
    requires MapOk(m) && Shape(m, cols)
  {
    if change.rel != m.table then None
    else
      match change
      case RowInsert(_, _) => None
      case RowDelete(_, before) =>
        var key := KeyOfDelete(m, parse, before);
        if key.Ok? then Some(key.value) else None
      case RowUpdate(_, oldRow, after) =>
        var resolved := Resolve(m, parse, cols, oldRow, after);
        if resolved.Ok? then Some(resolved.value.0) else None
  }

  /** A failing change leaves the rows it found, except those under the key it deletes by; of these there were none, or
      two or more. */
  lemma {:induction false} FailedChangeLeaves(m: TableMap, parse: Parse, cols: Columns, change: RowChange)
    requires MapOk(m) && Shape(m, cols) && ApplyChange(m, parse, cols, change).result.Err?
    ensures |cols[m.pk].v| == NRows(m, cols)
    ensures
      var o, gone := ApplyChange(m, parse, cols, change), GoneBy(m, parse, cols, change);
      if gone.None? then Rows(m, o.cols) == Rows(m, cols)
      else
        var idx := Kept(cols[m.pk].v, gone.value, NRows(m, cols));
        && AllBelow(idx, NRows(m, cols)) && |idx| != NRows(m, cols) - 1
        && Rows(m, o.cols) == Pick(Rows(m, cols), idx)
        && (|idx| == NRows(m, cols) ==> Rows(m, o.cols) == Rows(m, cols))
  {
    hide RowOk, Shape, RowFrom, Add, Rows, Remove;
    FailedRemove(m, cols, 0.0);
    match change
    case RowInsert(_, t) =>
      if RowFrom(m, parse, t, None).Ok? {
        RowFromOk(m, parse, t, None);
        AddAlways(m, cols, RowFrom(m, parse, t, None).value);
      }
    case RowDelete(_, before) =>
      if KeyOfDelete(m, parse, before).Ok? {
        FailedRemove(m, cols, KeyOfDelete(m, parse, before).value);
      }
    case RowUpdate(_, oldRow, after) =>
      if Resolve(m, parse, cols, oldRow, after).Ok? {
        var (key, row) := Resolve(m, parse, cols, oldRow, after).value;
        ResolvedOk(m, parse, cols, oldRow, after);
        FailedRemove(m, cols, key);
        AddAlways(m, Remove(m, cols, key).cols, row);
      }
  }

  lemma {:induction false} AddAlways(m: TableMap, cols: Columns, row: RowValues)
    requires MapOk(m) && Shape(m, cols) && RowOk(m, row)
    ensures Add(m, cols, row).result == Ok(true)
  {
  }

  lemma {:induction false} FailedRemove(m: TableMap, cols: Columns, key: real)
    requires MapOk(m) && Shape(m, cols)
    ensures |cols[m.pk].v| == NRows(m, cols)
    ensures
      var o, idx := Remove(m, cols, key), Kept(cols[m.pk].v, key, NRows(m, cols));
      && AllBelow(idx, NRows(m, cols)) && (o.result.Ok? <==> |idx| == NRows(m, cols) - 1)
      && Rows(m, o.cols) == Pick(Rows(m, cols), idx)
      && (o.result.Err? ==> o.result == Err(RemovedRows(NRows(m, cols) - |idx|)) && |idx| <= NRows(m, cols))
      && (|idx| == NRows(m, cols) ==> Rows(m, o.cols) == Rows(m, cols))
  {
    hide RowOk;
    RemainingRows(m, cols, key);
    DeleteKeepsShape(m, cols, key);
    var n, idx := NRows(m, cols), Kept(cols[m.pk].v, key, NRows(m, cols));
    hide Shape, Remove;
    if |idx| == n {
      KeptAreAll(idx, n);
    }
  }

  /** As many rising numbers below `n` as there are, are all of them in order. */
  lemma {:induction false} KeptAreAll(idx: seq<nat>, n: nat)
    requires |idx| == n && AllBelow(idx, n) && forall k, l :: 0 <= k < l < |idx| ==> idx[k] < idx[l]
    ensures forall k :: 0 <= k < n ==> idx[k] == k
  {
    if n > 0 {
      assert idx[n - 1] == n - 1 by {
        AtLeastItsPlace(idx, n - 1);
      }
      var most := idx[..n - 1];
      forall k | 0 <= k < n - 1 ensures most[k] < n - 1 {
        assert idx[k] < idx[n - 1];
      }
      KeptAreAll(most, n - 1);
      forall k | 0 <= k < n ensures idx[k] == k {
        if k < n - 1 {
          assert most[k] == idx[k];
        }
      }
    }
  }

  lemma {:induction false} AtLeastItsPlace(idx: seq<nat>, k: nat)
    requires k < |idx| && forall i, j :: 0 <= i < j < |idx| ==> idx[i] < idx[j]
    ensures idx[k] >= k
  {
    if k > 0 {
      AtLeastItsPlace(idx, k - 1);
    }
  }

  /** A failed transaction leaves the running mirror where its changes before the failing one took it: the table upstream
      after exactly those changes, under the old watermark and the old counters. The failing change itself deletes
      nothing, because keys are unique. */
  lemma {:induction false} FailureLeavesPrefix(m: TableMap, parse: Parse, s: State, up: Upstream, cs: seq<UpChange>,
                                               ups: seq<Upstream>, tx: CommittedTx)
    requires Mirrors(m, s.cols, up) && tx.endLsn > s.lastLsn && TruncatesNothing(cs, ups)
    requires Told(cs, |cs|) < |tx.changes|
    requires ReportsTx(m, parse, up, cs, ups, tx.(changes := tx.changes[..Told(cs, |cs|)]))
    requires
      var (before, _) := ApplyAll(m, parse, s.cols, tx.changes, Told(cs, |cs|));
      ApplyChange(m, parse, before, tx.changes[Told(cs, |cs|)]).result.Err?
    ensures |ups| == |cs| + 1
    ensures
      var (s', r) := TxOutcome(m, parse, s, tx);
      var (before, n) := ApplyAll(m, parse, s.cols, tx.changes, Told(cs, |cs|));
      && r == Err(ApplyChange(m, parse, before, tx.changes[Told(cs, |cs|)]).result.error)
      && s' == s.(cols := s'.cols) && n == Ok(CountHere(cs, |cs|))
      && Mirrors(m, s'.cols, ups[|cs|]) && Rows(m, s'.cols) == Rows(m, before)
  {
    hide Holds, Shape, ApplyChange, Rows;
    var k := Told(cs, |cs|);
    var prefix := tx.(changes := tx.changes[..k]);
    PrefixSimulates(m, parse, s.cols, up, cs, ups, prefix, |cs|);
    SamePrefix(m, parse, s.cols, prefix.changes, tx.changes, k);
    ApplyAllFails(m, parse, s.cols, tx.changes, k);
    FailedKeepsMirror(m, parse, ApplyAll(m, parse, s.cols, tx.changes, k).0, ups[|cs|], tx.changes[k]);
  }

  lemma {:induction false} SamePrefix(m: TableMap, parse: Parse, cols: Columns, a: seq<RowChange>, b: seq<RowChange>,
                                      n: nat)
    requires MapOk(m) && Shape(m, cols) && n <= |a| && n <= |b| && a[..n] == b[..n]
    ensures ApplyAll(m, parse, cols, a, n) == ApplyAll(m, parse, cols, b, n)
  {
    hide Shape, ApplyChange;
    if n > 0 {
      assert a[..n][n - 1] == b[..n][n - 1];
      assert a[..n][..n - 1] == a[..n - 1] && b[..n][..n - 1] == b[..n - 1];
      SamePrefix(m, parse, cols, a, b, n - 1);
    }
  }

  /** A change that fails on a mirror leaves the rows it found. */
  lemma {:induction false} FailedKeepsMirror(m: TableMap, parse: Parse, cols: Columns, up: Upstream, change: RowChange)
    requires Mirrors(m, cols, up) && ApplyChange(m, parse, cols, change).result.Err?
    ensures Mirrors(m, ApplyChange(m, parse, cols, change).cols, up)
    ensures Rows(m, ApplyChange(m, parse, cols, change).cols) == Rows(m, cols)
  {
    hide RowOk, Shape, ApplyChange, Rows, Kept, GoneBy, Holds;
    FailedChangeLeaves(m, parse, cols, change);
    var gone, after := GoneBy(m, parse, cols, change), ApplyChange(m, parse, cols, change).cols;
    if gone.Some? {
      UniqueKept(m, cols, up, gone.value);
    }
    SameKeys(m, cols, after);
  }

  lemma {:induction false} UniqueKept(m: TableMap, cols: Columns, up: Upstream, key: real)
    requires Mirrors(m, cols, up)
    ensures m.pk in cols && cols[m.pk].ScalarF64? && |cols[m.pk].v| == NRows(m, cols)
    ensures NRows(m, cols) - 1 <= |Kept(cols[m.pk].v, key, NRows(m, cols))| <= NRows(m, cols)
  {
    hide RowOk, Rows;
    FailedRemove(m, cols, key);
    var v := cols[m.pk].v;
    hide Shape;
    if i :| 0 <= i < |v| && v[i] == key {
      KeptButOne(v, |v|, i);
    } else {
      KeptAllOthers(v, key, |v|);
    }
  }

  lemma {:induction false} SameKeys(m: TableMap, a: Columns, b: Columns)
    requires MapOk(m) && Shape(m, a) && Shape(m, b) && Rows(m, a) == Rows(m, b)
    ensures a[m.pk].v == b[m.pk].v
  {
    hide RowOk, Rows;
    assert NRows(m, a) == |Rows(m, a)| == |Rows(m, b)| == NRows(m, b);
    forall i | 0 <= i < NRows(m, a) ensures a[m.pk].v[i] == b[m.pk].v[i] {
      KeyAt(m, a, i);
      KeyAt(m, b, i);
    }
    DeleteKeepsShape(m, a, 0.0);
    DeleteKeepsShape(m, b, 0.0);
  }

  /** A mirror determines the table upstream. */
  lemma {:induction false} MirrorsOne(m: TableMap, cols: Columns, a: Upstream, b: Upstream)
    requires Mirrors(m, cols, a) && Mirrors(m, cols, b)
    ensures a == b
  {
    hide Rows;
    var v, rows := cols[m.pk].v, Rows(m, cols);
    hide Shape;
    forall key | key in a || key in b ensures key in a && key in b && a[key] == b[key] {
      assert key in v;
      var i :| 0 <= i < |v| && v[i] == key;
      assert a[v[i]] == rows[i] && b[v[i]] == rows[i];
    }
  }

  /** All or nothing holds for a failed transaction - the mirror is still that of the table it began with - if and only if
      the changes before the failing one leave the table upstream as it was. */
  lemma {:induction false} AllOrNothingIff(m: TableMap, parse: Parse, s: State, up: Upstream, cs: seq<UpChange>,
                                           ups: seq<Upstream>, tx: CommittedTx)
    requires Mirrors(m, s.cols, up) && tx.endLsn > s.lastLsn && TruncatesNothing(cs, ups)
    requires Told(cs, |cs|) < |tx.changes|
    requires ReportsTx(m, parse, up, cs, ups, tx.(changes := tx.changes[..Told(cs, |cs|)]))
    requires
      var (before, _) := ApplyAll(m, parse, s.cols, tx.changes, Told(cs, |cs|));
      ApplyChange(m, parse, before, tx.changes[Told(cs, |cs|)]).result.Err?
    ensures Mirrors(m, TxOutcome(m, parse, s, tx).0.cols, up) <==> ups[|cs|] == up
  {
    hide Mirrors, TxOutcome, ReportsTx, Shape, Holds, ApplyAll, ApplyChange, Rows, MapOk;
    MirrorsShape(m, s.cols, up);
    FailureLeavesPrefix(m, parse, s, up, cs, ups, tx);
    var cols := TxOutcome(m, parse, s, tx).0.cols;
    if Mirrors(m, cols, up) {
      MirrorsOne(m, cols, up, ups[|cs|]);
    }
  }

  /** For any table with the mapped columns: a failing transaction fails at one change, whose error it reports. When no
      change before that counts, and that one finds no row under the key it deletes by, every row is as it was, in its
      place. */
  lemma {:induction false} NothingCountedNothingChanged(m: TableMap, parse: Parse, s: State,
                                                        tx: CommittedTx) returns (k: nat)
    requires MapOk(m) && Shape(m, s.cols) && TxOutcome(m, parse, s, tx).1.Err?
    ensures k < |tx.changes| && tx.endLsn > s.lastLsn
    ensures
      var (before, n) := ApplyAll(m, parse, s.cols, tx.changes, k);
      var o, gone := ApplyChange(m, parse, before, tx.changes[k]), GoneBy(m, parse, before, tx.changes[k]);
      && n.Ok? && o.result.Err? && TxOutcome(m, parse, s, tx) == (s.(cols := o.cols), Err(o.result.error))
      && (n == Ok(0) ==> before == s.cols)
      && (n == Ok(0) && (gone.Some? ==> gone.value !in KeysOf(m, before)) ==> Rows(m, o.cols) == Rows(m, s.cols))
  {
    hide Shape, ApplyChange, Rows, GoneBy, Kept;
    k := FailsAt(m, parse, s.cols, tx.changes, |tx.changes|);
    UncountedKeep(m, parse, s.cols, tx.changes, k);
    var before := ApplyAll(m, parse, s.cols, tx.changes, k).0;
    FailedChangeLeaves(m, parse, before, tx.changes[k]);
    var gone := GoneBy(m, parse, before, tx.changes[k]);
    if gone.Some? && gone.value !in KeysOf(m, before) {
      KeptAllOthers(KeysOf(m, before), gone.value, NRows(m, before));
    }
  }

  function KeysOf(m: TableMap, cols: Columns): (v: seq<real>)
    requires MapOk(m) && Shape(m, cols)
    ensures v == cols[m.pk].v
  {
    cols[m.pk].v
  }

  lemma {:induction false} UncountedKeep(m: TableMap, parse: Parse, cols: Columns, changes: seq<RowChange>, k: nat)
    requires MapOk(m) && Shape(m, cols) && k <= |changes|
    ensures ApplyAll(m, parse, cols, changes, k).1 == Ok(0) ==> ApplyAll(m, parse, cols, changes, k).0 == cols
  {
    hide Shape, ApplyChange;
    if k > 0 {
      UncountedKeep(m, parse, cols, changes, k - 1);
      var before := ApplyAll(m, parse, cols, changes, k - 1).0;
      if ApplyChange(m, parse, before, changes[k - 1]).result == Ok(false) {
        UncountedChange(m, parse, before, changes[k - 1]);
      }
    }
  }

  lemma {:induction false} UncountedChange(m: TableMap, parse: Parse, cols: Columns, change: RowChange)
    requires MapOk(m) && Shape(m, cols) && ApplyChange(m, parse, cols, change).result == Ok(false)
    ensures ApplyChange(m, parse, cols, change).cols == cols
  {
    hide RowOk, Shape, RowFrom, CurrentFor;
  }

  /** An insertion and the deletion of the same row. */
  lemma {:induction false} CancelledReported(m: TableMap, parse: Parse, up: Upstream, t: Tuple, row: RowValues,
                                             gone: Tuple, tx: CommittedTx)
    requires MapOk(m) && RowOk(m, row) && KeyIn(m, row) !in up && WritesRow(m, parse, t, row, None)
    requires KeySent(m, parse, gone, KeyIn(m, row))
    requires tx.changes == [TxAssembler.RowInsert(m.table, t), TxAssembler.RowDelete(m.table, gone)]
    ensures
      var cs := [UpInsert(row), UpDelete(KeyIn(m, row))];
      && ReportsTx(m, parse, up, cs, [up, up[KeyIn(m, row) := row], up], tx)
      && TruncatesNothing(cs, [up, up[KeyIn(m, row) := row], up]) && Told(cs, 2) == 2 && CountHere(cs, 2) == 2
  {
    hide WritesRow, RowOk, KeySent;
    assert up[KeyIn(m, row) := row] - {KeyIn(m, row)} == up;
    var cs := [UpInsert(row), UpDelete(KeyIn(m, row))];
    assert CountHere(cs, 1) == 1 && Told(cs, 0) == 0 && Told(cs, 1) == 1 && Told(cs, 2) == 2;
  }

  lemma {:induction false} NoKeyFails(m: TableMap, parse: Parse, cols: Columns, change: RowChange)
    requires MapOk(m) && Shape(m, cols) && change == TxAssembler.RowDelete(m.table, [])
    ensures ApplyChange(m, parse, cols, change).result == Err(MissingInTuple(m.pk))
  {
  }

  /** That no change counts is not necessary: a row inserted and deleted again counts twice, and when the next change fails
      the rows are as they were. */
  lemma {:induction false} CancelledChangesCount(m: TableMap, parse: Parse, s: State, up: Upstream, t: Tuple, row: RowValues,
                                                 gone: Tuple, tx: CommittedTx)
    requires Mirrors(m, s.cols, up) && tx.endLsn > s.lastLsn
    requires MapOk(m) && RowOk(m, row) && KeyIn(m, row) !in up && WritesRow(m, parse, t, row, None)
    requires KeySent(m, parse, gone, KeyIn(m, row))
    requires tx.changes == [TxAssembler.RowInsert(m.table, t), TxAssembler.RowDelete(m.table, gone), TxAssembler.RowDelete(m.table, [])]
    ensures
      var (s', r) := TxOutcome(m, parse, s, tx);
      && r == Err(MissingInTuple(m.pk)) && Mirrors(m, s'.cols, up)
      && ApplyAll(m, parse, s.cols, tx.changes, 2).1 == Ok(2)
  {
    hide Mirrors, WritesRow, TxOutcome, ReportsTx, RowOk, Shape, ApplyAll, KeySent;
    MirrorsShape(m, s.cols, up);
    var cs, ups := [UpInsert(row), UpDelete(KeyIn(m, row))], [up, up[KeyIn(m, row) := row], up];
    var prefix := tx.(changes := tx.changes[..2]);
    CancelledReported(m, parse, up, t, row, gone, prefix);
    PrefixSimulates(m, parse, s.cols, up, cs, ups, prefix, 2);
    SamePrefix(m, parse, s.cols, prefix.changes, tx.changes, 2);
    NoKeyFails(m, parse, ApplyAll(m, parse, s.cols, tx.changes, 2).0, tx.changes[2]);
    AllOrNothingIff(m, parse, s, up, cs, ups, tx);
    FailureLeavesPrefix(m, parse, s, up, cs, ups, tx);
  }

  /** The shortest failure that is not all or nothing: an insertion, and a deletion that has no key. */
  lemma {:induction false} FailureLeavesChanges(m: TableMap, parse: Parse, s: State, t: Tuple, row: RowValues,
                                                tx: CommittedTx)
    requires MapOk(m) && Shape(m, s.cols) && RowOk(m, row) && WritesRow(m, parse, t, row, None)
    requires tx.endLsn > s.lastLsn
    requires tx.changes == [TxAssembler.RowInsert(m.table, t), TxAssembler.RowDelete(m.table, [])]
    ensures
      var (s', r) := TxOutcome(m, parse, s, tx);
      && r == Err(MissingInTuple(m.pk)) && s'.lastLsn == s.lastLsn && s'.txsApplied == s.txsApplied
      && Rows(m, s'.cols) == Rows(m, s.cols) + [row]
  {
    hide RowOk, Shape, WritesRow, RowFrom, Rows;
    RowRoundTrip(m, parse, t, row, None);
    AddedRows(m, s.cols, row);
    assert ApplyAll(m, parse, s.cols, tx.changes, 0) == (s.cols, Ok(0));
    assert ApplyAll(m, parse, s.cols, tx.changes, 1) == (Add(m, s.cols, row).cols, Ok(1));
    assert ApplyAll(m, parse, s.cols, tx.changes, 2) == (Add(m, s.cols, row).cols, Err(MissingInTuple(m.pk)));
  }

  lemma {:induction false} MirrorsShape(m: TableMap, cols: Columns, up: Upstream)
    requires Mirrors(m, cols, up)
    ensures MapOk(m) && Shape(m, cols)
  {
  }

  // ------------------------------------------------------------------ the mirror as it lives

  class LiveMirror {
    const m: TableMap
    const parse: Parse
    var cols: Columns
    var rowsApplied: nat
    var txsApplied: nat
    var lastLsn: nat

    ghost function View(): State
      reads this
    {
      State(cols, rowsApplied, txsApplied, lastLsn)
    }

    ghost predicate Valid()
      reads this
    {
      MapOk(m) && Shape(m, cols)
    }

    /** A fresh mirror over a snapshot: nothing applied yet. */
    constructor (m: TableMap, parse: Parse, cols: Columns)
      requires MapOk(m) && Shape(m, cols)
      ensures Valid() && this.m == m && this.parse == parse && View() == State(cols, 0, 0, 0)
    {
      this.m, this.parse, this.cols := m, parse, cols;
      rowsApplied, txsApplied, lastLsn := 0, 0, 0;
    }

    /** A row of the mapped columns from a tuple; unchanged datums come from the current row, if there is one. */
    method BuildRow(t: Tuple, current: Current) returns (r: Result<RowValues, ApplyError>)
      ensures r == RowFrom(m, parse, t, current)
    {
      var row: RowValues := map[];
      for k := 0 to |m.scalarCols|
        invariant ScalarCells(parse, t, current, m.scalarCols, k) == Ok(row)
      {
        var x := ScalarOf(parse, t, current, m.scalarCols[k]);
        if x.Err? {
          ScalarCellsFail(parse, t, current, m.scalarCols, k);
          return Err(x.error);
        }
        row := row[m.scalarCols[k] := Num(x.value)];
      }
      ghost var scalars := row;
      for k := 0 to |m.labelCols|
        invariant LabelCells(t, current, scalars, m.labelCols, k) == Ok(row)
      {
        var s := LabelOf(t, current, m.labelCols[k]);
        if s.Err? {
          LabelCellsFail(t, current, scalars, m.labelCols, k);
          return Err(s.error);
        }
        row := row[m.labelCols[k] := Label(s.value)];
      }
      var key := [];
      for k := 0 to |m.keyParts|
        invariant KeyVector(parse, t, current, m.keyParts, k) == Ok(key)
      {
        var x := ScalarOf(parse, t, current, m.keyParts[k]);
        if x.Err? {
          KeyVectorFails(parse, t, current, m.keyParts, k);
          return Err(x.error);
        }
        key := key + [x.value];
      }
      r := Ok(row[m.keyCol := Vector(key)]);
    }

    method ApplyTx(tx: CommittedTx) returns (r: Result<nat, ApplyError>)
      requires Valid()
      modifies this
      ensures Valid()
      ensures (View(), r) == TxOutcome(m, parse, old(View()), tx)
      ensures tx.endLsn <= old(lastLsn) ==> r == Ok(0) && View() == old(View())
      ensures tx.endLsn > old(lastLsn) && r.Ok? ==>
        && lastLsn == tx.endLsn && txsApplied == old(txsApplied) + 1 && rowsApplied == old(rowsApplied) + r.value
      ensures r.Err? ==>
        lastLsn == old(lastLsn) && txsApplied == old(txsApplied) && rowsApplied == old(rowsApplied)
    {
      hide ApplyChange, Shape;
      if tx.endLsn <= lastLsn {
        return Ok(0);
      }
      var applied := 0;
      ghost var before := cols;
      for i := 0 to |tx.changes|
        invariant Valid() && View() == old(View()).(cols := cols)
        invariant ApplyAll(m, parse, before, tx.changes, i) == (cols, Ok(applied))
      {
        var one := ApplyOne(tx.changes[i]);
        if one.Err? {
          ApplyAllFails(m, parse, before, tx.changes, i);
          return Err(one.error);
        }
        if one.value {
          applied := applied + 1;
        }
      }
      rowsApplied := rowsApplied + applied;
      txsApplied := txsApplied + 1;
      lastLsn := tx.endLsn;
      r := Ok(applied);
    }

    method ApplyOne(change: RowChange) returns (r: Result<bool, ApplyError>)
      requires Valid()
      modifies this`cols
      ensures Valid()
      ensures Outcome(cols, r) == ApplyChange(m, parse, old(cols), change)
    {
      hide RowOk, Shape, RowFrom, Add, Remove, CurrentFor;
      if change.rel != m.table {
        return Ok(false);
      }
      match change {
        case RowInsert(_, t) =>
          var row := BuildRow(t, None);
          if row.Err? {
            return Err(row.error);
          }
          RowFromOk(m, parse, t, None);
          r := Insert(row.value);
        case RowDelete(_, before) =>
          var key := KeyOfDelete(m, parse, before);
          if key.Err? {
            return Err(key.error);
          }
          r := Delete(key.value);
        case RowUpdate(_, oldRow, after) =>
          var text :- OldKey(m, oldRow, after);
          var key :- Number(parse, text, m.pk);
          var current :- CurrentFor(m, cols, key, after);
          var row := BuildRow(after, current);
          if row.Err? {
            return Err(row.error);
          }
          ResolvedOk(m, parse, cols, oldRow, after);
          r := Delete(key);
          if r.Ok? {
            r := Insert(row.value);
          }
      }
    }

    method Insert(row: RowValues) returns (r: Result<bool, ApplyError>)
      requires Valid() && RowOk(m, row)
      modifies this`cols
      ensures Valid()
      ensures Outcome(cols, r) == Add(m, old(cols), row)
    {
      InsertKeepsShape(m, cols, row);
      cols := InsertRow(cols, row).value;
      r := Ok(true);
    }

    method Delete(key: real) returns (r: Result<bool, ApplyError>)
      requires Valid()
      modifies this`cols
      ensures Valid()
      ensures Outcome(cols, r) == Remove(m, old(cols), key)
    {
      DeleteKeepsShape(m, cols, key);
      var (after, removed) := DeleteWhere(cols, NRows(m, cols), m.pk, key).value;
      cols := after;
      r := if removed == 1 then Ok(true) else Err(RemovedRows(removed));
    }
  }

  lemma {:induction false} ScalarCellsFail(parse: Parse, t: Tuple, current: Current, names: seq<Text>, k: nat)
    requires k < |names| && ScalarCells(parse, t, current, names, k).Ok? && ScalarOf(parse, t, current, names[k]).Err?
    ensures ScalarCells(parse, t, current, names, |names|) == Err(ScalarOf(parse, t, current, names[k]).error)
  {
    for i := k + 1 to |names|
      invariant ScalarCells(parse, t, current, names, i) == Err(ScalarOf(parse, t, current, names[k]).error)
    {
    }
  }

  lemma {:induction false} LabelCellsFail(t: Tuple, current: Current, row: RowValues, names: seq<Text>, k: nat)
    requires k < |names| && LabelCells(t, current, row, names, k).Ok? && LabelOf(t, current, names[k]).Err?
    ensures LabelCells(t, current, row, names, |names|) == Err(LabelOf(t, current, names[k]).error)
  {
    for i := k + 1 to |names|
      invariant LabelCells(t, current, row, names, i) == Err(LabelOf(t, current, names[k]).error)
    {
    }
  }

  lemma {:induction false} KeyVectorFails(parse: Parse, t: Tuple, current: Current, parts: seq<Text>, k: nat)
    requires k < |parts| && KeyVector(parse, t, current, parts, k).Ok? && ScalarOf(parse, t, current, parts[k]).Err?
    ensures KeyVector(parse, t, current, parts, |parts|) == Err(ScalarOf(parse, t, current, parts[k]).error)
  {
    for i := k + 1 to |parts|
      invariant KeyVector(parse, t, current, parts, i) == Err(ScalarOf(parse, t, current, parts[k]).error)
    {
    }
  }

  lemma {:induction false} ApplyAllFails(m: TableMap, parse: Parse, cols: Columns, changes: seq<RowChange>, k: nat)
    requires MapOk(m) && Shape(m, cols) && k < |changes| && ApplyAll(m, parse, cols, changes, k).1.Ok?
    requires ApplyChange(m, parse, ApplyAll(m, parse, cols, changes, k).0, changes[k]).result.Err?
    ensures
      var o := ApplyChange(m, parse, ApplyAll(m, parse, cols, changes, k).0, changes[k]);
      ApplyAll(m, parse, cols, changes, |changes|) == (o.cols, Err(o.result.error))
  {
    hide Shape, ApplyChange;
    var o := ApplyChange(m, parse, ApplyAll(m, parse, cols, changes, k).0, changes[k]);
    for i := k + 1 to |changes|
      invariant ApplyAll(m, parse, cols, changes, i) == (o.cols, Err(o.result.error))
    {
    }
  }
}
