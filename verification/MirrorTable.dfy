/** The columnar table under the mirror: typed columns, a row as values by column name, appending a row and
    deleting the rows that match a key. */
module MirrorTable {
  import opened Wrappers
  import opened Bytes
  import opened Counting

  type Text = bytes

  datatype Column =
    | ScalarF64(v: seq<real>)
    | DictU32(codes: seq<nat>, dict: seq<Text>)
    | KeyF64(rows: seq<seq<real>>, ncols: nat)

  type Columns = map<Text, Column>

  /** A value of a column: a scalar, a label or a key vector. */
  datatype Value = Num(x: real) | Label(text: Text) | Vector(key: seq<real>)

  /** One row, by column name (the three maps of the original, one per kind, in one). */
  type RowValues = map<Text, Value>

  datatype DbError = UnknownColumn | MissingColumn | NotScalar

  function Len(c: Column): nat {
    match c
    case ScalarF64(v) => |v|
    case DictU32(codes, _) => |codes|
    case KeyF64(rows, _) => |rows|
  }

  /** All columns have `n` rows, codes are in the dictionary, key rows have the width of the column. */
  ghost predicate Rect(cols: Columns, n: nat) {
    forall c :: c in cols ==>
      && Len(cols[c]) == n
      && (cols[c].DictU32? ==> forall i :: 0 <= i < n ==> cols[c].codes[i] < |cols[c].dict|)
      && (cols[c].KeyF64? ==> forall i :: 0 <= i < n ==> |cols[c].rows[i]| == cols[c].ncols)
  }

  function CellAt(c: Column, i: nat): Value
    requires i < Len(c) && (c.DictU32? ==> c.codes[i] < |c.dict|)
  {
    match c
    case ScalarF64(v) => Num(v[i])
    case DictU32(codes, dict) => Label(dict[codes[i]])
    case KeyF64(rows, _) => Vector(rows[i])
  }

  /** The `i`-th row. */
  function RowAt(cols: Columns, n: nat, i: nat): RowValues
    requires Rect(cols, n) && i < n
  {
    map c | c in cols :: CellAt(cols[c], i)
  }

  // ------------------------------------------------------------------ appending

  /** The first position of a label. */
  function Position(dict: seq<Text>, text: Text): (k: nat)
    ensures k <= |dict| && (k < |dict| ==> dict[k] == text)
    ensures k == |dict| ==> text !in dict
    ensures forall i :: 0 <= i < k ==> dict[i] != text
  {
    if dict == [] || dict[0] == text then 0 else Position(dict[1..], text) + 1
  }

  function AppendLabel(codes: seq<nat>, dict: seq<Text>, text: Text): Column {
    var k := Position(dict, text);
    if k < |dict| then DictU32(codes + [k], dict) else DictU32(codes + [k], dict + [text])
  }

  /** A label that is in the dictionary keeps its code; a new one goes to the end. */
  lemma {:induction false} LabelKeepsCode(codes: seq<nat>, dict: seq<Text>, text: Text)
    ensures
      var c := AppendLabel(codes, dict, text);
      && c.DictU32? && c.dict == (if text in dict then dict else dict + [text])
      && |c.codes| == |codes| + 1 && c.codes[..|codes|] == codes
      && var k := c.codes[|codes|];
         k < |c.dict| && c.dict[k] == text && forall i :: 0 <= i < k ==> c.dict[i] != text
  {
    var c := AppendLabel(codes, dict, text);
    var k := Position(dict, text);
    assert c.codes[|codes|] == k && c.codes[..|codes|] == codes;
    assert text in dict ==> k < |dict|;
  }

  /** The value has the kind of the column, and a key its width. */
  predicate Suits(c: Column, x: Value) {
    match c
    case ScalarF64(_) => x.Num?
    case DictU32(_, _) => x.Label?
    case KeyF64(_, ncols) => x.Vector? && |x.key| == ncols
  }

  function AppendTo(c: Column, x: Value): Column
    requires Suits(c, x)
  {
    match c
    case ScalarF64(v) => ScalarF64(v + [x.x])
    case DictU32(codes, dict) => AppendLabel(codes, dict, x.text)
    case KeyF64(rows, ncols) => KeyF64(rows + [x.key], ncols)
  }

  ghost predicate SameKind(a: Column, b: Column) {
    match a
    case ScalarF64(_) => b.ScalarF64?
    case DictU32(_, _) => b.DictU32?
    case KeyF64(_, ncols) => b.KeyF64? && b.ncols == ncols
  }

  ghost predicate SameKinds(a: Columns, b: Columns) {
    a.Keys == b.Keys && forall c :: c in a ==> SameKind(a[c], b[c])
  }

  /** A row must name only columns of the table, and every one of them with a value that suits it. */
  function InsertRow(cols: Columns, row: RowValues): Result<Columns, DbError> {
    if exists c :: c in row && c !in cols then Err(UnknownColumn)
    else if exists c :: c in cols && !(c in row && Suits(cols[c], row[c])) then Err(MissingColumn)
    else Ok(map c | c in cols :: AppendTo(cols[c], row[c]))
  }

  lemma {:induction false} AppendedCell(c: Column, n: nat, x: Value)
    requires Len(c) == n && Suits(c, x)
    requires c.DictU32? ==> forall i :: 0 <= i < n ==> c.codes[i] < |c.dict|
    requires c.KeyF64? ==> forall i :: 0 <= i < n ==> |c.rows[i]| == c.ncols
    ensures
      var c' := AppendTo(c, x);
      && Len(c') == n + 1 && SameKind(c, c')
      && (c'.DictU32? ==> forall i :: 0 <= i <= n ==> c'.codes[i] < |c'.dict|)
      && (c'.KeyF64? ==> forall i :: 0 <= i <= n ==> |c'.rows[i]| == c'.ncols)
      && CellAt(c', n) == x
      && forall i :: 0 <= i < n ==> CellAt(c', i) == CellAt(c, i)
  {
  }

  /** An accepted row becomes the last row, and the other rows stay; and a row is accepted exactly when it has one
      suitable value for every column and no other value. */
  lemma {:induction false} InsertAppends(cols: Columns, n: nat, row: RowValues)
    requires Rect(cols, n)
    ensures InsertRow(cols, row).Ok? <==> row.Keys == cols.Keys && forall c :: c in cols ==> Suits(cols[c], row[c])
    ensures InsertRow(cols, row).Ok? ==>
      var after := InsertRow(cols, row).value;
      && SameKinds(cols, after) && Rect(after, n + 1)
      && RowAt(after, n + 1, n) == row
      && forall i :: 0 <= i < n ==> RowAt(after, n + 1, i) == RowAt(cols, n, i)
  {
    hide AppendTo, CellAt;
    if InsertRow(cols, row).Ok? {
      var after := InsertRow(cols, row).value;
      forall c | c in cols
        ensures Len(after[c]) == n + 1 && SameKind(cols[c], after[c])
        ensures after[c].DictU32? ==> forall i :: 0 <= i <= n ==> after[c].codes[i] < |after[c].dict|
        ensures after[c].KeyF64? ==> forall i :: 0 <= i <= n ==> |after[c].rows[i]| == after[c].ncols
        ensures CellAt(after[c], n) == row[c]
        ensures forall i :: 0 <= i < n ==> CellAt(after[c], i) == CellAt(cols[c], i)
      {
        AppendedCell(cols[c], n, row[c]);
      }
      assert row.Keys == cols.Keys;
      assert Rect(after, n + 1);
      assert RowAt(after, n + 1, n) == row;
      forall i | 0 <= i < n ensures RowAt(after, n + 1, i) == RowAt(cols, n, i) {
      }
    }
  }

  // ------------------------------------------------------------------ deleting

  /** The positions of the values that differ from `x`, in order. */
  function Kept(v: seq<real>, x: real, n: nat): (idx: seq<nat>)
    requires n <= |v|
    ensures forall k :: 0 <= k < |idx| ==> idx[k] < n && v[idx[k]] != x
    ensures forall k, l :: 0 <= k < l < |idx| ==> idx[k] < idx[l]
    ensures forall i :: 0 <= i < n && v[i] != x ==> i in idx
  {
    if n == 0 then []
    else if v[n - 1] == x then Kept(v, x, n - 1)
    else Kept(v, x, n - 1) + [n - 1]
  }

  function Pick<T>(s: seq<T>, idx: seq<nat>): (r: seq<T>)
    requires AllBelow(idx, |s|)
    ensures |r| == |idx| && forall k :: 0 <= k < |r| ==> r[k] == s[idx[k]]
  {
    seq(|idx|, k requires 0 <= k < |idx| => s[idx[k]])
  }

  function PickColumn(c: Column, idx: seq<nat>): Column
    requires AllBelow(idx, Len(c))
  {
    match c
    case ScalarF64(v) => ScalarF64(Pick(v, idx))
    case DictU32(codes, dict) => DictU32(Pick(codes, idx), dict)
    case KeyF64(rows, ncols) => KeyF64(Pick(rows, idx), ncols)
  }

  /** Deletes the rows whose `pk` is `x`: the table without them, and how many they were. */
  function DeleteWhere(cols: Columns, n: nat, pk: Text, x: real): Result<(Columns, nat), DbError>
    requires forall c :: c in cols ==> Len(cols[c]) == n
  {
    if pk !in cols || !cols[pk].ScalarF64? then Err(NotScalar)
    else
      assert Len(cols[pk]) == n;
      var idx := Kept(cols[pk].v, x, n);
      KeptAtMost(cols[pk].v, x, n);
      if |idx| == n then Ok((cols, 0)) else Ok((map c | c in cols :: PickColumn(cols[c], idx), n - |idx|))
  }

  lemma {:induction false} KeptAtMost(v: seq<real>, x: real, n: nat)
    requires n <= |v|
    ensures |Kept(v, x, n)| <= n
    ensures |Kept(v, x, n)| == n ==> forall k :: 0 <= k < n ==> Kept(v, x, n)[k] == k
  {
    if n > 0 {
      KeptAtMost(v, x, n - 1);
    }
  }

  lemma {:induction false} PickedCell(c: Column, n: nat, idx: seq<nat>)
    requires Len(c) == n && AllBelow(idx, n)
    requires c.DictU32? ==> forall i :: 0 <= i < n ==> c.codes[i] < |c.dict|
    requires c.KeyF64? ==> forall i :: 0 <= i < n ==> |c.rows[i]| == c.ncols
    ensures
      var c' := PickColumn(c, idx);
      && Len(c') == |idx| && SameKind(c, c')
      && (c'.DictU32? ==> forall k :: 0 <= k < |idx| ==> c'.codes[k] < |c'.dict|)
      && (c'.KeyF64? ==> forall k :: 0 <= k < |idx| ==> |c'.rows[k]| == c'.ncols)
      && forall k :: 0 <= k < |idx| ==> CellAt(c', k) == CellAt(c, idx[k])
  {
  }

  lemma {:induction false} PickedTable(cols: Columns, n: nat, idx: seq<nat>, after: Columns)
    requires Rect(cols, n) && AllBelow(idx, n) && after.Keys == cols.Keys
    requires forall c :: c in cols ==> Len(cols[c]) == n && after[c] == PickColumn(cols[c], idx)
    ensures SameKinds(cols, after) && Rect(after, |idx|)
    ensures forall k :: 0 <= k < |idx| ==> RowAt(after, |idx|, k) == RowAt(cols, n, idx[k])
  {
    hide PickColumn, CellAt;
    forall c | c in cols
      ensures Len(after[c]) == |idx| && SameKind(cols[c], after[c])
      ensures after[c].DictU32? ==> forall k :: 0 <= k < |idx| ==> after[c].codes[k] < |after[c].dict|
      ensures after[c].KeyF64? ==> forall k :: 0 <= k < |idx| ==> |after[c].rows[k]| == after[c].ncols
      ensures forall k :: 0 <= k < |idx| ==> CellAt(after[c], k) == CellAt(cols[c], idx[k])
    {
      PickedCell(cols[c], n, idx);
    }
    assert Rect(after, |idx|);
    forall k | 0 <= k < |idx| ensures RowAt(after, |idx|, k) == RowAt(cols, n, idx[k]) {
    }
  }

  /** What is left are the rows with another key, in their order. */
  lemma {:induction false} DeleteKeepsOthers(cols: Columns, n: nat, pk: Text, x: real)
    requires Rect(cols, n) && pk in cols && cols[pk].ScalarF64?
    ensures Len(cols[pk]) == n && DeleteWhere(cols, n, pk, x).Ok?
    ensures
      var idx := Kept(cols[pk].v, x, n);
      var (after, removed) := DeleteWhere(cols, n, pk, x).value;
      && removed + |idx| == n && SameKinds(cols, after) && Rect(after, |idx|)
      && forall k :: 0 <= k < |idx| ==> RowAt(after, |idx|, k) == RowAt(cols, n, idx[k])
  {
    hide PickColumn, CellAt, RowAt;
    assert Len(cols[pk]) == n;
    var idx := Kept(cols[pk].v, x, n);
    KeptAtMost(cols[pk].v, x, n);
    if |idx| < n {
      PickedTable(cols, n, idx, DeleteWhere(cols, n, pk, x).value.0);
    }
  }
}
