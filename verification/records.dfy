/**
  From raw CSV rows to the rows handed to the database: the per-cell filter,
  the type coercion of the surviving cells, the batch of non-empty records and
  the zipping of a record with the column names (array_combine).

  PHP arrays keep their keys through array_filter, so a record is a sequence of
  entries that remember the CSV position each cell came from.
 */
module Records {
  import opened Patterns
  import opened Coercion
  import opened Schema

  /** An array element with its integer key: the CSV position of the cell. */
  datatype Entry<T> = Entry(pos: nat, val: T)

  /** A filtered and coerced CSV line. */
  type Record = seq<Entry<Value>>

  /** An associative array from column name to value, in insertion order. */
  type RowData = seq<(string, Value)>

  /** The key i is present. */
  predicate HasKey<T>(r: seq<Entry<T>>, i: nat)
  {
    exists k :: 0 <= k < |r| && r[k].pos == i
  }

  /** Keys strictly increase, as array_filter leaves them. */
  predicate Increasing<T>(r: seq<Entry<T>>)
  {
    forall k, l :: 0 <= k < l < |r| ==> r[k].pos < r[l].pos
  }

  /** Keys strictly increase and all lie below n. */
  predicate WellFormed<T>(r: seq<Entry<T>>, n: nat)
  {
    Increasing(r) && forall k :: 0 <= k < |r| ==> r[k].pos < n
  }

  // ---------------------------------------------------------------------
  // The cell filter

  /**
    The filter callback as the importer writes it: the bound check admits
    positions up to and including the column count.  At the position equal to
    the count there is no column: its label is null, which is never identical
    to a cell, and its pattern is empty, which matches every cell.
   */
  predicate KeepAsWritten(schema: seq<ColumnSpec>, i: nat, cell: string)
  {
    if i < |schema| then schema[i].header != cell && Matches(schema[i].pattern, cell)
    else i == |schema|
  }

  /** The intended callback: a cell inside the schema, not its column's label, accepted by its pattern. */
  predicate Keep(schema: seq<ColumnSpec>, i: nat, cell: string)
  {
    i < |schema| && schema[i].header != cell && Matches(schema[i].pattern, cell)
  }

  /** The two callbacks differ at exactly one position: the one just past the last column. */
  lemma KeepAsWrittenAdmitsOneMore(schema: seq<ColumnSpec>, i: nat, cell: string)
    ensures KeepAsWritten(schema, i, cell) <==> Keep(schema, i, cell) || i == |schema|
  {
  }

  /** The callback selected by asWritten. */
  predicate Admits(asWritten: bool, schema: seq<ColumnSpec>, i: nat, cell: string)
  {
    if asWritten then KeepAsWritten(schema, i, cell) else Keep(schema, i, cell)
  }

  /** array_filter with one of the two callbacks, keys preserved. */
  function FilterRow(asWritten: bool, schema: seq<ColumnSpec>, row: seq<string>): (r: seq<Entry<string>>)
    ensures Increasing(r)
    ensures forall k :: 0 <= k < |r| ==> r[k].pos < |row| && r[k].val == row[r[k].pos]
    ensures forall k :: 0 <= k < |r| ==> Admits(asWritten, schema, r[k].pos, r[k].val)
    ensures forall i :: 0 <= i < |row| && Admits(asWritten, schema, i, row[i]) ==> HasKey(r, i)
  {
    if row == [] then []
    else
      var i := |row| - 1;
      var r := FilterRow(asWritten, schema, row[..i]);
      assert forall j :: 0 <= j < i ==> row[..i][j] == row[j];
      if Admits(asWritten, schema, i, row[i]) then
        AppendEntry(r, Entry(i, row[i]));
        r + [Entry(i, row[i])]
      else
        r
  }

  /** Appending an entry whose key exceeds every key keeps the keys increasing and adds exactly that key. */
  lemma AppendEntry<T>(r: seq<Entry<T>>, e: Entry<T>)
    requires Increasing(r) && forall k :: 0 <= k < |r| ==> r[k].pos < e.pos
    ensures Increasing(r + [e])
    ensures forall j: nat :: HasKey(r + [e], j) <==> HasKey(r, j) || j == e.pos
  {
    var out := r + [e];
    assert forall k :: 0 <= k < |r| ==> out[k] == r[k];
    assert out[|r|] == e;
  }

  /**
    The cells of a line that survive the filter: a cell at position i survives
    exactly when i is a column of the schema, the cell is not that column's
    label and the column's pattern accepts it.
   */
  function Cells(schema: seq<ColumnSpec>, row: seq<string>): (r: seq<Entry<string>>)
    ensures WellFormed(r, |schema|)
    ensures forall k :: 0 <= k < |r| ==> r[k].pos < |row| && r[k].val == row[r[k].pos]
    ensures forall i: nat :: HasKey(r, i) <==> i < |row| && Keep(schema, i, row[i])
  {
    FilterRow(false, schema, row)
  }

  /** The cells as the importer's bound check lets them through: one position too many. */
  function CellsAsWritten(schema: seq<ColumnSpec>, row: seq<string>): (r: seq<Entry<string>>)
    ensures Increasing(r)
    ensures forall k :: 0 <= k < |r| ==> r[k].pos <= |schema| && r[k].pos < |row| && r[k].val == row[r[k].pos]
    ensures forall i: nat :: HasKey(r, i) <==> i < |row| && KeepAsWritten(schema, i, row[i])
  {
    FilterRow(true, schema, row)
  }

  /** A header row (every cell equal to its column's label) yields no cells, so it produces no record. */
  lemma HeaderRowIsDropped(schema: seq<ColumnSpec>)
    ensures Cells(schema, Labels(schema)) == []
    ensures CellsAsWritten(schema, Labels(schema)) == []
  {
    var row := Labels(schema);
    assert forall i :: 0 <= i < |row| ==> !KeepAsWritten(schema, i, row[i]);
    var r := Cells(schema, row);
    assert forall i: nat :: !HasKey(r, i);
    assert |r| > 0 ==> HasKey(r, r[0].pos);
    var w := CellsAsWritten(schema, row);
    assert forall i: nat :: !HasKey(w, i);
    assert |w| > 0 ==> HasKey(w, w[0].pos);
  }

  // ---------------------------------------------------------------------
  // Coercion and the batch

  /** The type of the column at position p; beyond the schema the type is null, read as the empty text. */
  function TypeAt(schema: seq<ColumnSpec>, p: nat): (typ: string)
    ensures p < |schema| ==> typ == schema[p].typ
    ensures p >= |schema| ==> CastFor(typ) == ToString
  {
    if p < |schema| then schema[p].typ else ""
  }

  /** One surviving cell after the type switch. */
  function CoerceEntry(schema: seq<ColumnSpec>, e: Entry<string>, decode: string -> Option<Json>): (c: Entry<Value>)
    ensures c.pos == e.pos
  {
    Entry(e.pos, Coerce(TypeAt(schema, e.pos), e.val, decode))
  }

  /** Every surviving cell coerced by its column's type, each keeping its key. */
  function Coerced(schema: seq<ColumnSpec>, cells: seq<Entry<string>>, decode: string -> Option<Json>): (rec: Record)
    ensures |rec| == |cells|
    ensures forall k :: 0 <= k < |cells| ==> rec[k] == CoerceEntry(schema, cells[k], decode)
  {
    seq(|cells|, k requires 0 <= k < |cells| => CoerceEntry(schema, cells[k], decode))
  }

  /**
    A validated cell of an integer column becomes exactly the number it spells,
    with its sign, brought into the 64-bit range as CapToLong says.
   */
  lemma ValidatedIntegerCell(typ: string, p: Pattern, cell: string, decode: string -> Option<Json>)
    requires IsIntFamily(typ) && IsIntegerPattern(p) && Matches(p, cell)
    ensures Coerce(typ, cell, decode) ==
      IntV(CapToLong(if cell[0] == '-' then -(DigitsValue(Unsigned(cell)) as int) else DigitsValue(cell)))
  {
    IntegerPatternsAcceptNumerals(p, cell);
    IntCastOfNumeral(cell);
  }

  /** A validated cell of a bit(1) column is true for TRUE, true, True and 1, false for the other admitted words. */
  lemma ValidatedBitCell(cell: string, decode: string -> Option<Json>)
    requires Matches(BoolLike, cell)
    ensures Coerce("bit(1)", cell, decode) == BoolV(cell in {"TRUE", "true", "True", "1"})
  {
    OtherRulesOnConcreteTypes();
    BitCastOfBoolWords(cell);
  }

  /** The records of a file: lines with no surviving cell are skipped, the others are coerced, in file order. */
  function Batch(schema: seq<ColumnSpec>, rows: seq<seq<string>>, decode: string -> Option<Json>): (data: seq<Record>)
    ensures |data| <= |rows|
  {
    if rows == [] then []
    else
      var cells := Cells(schema, rows[|rows| - 1]);
      Batch(schema, rows[..|rows| - 1], decode) + (if cells == [] then [] else [Coerced(schema, cells, decode)])
  }

  /** Every record of the batch is non-empty, and its keys increase and are columns of the schema. */
  lemma {:induction false} BatchWellFormed(schema: seq<ColumnSpec>, rows: seq<seq<string>>, decode: string -> Option<Json>)
    ensures forall k :: 0 <= k < |Batch(schema, rows, decode)| ==>
      Batch(schema, rows, decode)[k] != [] && WellFormed(Batch(schema, rows, decode)[k], |schema|)
  {
    if rows != [] {
      var front := rows[..|rows| - 1];
      BatchWellFormed(schema, front, decode);
      var cells := Cells(schema, rows[|rows| - 1]);
      if cells != [] {
        var rec := Coerced(schema, cells, decode);
        assert forall k :: 0 <= k < |rec| ==> rec[k].pos == cells[k].pos;
        assert WellFormed(rec, |schema|);
        assert Batch(schema, rows, decode) == Batch(schema, front, decode) + [rec];
      } else {
        assert Batch(schema, rows, decode) == Batch(schema, front, decode);
      }
    }
  }

  /** With no columns no cell survives, so no line yields a record. */
  lemma {:induction false} EmptySchemaKeepsNothing(rows: seq<seq<string>>, decode: string -> Option<Json>)
    ensures Batch([], rows, decode) == []
  {
    if rows != [] {
      EmptySchemaKeepsNothing(rows[..|rows| - 1], decode);
      var c := Cells([], rows[|rows| - 1]);
      assert |c| > 0 ==> HasKey(c, c[0].pos);
    }
  }

  /** The positions of the lines that keep at least one cell, in increasing order. */
  function Survivors(schema: seq<ColumnSpec>, rows: seq<seq<string>>): (ix: seq<nat>)
    ensures forall k :: 0 <= k < |ix| ==> ix[k] < |rows|
    ensures forall k, l :: 0 <= k < l < |ix| ==> ix[k] < ix[l]
    ensures forall i :: 0 <= i < |rows| ==> (i in ix <==> Cells(schema, rows[i]) != [])
  {
    if rows == [] then []
    else
      var n := |rows| - 1;
      var ix := Survivors(schema, rows[..n]);
      assert forall i :: 0 <= i < n ==> rows[..n][i] == rows[i];
      if Cells(schema, rows[n]) == [] then ix else ix + [n]
  }

  /** Adding a line adds its record, and its position, exactly when it keeps a cell. */
  lemma BatchSnoc(schema: seq<ColumnSpec>, rows: seq<seq<string>>, decode: string -> Option<Json>)
    requires rows != []
    ensures var n := |rows| - 1; var cells := Cells(schema, rows[n]);
      && Batch(schema, rows, decode) == Batch(schema, rows[..n], decode) + (if cells == [] then [] else [Coerced(schema, cells, decode)])
      && Survivors(schema, rows) == Survivors(schema, rows[..n]) + (if cells == [] then [] else [n])
  {
  }

  /**
    The batch holds one record per surviving line, in file order: the k-th
    record is the coerced cells of the k-th line that kept a cell.
   */
  lemma {:induction false} BatchSelectsRows(schema: seq<ColumnSpec>, rows: seq<seq<string>>, decode: string -> Option<Json>)
    ensures |Batch(schema, rows, decode)| == |Survivors(schema, rows)|
    ensures forall k :: 0 <= k < |Survivors(schema, rows)| ==>
      Batch(schema, rows, decode)[k] == Coerced(schema, Cells(schema, rows[Survivors(schema, rows)[k]]), decode)
  {
    if rows != [] {
      var n := |rows| - 1;
      var front := rows[..n];
      BatchSelectsRows(schema, front, decode);
      var ix := Survivors(schema, front);
      var b := Batch(schema, front, decode);
      forall k | 0 <= k < |ix|
        ensures b[k] == Coerced(schema, Cells(schema, rows[ix[k]]), decode)
      {
        assert front[ix[k]] == rows[ix[k]];
      }
      BatchSnoc(schema, rows, decode);
    }
  }

  // ---------------------------------------------------------------------
  // Zipping a record with the column names

  /** The names at the positions below n that are keys of the record, in position order. */
  function Present<T>(names: seq<string>, r: seq<Entry<T>>, n: nat): (cols: seq<string>)
    requires n <= |names|
    ensures |cols| <= n
    ensures forall c :: c in cols ==> c in names
  {
    if n == 0 then []
    else Present(names, r, n - 1) + (if HasKey(r, n - 1) then [names[n - 1]] else [])
  }

  /** The column names whose position is a key of the record: the target columns of one insert. */
  function TargetCols<T>(names: seq<string>, r: seq<Entry<T>>): (cols: seq<string>)
    ensures forall c :: c in cols ==> c in names
  {
    Present(names, r, |names|)
  }

  /** The values of a record in key order. */
  function Values<T>(r: seq<Entry<T>>): (vals: seq<T>)
    ensures |vals| == |r|
    ensures forall k :: 0 <= k < |r| ==> vals[k] == r[k].val
  {
    seq(|r|, k requires 0 <= k < |r| => r[k].val)
  }

  /** Present only looks at the keys below n. */
  lemma {:induction false} PresentAgrees<T, U>(names: seq<string>, r: seq<Entry<T>>, s: seq<Entry<U>>, n: nat)
    requires n <= |names|
    requires forall i: nat :: i < n ==> (HasKey(r, i) <==> HasKey(s, i))
    ensures Present(names, r, n) == Present(names, s, n)
  {
    if n > 0 {
      PresentAgrees(names, r, s, n - 1);
    }
  }

  /** Positions without a key add no name. */
  lemma {:induction false} PresentSkipsGap<T>(names: seq<string>, r: seq<Entry<T>>, m: nat, n: nat)
    requires m <= n <= |names|
    requires forall i: nat :: m <= i < n ==> !HasKey(r, i)
    ensures Present(names, r, n) == Present(names, r, m)
  {
    if m < n {
      PresentSkipsGap(names, r, m, n - 1);
    }
  }

  /** The keys of a record with increasing keys, against those of the record without its last entry. */
  lemma DropLastKeys<T>(r: seq<Entry<T>>, s: seq<Entry<T>>)
    requires r != [] && Increasing(r) && s == r[..|r| - 1]
    ensures Increasing(s)
    ensures HasKey(r, r[|r| - 1].pos)
    ensures forall i: nat :: i < r[|r| - 1].pos ==> (HasKey(r, i) <==> HasKey(s, i))
    ensures forall i: nat :: r[|r| - 1].pos < i ==> !HasKey(r, i)
    ensures forall i: nat :: r[|r| - 1].pos <= i ==> !HasKey(s, i)
  {
    var m := |r| - 1;
    assert forall k :: 0 <= k < m ==> s[k] == r[k];
    forall i: nat | HasKey(r, i) && i != r[m].pos
      ensures i < r[m].pos && HasKey(s, i)
    {
      var k :| 0 <= k < |r| && r[k].pos == i;
      assert k < m;
      assert s[k].pos == i;
    }
    forall i: nat | HasKey(s, i)
      ensures i < r[m].pos && HasKey(r, i)
    {
      var k :| 0 <= k < |s| && s[k].pos == i;
      assert r[k].pos == i;
    }
  }

  /** For a record whose keys are columns, the target columns are the names at its keys, one per value. */
  lemma {:induction false} TargetColsOfWellFormed<T>(names: seq<string>, r: seq<Entry<T>>)
    requires WellFormed(r, |names|)
    ensures |TargetCols(names, r)| == |r|
    ensures forall k :: 0 <= k < |r| ==> TargetCols(names, r)[k] == names[r[k].pos]
  {
    if r != [] {
      var m := |r| - 1;
      var s := r[..m];
      var p := r[m].pos;
      DropLastKeys(r, s);
      assert WellFormed(s, |names|);
      TargetColsOfWellFormed(names, s);
      PresentAgrees(names, r, s, p);
      PresentSkipsGap(names, r, p + 1, |names|);
      assert Present(names, r, p + 1) == Present(names, r, p) + [names[p]];
      PresentSkipsGap(names, s, p, |names|);
      assert TargetCols(names, r) == TargetCols(names, s) + [names[p]];
    } else {
      PresentSkipsGap(names, r, 0, |names|);
    }
  }

  /** Replace the value of an existing key in place, or append a new key at the end. */
  function Put(row: RowData, key: string, v: Value): RowData
  {
    if row == [] then [(key, v)]
    else if row[0].0 == key then [(key, v)] + row[1..]
    else [row[0]] + Put(row[1..], key, v)
  }

  /** Keys and values assigned one after the other; a repeated key keeps its first place and its last value. */
  function CombineAll(keys: seq<string>, vals: seq<Value>): RowData
    requires |keys| == |vals|
  {
    if keys == [] then []
    else
      var n := |keys| - 1;
      Put(CombineAll(keys[..n], vals[..n]), keys[n], vals[n])
  }

  /** array_combine: no result when the two arrays differ in length. */
  function ArrayCombine(keys: seq<string>, vals: seq<Value>): (row: Option<RowData>)
    ensures row.Some? <==> |keys| == |vals|
  {
    if |keys| != |vals| then None else Some(CombineAll(keys, vals))
  }

  /** The i-th key and the i-th value side by side. */
  function Zip(keys: seq<string>, vals: seq<Value>): (row: RowData)
    requires |keys| == |vals|
    ensures |row| == |keys|
    ensures forall k :: 0 <= k < |keys| ==> row[k] == (keys[k], vals[k])
  {
    seq(|keys|, k requires 0 <= k < |keys| => (keys[k], vals[k]))
  }

  /** Putting a key that is not yet there appends it. */
  lemma {:induction false} PutFresh(row: RowData, key: string, v: Value)
    requires forall q :: q in row ==> q.0 != key
    ensures Put(row, key, v) == row + [(key, v)]
  {
    if row != [] {
      assert row[0] in row;
      assert forall q :: q in row[1..] ==> q in row;
      PutFresh(row[1..], key, v);
    }
  }

  /** With distinct keys, array_combine pairs the i-th key with the i-th value. */
  lemma {:induction false} CombineDistinct(keys: seq<string>, vals: seq<Value>)
    requires |keys| == |vals|
    requires forall i, j :: 0 <= i < j < |keys| ==> keys[i] != keys[j]
    ensures CombineAll(keys, vals) == Zip(keys, vals)
  {
    if keys != [] {
      var n := |keys| - 1;
      CombineDistinct(keys[..n], vals[..n]);
      var prefix := Zip(keys[..n], vals[..n]);
      forall q | q in prefix
        ensures q.0 != keys[n]
      {
        var k :| 0 <= k < |prefix| && prefix[k] == q;
      }
      PutFresh(prefix, keys[n], vals[n]);
    }
  }

  /** There are as many target columns as values, so array_combine succeeds. */
  predicate Combinable(names: seq<string>, r: Record)
  {
    |TargetCols(names, r)| == |r|
  }

  /**
    The row handed to the database for a record whose keys are columns of the
    schema: array_combine of the target columns and the values succeeds.
   */
  function RowOf(names: seq<string>, r: Record): (row: RowData)
    requires Combinable(names, r)
    ensures ArrayCombine(TargetCols(names, r), Values(r)) == Some(row)
  {
    CombineAll(TargetCols(names, r), Values(r))
  }

  /**
    With distinct column names, the row pairs the name at each surviving
    position with the value at that position, in increasing position order, and
    uses no other name.
   */
  lemma RowContents(names: seq<string>, r: Record)
    requires WellFormed(r, |names|)
    requires forall i, j :: 0 <= i < j < |names| ==> names[i] != names[j]
    ensures Combinable(names, r)
    ensures |RowOf(names, r)| == |r|
    ensures forall k :: 0 <= k < |r| ==> RowOf(names, r)[k] == (names[r[k].pos], r[k].val)
    ensures forall q :: q in RowOf(names, r) ==> q.0 in names
  {
    TargetColsOfWellFormed(names, r);
    var keys := TargetCols(names, r);
    assert forall i, j :: 0 <= i < j < |keys| ==> keys[i] != keys[j] by {
      forall i, j | 0 <= i < j < |keys|
        ensures keys[i] != keys[j]
      {
        assert r[i].pos < r[j].pos;
      }
    }
    CombineDistinct(keys, Values(r));
  }

  /**
    As written, a line with more cells than the schema has columns keeps the
    cell just past the last column, which has no name: array_combine then gets
    one more value than keys and fails.
   */
  lemma TrailingCellBreaksCombine(schema: seq<ColumnSpec>, row: seq<string>, decode: string -> Option<Json>)
    requires |row| > |schema|
    ensures ArrayCombine(TargetCols(Names(schema), Coerced(schema, CellsAsWritten(schema, row), decode)),
                         Values(Coerced(schema, CellsAsWritten(schema, row), decode))).None?
  {
    var c := CellsAsWritten(schema, row);
    var r := Coerced(schema, c, decode);
    var n := |schema|;
    assert HasKey(c, n);
    LastKeyIsMax(c, n);
    CoercedKeepsKeys(schema, c, decode);
    KeyPastNamesIsDropped(Names(schema), r);
  }

  /**
    As written, a table without a format still keeps the first cell of every
    non-empty line, since position 0 is the column count; array_combine then
    pairs no names with one value and fails.
   */
  lemma AsWrittenEmptySchemaKeepsFirstCell(row: seq<string>, decode: string -> Option<Json>)
    requires |row| > 0
    ensures CellsAsWritten([], row) == [Entry(0, row[0])]
    ensures ArrayCombine(TargetCols(Names([]), Coerced([], CellsAsWritten([], row), decode)),
                         Values(Coerced([], CellsAsWritten([], row), decode))).None?
  {
    var c := CellsAsWritten([], row);
    assert HasKey(c, 0);
    LastKeyIsMax(c, 0);
    assert c[0].pos == 0 == c[|c| - 1].pos;
    TrailingCellBreaksCombine([], row, decode);
  }

  /** When the keys increase and none exceeds n, a present key n is the last one. */
  lemma LastKeyIsMax<T>(r: seq<Entry<T>>, n: nat)
    requires Increasing(r) && HasKey(r, n)
    requires forall k :: 0 <= k < |r| ==> r[k].pos <= n
    ensures r != [] && r[|r| - 1].pos == n
  {
    var m :| 0 <= m < |r| && r[m].pos == n;
    var last := |r| - 1;
    assert forall k :: 0 <= k < last ==> r[k].pos < r[last].pos;
    assert m == last;
  }

  /** Coercion keeps the keys, so keys that increase still increase. */
  lemma CoercedKeepsKeys(schema: seq<ColumnSpec>, cells: seq<Entry<string>>, decode: string -> Option<Json>)
    requires Increasing(cells)
    ensures Increasing(Coerced(schema, cells, decode))
    ensures cells != [] ==> Coerced(schema, cells, decode)[|cells| - 1].pos == cells[|cells| - 1].pos
  {
    var r := Coerced(schema, cells, decode);
    assert forall k :: 0 <= k < |r| ==> r[k].pos == cells[k].pos;
  }

  /** A record with increasing keys whose last key is one past the last name has one target column fewer than values. */
  lemma KeyPastNamesIsDropped<T>(names: seq<string>, r: seq<Entry<T>>)
    requires r != [] && Increasing(r) && r[|r| - 1].pos == |names|
    ensures |TargetCols(names, r)| == |r| - 1
  {
    var s := r[..|r| - 1];
    DropLastKeys(r, s);
    assert WellFormed(s, |names|) by {
      forall k | 0 <= k < |s|
        ensures s[k].pos < |names|
      {
        assert s[k] == r[k];
      }
    }
    TargetColsOfWellFormed(names, s);
    PresentAgrees(names, r, s, |names|);
  }

  /** With the intended bound, every line of every table combines, whatever its length. */
  lemma CellsAlwaysCombine(schema: seq<ColumnSpec>, row: seq<string>, decode: string -> Option<Json>)
    ensures ArrayCombine(TargetCols(Names(schema), Coerced(schema, Cells(schema, row), decode)),
                         Values(Coerced(schema, Cells(schema, row), decode))).Some?
  {
    var r := Coerced(schema, Cells(schema, row), decode);
    assert WellFormed(r, |Names(schema)|);
    TargetColsOfWellFormed(Names(schema), r);
  }

  /** The inner loop of the reader: each surviving cell replaced by its coerced value under the same key. */
  method CoerceRecord(schema: seq<ColumnSpec>, line: seq<Entry<string>>, decode: string -> Option<Json>)
    returns (rec: Record)
    ensures rec == Coerced(schema, line, decode)
  {
    rec := [];
    for k := 0 to |line|
      invariant |rec| == k
      invariant forall j :: 0 <= j < k ==> rec[j] == CoerceEntry(schema, line[j], decode)
    {
      rec := rec + [CoerceEntry(schema, line[k], decode)];
    }
  }

  /** The reading loop: filter each line, skip it when nothing survives, coerce the survivors in place, append. */
  method ReadRecords(schema: seq<ColumnSpec>, rows: seq<seq<string>>, decode: string -> Option<Json>)
    returns (data: seq<Record>)
    ensures data == Batch(schema, rows, decode)
  {
    data := [];
    for n := 0 to |rows|
      invariant data == Batch(schema, rows[..n], decode)
    {
      assert rows[..n + 1][..n] == rows[..n] && rows[..n + 1][n] == rows[n];
      BatchSnoc(schema, rows[..n + 1], decode);
      var line := Cells(schema, rows[n]);
      if line == [] {
        continue;
      }
      var rec := CoerceRecord(schema, line, decode);
      data := data + [rec];
    }
    assert rows[..|rows|] == rows;
  }
}
