/**
 * datatable_to_id: read a delimited data table in chunks of rows, keep the
 * rows a selection accepts, and write their id cells, one per line.
 *
 * The selection text is rewritten by `SelectionText.InsertFrame` (with the
 * frame name "chunk") and its columns are found by
 * `SelectionText.ColumnsFromSelection`; the condition pandas evaluates is
 * taken here as a parsed `Pred`.
 */
module DatatableToId {
  import opened Wrappers
  import opened Tables
  import opened SelectionText
  import Text

  /** Rows per chunk of `pd.read_table(..., chunksize=100000)`. */
  const ChunkSize: nat := 100000

  /** `[id_column] + columns_from_selection(selection)`: the columns read from the table. */
  function UsedColumns(idColumn: string, selection: string): (cols: seq<string>)
    ensures |cols| >= 1 && cols[0] == idColumn
    ensures forall x :: x in cols <==> x == idColumn || x in ColumnsFromSelection(selection)
  {
    [idColumn] + ColumnsFromSelection(selection)
  }

  /** The rows all carry the id column. */
  predicate HaveId(rows: seq<Row>, idColumn: string) {
    forall k :: 0 <= k < |rows| ==> idColumn in rows[k]
  }

  /**
   * The id cells of the rows whose restriction to `cols` satisfies the
   * condition, in row order: what `chunk.loc[mask, [id_column]]` holds,
   * chunk after chunk.
   */
  function MaskedIds(rows: seq<Row>, p: Pred, idColumn: string, cols: set<string>): (ids: seq<Value>)
    requires HaveId(rows, idColumn)
    ensures |ids| <= |rows|
    decreases |rows|
  {
    if rows == [] then []
    else
      (if Accepts(p, rows[0], cols) then [rows[0][idColumn]] else [])
      + MaskedIds(rows[1..], p, idColumn, cols)
  }

  lemma {:induction false} MaskedIdsAppend(a: seq<Row>, b: seq<Row>, p: Pred, idColumn: string, cols: set<string>)
    requires HaveId(a, idColumn) && HaveId(b, idColumn)
    ensures HaveId(a + b, idColumn)
    ensures MaskedIds(a + b, p, idColumn, cols) == MaskedIds(a, p, idColumn, cols) + MaskedIds(b, p, idColumn, cols)
    decreases |a|
  {
    HaveIdAppend(a, b, idColumn);
    if a == [] {
      assert a + b == b;
    } else {
      var ab := a + b;
      assert ab[0] == a[0];
      assert ab[1..] == a[1..] + b;
      var head := if Accepts(p, a[0], cols) then [a[0][idColumn]] else [];
      MaskedIdsAppend(a[1..], b, p, idColumn, cols);
      var x, y := MaskedIds(a[1..], p, idColumn, cols), MaskedIds(b, p, idColumn, cols);
      assert MaskedIds(ab, p, idColumn, cols) == head + (x + y);
      Text.AppendAssoc(head, x, y);
    }
  }

  lemma HaveIdAppend(a: seq<Row>, b: seq<Row>, idColumn: string)
    requires HaveId(a, idColumn) && HaveId(b, idColumn)
    ensures HaveId(a + b, idColumn)
  {
    forall k | 0 <= k < |a + b| ensures idColumn in (a + b)[k] {
      if k >= |a| {
        assert (a + b)[k] == b[k - |a|];
      }
    }
  }

  /** A cell is written iff some row carrying it as its id satisfies the condition. */
  lemma {:induction false} MaskedIdsMember(rows: seq<Row>, p: Pred, idColumn: string, cols: set<string>, v: Value)
    requires HaveId(rows, idColumn)
    ensures v in MaskedIds(rows, p, idColumn, cols) <==>
      exists k :: 0 <= k < |rows| && rows[k][idColumn] == v && Accepts(p, rows[k], cols)
    decreases |rows|
  {
    if rows != [] {
      MaskedIdsMember(rows[1..], p, idColumn, cols, v);
      if exists k :: 0 <= k < |rows[1..]| && rows[1..][k][idColumn] == v && Accepts(p, rows[1..][k], cols) {
        var k :| 0 <= k < |rows[1..]| && rows[1..][k][idColumn] == v && Accepts(p, rows[1..][k], cols);
        assert rows[k + 1] == rows[1..][k];
      }
      if exists k :: 0 <= k < |rows| && rows[k][idColumn] == v && Accepts(p, rows[k], cols) {
        var k :| 0 <= k < |rows| && rows[k][idColumn] == v && Accepts(p, rows[k], cols);
        if k > 0 {
          assert rows[1..][k - 1] == rows[k];
        }
      }
    }
  }

  /**
   * When the condition reads only columns that were loaded, evaluating it
   * on the loaded columns is evaluating it on the whole row.
   */
  lemma {:induction false} MaskedIdsLoadedColumns(rows: seq<Row>, p: Pred, idColumn: string, cols: set<string>, all: set<string>)
    requires HaveId(rows, idColumn)
    requires Columns(p) <= cols && Columns(p) <= all
    ensures MaskedIds(rows, p, idColumn, cols) == MaskedIds(rows, p, idColumn, all)
    decreases |rows|
  {
    if rows != [] {
      RestrictKeepsHolds(p, rows[0], cols);
      RestrictKeepsHolds(p, rows[0], all);
      MaskedIdsLoadedColumns(rows[1..], p, idColumn, cols, all);
    }
  }

  /** The rows of one chunk: `mask = pd.eval(...)` and `chunk.loc[mask, [id_column]]`. */
  method WriteChunk(chunk: seq<Row>, p: Pred, idColumn: string, cols: set<string>) returns (ids: seq<Value>)
    requires HaveId(chunk, idColumn)
    ensures ids == MaskedIds(chunk, p, idColumn, cols)
  {
    ids := [];
    var i := 0;
    while i < |chunk|
      invariant 0 <= i <= |chunk|
      invariant ids == MaskedIds(chunk[..i], p, idColumn, cols)
    {
      var row := chunk[i];
      assert chunk[..i + 1] == chunk[..i] + [row];
      MaskedIdsAppend(chunk[..i], [row], p, idColumn, cols);
      assert [row][1..] == [];
      if Holds(p, Restrict(row, cols)) {
        ids := ids + [row[idColumn]];
      }
      i := i + 1;
    }
    assert chunk[..i] == chunk;
  }

  /**
   * `read_and_write`: fails as `read_table(usecols=...)` does when a used
   * column is not in the header; otherwise reads the used columns chunk by
   * chunk and writes the id cell of every accepted row.
   */
  method ReadAndWrite(t: Table, selection: string, idColumn: string, p: Pred) returns (r: Result<seq<Value>>)
    requires Rectangular(t)
    ensures r.Failure? <==> MissingColumn(t, UsedColumns(idColumn, selection))
    ensures r.Failure? ==> r.error == UsecolsError
    ensures r.Success? ==> HaveId(t.rows, idColumn)
    ensures r.Success? ==> r.value == MaskedIds(t.rows, p, idColumn, set c | c in UsedColumns(idColumn, selection))
  {
    var columns := UsedColumns(idColumn, selection);
    if MissingColumn(t, columns) {
      return Failure(UsecolsError);
    }
    assert idColumn in t.header by {
      assert idColumn in columns;
    }
    HeaderHaveId(t, idColumn);
    var written := WriteChunks(t.rows, p, idColumn, set c | c in columns);
    return Success(written);
  }

  /** A rectangular table whose header has the id column has it in every row. */
  lemma HeaderHaveId(t: Table, idColumn: string)
    requires Rectangular(t) && idColumn in t.header
    ensures HaveId(t.rows, idColumn)
  {
    forall k | 0 <= k < |t.rows| ensures idColumn in t.rows[k] {
      assert idColumn in t.rows[k].Keys;
    }
  }

  /** The loop over the chunks of `ChunkSize` rows, writing each chunk's ids in turn. */
  method WriteChunks(rows: seq<Row>, p: Pred, idColumn: string, cols: set<string>) returns (written: seq<Value>)
    requires HaveId(rows, idColumn)
    ensures written == MaskedIds(rows, p, idColumn, cols)
  {
    written := [];
    var start := 0;
    while start < |rows|
      invariant 0 <= start <= |rows|
      invariant written == MaskedIds(rows[..start], p, idColumn, cols)
      decreases |rows| - start
    {
      var stop := if start + ChunkSize <= |rows| then start + ChunkSize else |rows|;
      var chunk := rows[start..stop];
      var ids := WriteChunk(chunk, p, idColumn, cols);
      assert rows[..stop] == rows[..start] + chunk;
      MaskedIdsAppend(rows[..start], chunk, p, idColumn, cols);
      written := written + ids;
      start := stop;
    }
    assert rows[..start] == rows;
  }

  /** Both halves of a table are written one after the other: chunking does not change the output. */
  lemma TableSplit(rows: seq<Row>, n: nat, p: Pred, idColumn: string, cols: set<string>)
    requires HaveId(rows, idColumn) && n <= |rows|
    ensures MaskedIds(rows, p, idColumn, cols) == MaskedIds(rows[..n], p, idColumn, cols) + MaskedIds(rows[n..], p, idColumn, cols)
  {
    assert rows == rows[..n] + rows[n..];
    MaskedIdsAppend(rows[..n], rows[n..], p, idColumn, cols);
  }
}
