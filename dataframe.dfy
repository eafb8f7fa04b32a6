/**
 * The DataFrame table container: an ordered sequence of columns, each with a
 * header, a kind and a buffer of values. Headers need not be unique, and the
 * columns need not all have the same length; the frame's row count is the
 * length of its longest column.
 */
module DataFrames {
  import opened Wrappers
  import opened Text
  import opened Interning

  /** Plain numeric columns, categorical columns (codes into a category table) and the index column. */
  datatype ColumnKind = Numeric | Categorical | Index

  /**
   * One column. `values` is the column's buffer; for a categorical column it
   * holds codes into `categories`.
   */
  datatype Column = Column(header: string, kind: ColumnKind, values: seq<int>, categories: seq<string>)

  /** The three exceptions the frame throws, and a position past the last column. */
  datatype DataFrameError = NoColumns | InvalidColCount | DataTypeMismatch | IndexOutOfRange

  /** The number of rows of the largest column, or zero when there are no columns. */
  function RowCount(cols: seq<Column>): (n: nat)
    ensures forall i :: 0 <= i < |cols| ==> |cols[i].values| <= n
    ensures cols == [] ==> n == 0
    ensures cols != [] ==> exists i :: 0 <= i < |cols| && |cols[i].values| == n
  {
    if cols == [] then 0
    else
      var m := RowCount(cols[..|cols| - 1]);
      var last := |cols[|cols| - 1].values|;
      if last > m then last else m
  }

  /** Appending a column raises the row count to that column's length if it is longer. */
  lemma RowCountAppend(cols: seq<Column>, c: Column)
    ensures RowCount(cols + [c]) == if |c.values| > RowCount(cols) then |c.values| else RowCount(cols)
  {
    assert (cols + [c])[..|cols|] == cols;
  }

  /** Every column holds exactly `n` values. */
  predicate AllOfLength(cols: seq<Column>, n: nat) {
    forall i :: 0 <= i < |cols| ==> |cols[i].values| == n
  }

  /** The columns whose header differs from `header`, in their original order. */
  function WithoutHeader(cols: seq<Column>, header: string): (r: seq<Column>)
    ensures |r| <= |cols|
    ensures forall i :: 0 <= i < |r| ==> r[i].header != header
  {
    if cols == [] then []
    else
      WithoutHeader(cols[..|cols| - 1], header)
        + (if cols[|cols| - 1].header == header then [] else [cols[|cols| - 1]])
  }

  /**
   * Dropping by header keeps exactly the columns with another header, and is
   * a no-op when no column has the header.
   */
  lemma {:induction false} WithoutHeaderMembers(cols: seq<Column>, header: string)
    ensures forall c :: c in WithoutHeader(cols, header) <==> c in cols && c.header != header
    ensures (forall i :: 0 <= i < |cols| ==> cols[i].header != header) ==> WithoutHeader(cols, header) == cols
    decreases |cols|
  {
    if cols != [] {
      var front, last := cols[..|cols| - 1], cols[|cols| - 1];
      assert cols == front + [last];
      WithoutHeaderMembers(front, header);
    }
  }

  /** Dropping from one more column keeps that column exactly when its header differs. */
  lemma WithoutHeaderStep(cols: seq<Column>, header: string, i: nat)
    requires i < |cols|
    ensures WithoutHeader(cols[..i + 1], header)
            == WithoutHeader(cols[..i], header) + (if cols[i].header == header then [] else [cols[i]])
  {
    assert cols[..i + 1][..i] == cols[..i];
  }

  lemma {:induction false} WithoutHeaderPrefix(cols: seq<Column>, header: string, k: nat)
    requires k <= |cols|
    ensures WithoutHeader(cols[..k], header) <= WithoutHeader(cols, header)
    decreases |cols|
  {
    if k < |cols| {
      var front := cols[..|cols| - 1];
      assert front[..k] == cols[..k];
      WithoutHeaderPrefix(front, header, k);
    } else {
      assert cols[..k] == cols;
    }
  }

  /**
   * Dropping by header keeps the surviving columns in their original order:
   * two kept columns at positions i < j land at positions p < q.
   */
  lemma {:induction false} WithoutHeaderKeepsOrder(cols: seq<Column>, header: string, i: nat, j: nat)
    requires i < j < |cols|
    requires cols[i].header != header && cols[j].header != header
    ensures var r := WithoutHeader(cols, header);
            var p, q := |WithoutHeader(cols[..i], header)|, |WithoutHeader(cols[..j], header)|;
            p < q < |r| && r[p] == cols[i] && r[q] == cols[j]
  {
    KeptColumnPosition(cols, header, i);
    KeptColumnPosition(cols, header, j);
    KeptCountGrows(cols, header, i + 1, j);
  }

  /** Dropping from a longer prefix keeps at least as many columns. */
  lemma {:induction false} KeptCountGrows(cols: seq<Column>, header: string, a: nat, b: nat)
    requires a <= b <= |cols|
    ensures |WithoutHeader(cols[..a], header)| <= |WithoutHeader(cols[..b], header)|
  {
    assert cols[..b][..a] == cols[..a];
    WithoutHeaderPrefix(cols[..b], header, a);
  }

  lemma {:induction false} KeptColumnPosition(cols: seq<Column>, header: string, i: nat)
    requires i < |cols| && cols[i].header != header
    ensures WithoutHeader(cols[..i + 1], header) == WithoutHeader(cols[..i], header) + [cols[i]]
    ensures var p := |WithoutHeader(cols[..i], header)|;
            p < |WithoutHeader(cols, header)| && WithoutHeader(cols, header)[p] == cols[i]
  {
    assert cols[..i + 1][..i] == cols[..i];
    WithoutHeaderPrefix(cols, header, i + 1);
  }

  /** The position of the first column whose header is `name`, if any. */
  function FirstWithHeader(cols: seq<Column>, name: string): (r: Option<nat>)
    ensures r.None? <==> forall i :: 0 <= i < |cols| ==> cols[i].header != name
    ensures r.Some? ==> r.value < |cols| && cols[r.value].header == name
    ensures r.Some? ==> forall j :: 0 <= j < r.value ==> cols[j].header != name
  {
    if cols == [] then None
    else if cols[0].header == name then Some(0)
    else match FirstWithHeader(cols[1..], name)
      case None => None
      case Some(i) => Some(i + 1)
  }

  /** Whether a cell can be read into a column of the given kind. */
  predicate CellFits(kind: ColumnKind, cell: string) {
    match kind
    case Numeric => IsIntLiteral(cell)
    case Index => ParseInt(cell).Some? && ParseInt(cell).value >= 0
    case Categorical => true
  }

  /**
   * Appends one cell, read from its text, to a column. A categorical column
   * interns the text in its category table and stores the category's code.
   */
  function AppendCell(col: Column, cell: string): (r: Result<Column, DataFrameError>)
    ensures r.Ok? <==> CellFits(col.kind, cell)
    ensures r.Err? ==> r.error == DataTypeMismatch
    ensures r.Ok? ==> r.value.header == col.header && r.value.kind == col.kind
    ensures r.Ok? ==> |r.value.values| == |col.values| + 1 && r.value.values[..|col.values|] == col.values
    ensures r.Ok? && col.kind != Categorical ==>
              r.value.categories == col.categories && r.value.values[|col.values|] == ParseInt(cell).value
    ensures r.Ok? && col.kind == Categorical ==>
              var code := r.value.values[|col.values|];
              r.value.categories == Intern(col.categories, cell).0 && code == Intern(col.categories, cell).1
              && 0 <= code < |r.value.categories| && r.value.categories[code] == cell
  {
    match col.kind
    case Categorical =>
      var (cats, code) := Intern(col.categories, cell);
      Ok(col.(values := col.values + [code], categories := cats))
    case Numeric =>
      (match ParseInt(cell)
       case Some(v) => Ok(col.(values := col.values + [v]))
       case None => Err(DataTypeMismatch))
    case Index =>
      (match ParseInt(cell)
       case Some(v) => if v >= 0 then Ok(col.(values := col.values + [v])) else Err(DataTypeMismatch)
       case None => Err(DataTypeMismatch))
  }

  /** Appends `data[i]` to column `i` for every column, or fails if any cell does not fit. */
  function AppendRow(cols: seq<Column>, data: seq<string>): (r: Result<seq<Column>, DataFrameError>)
    requires |cols| == |data|
    ensures r.Ok? <==> forall i :: 0 <= i < |cols| ==> AppendCell(cols[i], data[i]).Ok?
    ensures r.Err? ==> r.error == DataTypeMismatch
    ensures r.Ok? ==> |r.value| == |cols|
    ensures r.Ok? ==> forall i :: 0 <= i < |cols| ==> r.value[i] == AppendCell(cols[i], data[i]).value
  {
    if cols == [] then Ok([])
    else
      var n := |cols| - 1;
      assert forall i :: 0 <= i < n ==> cols[..n][i] == cols[i] && data[..n][i] == data[i];
      match AppendRow(cols[..n], data[..n])
      case Err(e) => Err(e)
      case Ok(front) =>
        match AppendCell(cols[n], data[n])
        case Err(e) => Err(e)
        case Ok(c) =>
          assert forall i :: 0 <= i < n ==> (front + [c])[i] == front[i];
          Ok(front + [c])
  }

  /** The outcome of adding a row of cells to a frame with columns `cols`. */
  function AddRowResult(cols: seq<Column>, data: seq<string>): (r: Result<seq<Column>, DataFrameError>)
    ensures r == Err(NoColumns) <==> cols == []
    ensures r == Err(InvalidColCount) <==> cols != [] && |data| != |cols|
    ensures r == Err(DataTypeMismatch) <==>
              cols != [] && |data| == |cols| && exists i :: 0 <= i < |cols| && !CellFits(cols[i].kind, data[i])
    ensures r.Ok? ==> |r.value| == |cols|
  {
    if cols == [] then Err(NoColumns)
    else if |data| != |cols| then Err(InvalidColCount)
    else AppendRow(cols, data)
  }

  /**
   * Adding a row to a frame whose columns all hold `n` values leaves every
   * column with `n + 1` values, headers and kinds unchanged.
   */
  lemma AddRowKeepsFrameConsistent(cols: seq<Column>, data: seq<string>, n: nat)
    requires AllOfLength(cols, n)
    requires AddRowResult(cols, data).Ok?
    ensures var next := AddRowResult(cols, data).value;
            AllOfLength(next, n + 1) && RowCount(next) == n + 1
            && forall i :: 0 <= i < |cols| ==> next[i].header == cols[i].header && next[i].kind == cols[i].kind
  {
    var next := AddRowResult(cols, data).value;
    assert next[0].values == AppendCell(cols[0], data[0]).value.values;
  }

  /** "Column 1", "Column 2", ...: the header of the column at position `j` when none are given. */
  function DefaultHeader(j: nat): string {
    "Column " + NatToString(j + 1)
  }

  /** Every example cell of column `j` (in rows wide enough to have one) reads as an integer. */
  predicate ColumnIsInteger(exampleRows: seq<seq<string>>, j: nat) {
    forall k :: 0 <= k < |exampleRows| && j < |exampleRows[k]| ==> IsIntLiteral(exampleRows[k][j])
  }

  /** The number of columns the example rows give: the width of the first row, or 0 without rows. */
  function ExampleWidth(exampleRows: seq<seq<string>>): nat {
    if exampleRows == [] then 0 else |exampleRows[0]|
  }

  /**
   * The columns createDataFrame makes: one per cell of the first example row,
   * named by `colHeaders` or by default headers, numeric when every example
   * cell reads as an integer and categorical otherwise, all of them empty.
   */
  function CreateColumns(exampleRows: seq<seq<string>>, colHeaders: seq<string>): (r: Result<seq<Column>, DataFrameError>)
    ensures r.Err? <==> colHeaders != [] && |colHeaders| != ExampleWidth(exampleRows)
    ensures r.Err? ==> r.error == InvalidColCount
    ensures r.Ok? ==> |r.value| == ExampleWidth(exampleRows)
    ensures r.Ok? ==> forall j :: 0 <= j < |r.value| ==>
              r.value[j].values == [] && r.value[j].categories == []
              && r.value[j].header == (if colHeaders == [] then DefaultHeader(j) else colHeaders[j])
              && (r.value[j].kind == Numeric <==> ColumnIsInteger(exampleRows, j))
              && r.value[j].kind != Index
  {
    var n := ExampleWidth(exampleRows);
    if colHeaders != [] && |colHeaders| != n then Err(InvalidColCount)
    else
      Ok(seq(n, j requires 0 <= j < n =>
        Column(if colHeaders == [] then DefaultHeader(j) else colHeaders[j],
               if ColumnIsInteger(exampleRows, j) then Numeric else Categorical, [], [])))
  }

  /** Without given headers, "Column k" finds exactly the k-th column. */
  lemma DefaultHeadersFindTheirColumn(exampleRows: seq<seq<string>>, j: nat)
    requires CreateColumns(exampleRows, []).Ok?
    requires j < |CreateColumns(exampleRows, []).value|
    ensures FirstWithHeader(CreateColumns(exampleRows, []).value, DefaultHeader(j)) == Some(j)
  {
    var cols := CreateColumns(exampleRows, []).value;
    var name := DefaultHeader(j);
    assert cols[j].header == name;
    var k := FirstWithHeader(cols, name).value;
    if k != j {
      assert cols[k].header == DefaultHeader(k);
      DefaultHeaderInjective(k, j);
      assert false;
    }
  }

  lemma DefaultHeaderInjective(a: nat, b: nat)
    requires a != b
    ensures DefaultHeader(a) != DefaultHeader(b)
  {
    assert DefaultHeader(a)[7..] == NatToString(a + 1);
    assert DefaultHeader(b)[7..] == NatToString(b + 1);
    NatToStringInjective(a + 1, b + 1);
  }

  /** Every example row of the full width can then be added to the new frame. */
  lemma ExampleRowsFitCreatedColumns(exampleRows: seq<seq<string>>, colHeaders: seq<string>, k: nat)
    requires CreateColumns(exampleRows, colHeaders).Ok?
    requires k < |exampleRows| && |exampleRows[k]| == |exampleRows[0]| > 0
    ensures AddRowResult(CreateColumns(exampleRows, colHeaders).value, exampleRows[k]).Ok?
  {
    var cols := CreateColumns(exampleRows, colHeaders).value;
    forall i | 0 <= i < |cols| ensures CellFits(cols[i].kind, exampleRows[k][i]) {
      if cols[i].kind == Numeric {
        assert ColumnIsInteger(exampleRows, i);
      }
    }
  }

  /** An example row of another width than the first cannot be added to the guessed columns. */
  lemma RaggedExampleRowRejected(exampleRows: seq<seq<string>>, colHeaders: seq<string>, k: nat)
    requires CreateColumns(exampleRows, colHeaders).Ok?
    requires k < |exampleRows| && |exampleRows[0]| > 0 && |exampleRows[k]| != |exampleRows[0]|
    ensures AddRowResult(CreateColumns(exampleRows, colHeaders).value, exampleRows[k]) == Err(InvalidColCount)
  {
  }

  /** A table of columns, updated in place by its mutators. */
  class DataFrame {
    var columns: seq<Column>

    constructor ()
      ensures columns == []
    {
      columns := [];
    }

    function NumberOfColumns(): nat
      reads this
    {
      |columns|
    }

    function NumberOfRows(): nat
      reads this
    {
      RowCount(columns)
    }

    /** The column at `index`. */
    function GetColumnAt(index: nat): Column
      reads this
      requires index < |columns|
    {
      columns[index]
    }

    /** The first column whose header is `name`, or None (a null pointer) when none matches. */
    function GetColumnByName(name: string): (r: Option<Column>)
      reads this
      ensures r.None? <==> forall i :: 0 <= i < |columns| ==> columns[i].header != name
      ensures r.Some? ==> exists i :: 0 <= i < |columns| && columns[i] == r.value && r.value.header == name
                                     && forall j :: 0 <= j < i ==> columns[j].header != name
    {
      match FirstWithHeader(columns, name)
      case None => None
      case Some(i) => Some(columns[i])
    }

    /** Appends an existing column. */
    method AddExistingColumn(col: Column)
      modifies this
      ensures columns == old(columns) + [col]
      ensures NumberOfRows() == if |col.values| > old(NumberOfRows()) then |col.values| else old(NumberOfRows())
    {
      RowCountAppend(columns, col);
      columns := columns + [col];
    }

    /** Appends a new numeric column of `size` value-initialised (zero) entries. */
    method AddColumn(header: string, size: nat) returns (col: Column)
      modifies this
      ensures col.header == header && col.kind == Numeric && col.categories == []
      ensures |col.values| == size && forall i :: 0 <= i < size ==> col.values[i] == 0
      ensures columns == old(columns) + [col]
    {
      col := Column(header, Numeric, seq(size, _ => 0), []);
      columns := columns + [col];
    }

    /** Appends a new numeric column holding `data`. */
    method AddColumnWithData(header: string, data: seq<int>) returns (col: Column)
      modifies this
      ensures col.header == header && col.kind == Numeric && col.values == data && col.categories == []
      ensures columns == old(columns) + [col]
    {
      col := Column(header, Numeric, data, []);
      columns := columns + [col];
    }

    /** Drops every column whose header is `header`; does nothing if none has it. */
    method DropColumn(header: string)
      modifies this
      ensures columns == WithoutHeader(old(columns), header)
    {
      var cols := columns;
      var kept: seq<Column> := [];
      var i := 0;
      while i < |cols|
        invariant 0 <= i <= |cols|
        invariant kept == WithoutHeader(cols[..i], header)
      {
        WithoutHeaderStep(cols, header, i);
        if cols[i].header != header {
          kept := kept + [cols[i]];
        }
        i := i + 1;
      }
      assert cols[..i] == cols;
      columns := kept;
    }

    /** Drops the column at `index`; a position past the last column is an error. */
    method DropColumnAt(index: nat) returns (r: Outcome<DataFrameError>)
      modifies this
      ensures r.Pass? <==> index < |old(columns)|
      ensures r.Fail? ==> r.error == IndexOutOfRange && columns == old(columns)
      ensures r.Pass? ==> columns == old(columns)[..index] + old(columns)[index + 1..]
    {
      if index >= |columns| {
        return Fail(IndexOutOfRange);
      }
      columns := columns[..index] + columns[index + 1..];
      return Pass;
    }

    /**
     * Appends one row, one cell per column. Fails with NoColumns on a frame
     * without columns, with InvalidColCount when the number of cells differs
     * from the number of columns, and with DataTypeMismatch when a cell cannot
     * be read into its column; on failure no column is changed.
     */
    method AddRow(data: seq<string>) returns (r: Outcome<DataFrameError>)
      modifies this
      ensures r.Pass? <==> AddRowResult(old(columns), data).Ok?
      ensures r.Fail? ==> r.error == AddRowResult(old(columns), data).error && columns == old(columns)
      ensures r.Pass? ==> columns == AddRowResult(old(columns), data).value
    {
      if |columns| == 0 {
        return Fail(NoColumns);
      }
      if |data| != |columns| {
        return Fail(InvalidColCount);
      }
      var next: seq<Column> := [];
      var i := 0;
      while i < |columns|
        invariant 0 <= i <= |columns|
        invariant AppendRow(columns[..i], data[..i]) == Ok(next)
      {
        var cell := AppendCell(columns[i], data[i]);
        if cell.Err? {
          return Fail(cell.error);
        }
        assert columns[..i + 1][..i] == columns[..i] && data[..i + 1][..i] == data[..i];
        next := next + [cell.value];
        i := i + 1;
      }
      assert columns[..i] == columns && data[..i] == data;
      columns := next;
      return Pass;
    }
  }

  /** createDataFrame: a new frame with the columns guessed from the example rows. */
  method CreateDataFrame(exampleRows: seq<seq<string>>, colHeaders: seq<string>)
    returns (r: Result<DataFrame, DataFrameError>)
    ensures r.Err? <==> CreateColumns(exampleRows, colHeaders).Err?
    ensures r.Err? ==> r.error == InvalidColCount
    ensures r.Ok? ==> fresh(r.value) && r.value.columns == CreateColumns(exampleRows, colHeaders).value
  {
    var cols := CreateColumns(exampleRows, colHeaders);
    if cols.Err? {
      return Err(cols.error);
    }
    var df := new DataFrame();
    df.columns := cols.value;
    return Ok(df);
  }
}
