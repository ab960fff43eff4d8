/**
 * The table value every pipeline stage passes on: named, typed columns and
 * rows of cells.  A column's Kind stands for the dtype pandas gives it.
 */
module Tables {
  import opened TextOps

  /** One cell: NaN/NaT, a number, a string, or a timestamp (an instant count). */
  datatype Cell = Missing | Num(value: real) | Text(text: string) | Time(stamp: int)

  /** numeric dtype, object dtype, datetime64 dtype */
  datatype Kind = Numeric | Textual | Temporal

  datatype Column = Column(name: string, kind: Kind)

  type Row = seq<Cell>

  datatype Table = Table(columns: seq<Column>, rows: seq<Row>)

  /** What a column of the given dtype can hold. */
  predicate Conforms(k: Kind, c: Cell)
  {
    match k
    case Numeric => c.Missing? || c.Num?
    case Temporal => c.Missing? || c.Time?
    case Textual => true
  }

  /** A row has one cell per column, each fitting its column's dtype. */
  predicate RowFits(columns: seq<Column>, row: Row)
  {
    |row| == |columns| && forall j :: 0 <= j < |row| ==> Conforms(columns[j].kind, row[j])
  }

  predicate DistinctNames(columns: seq<Column>)
  {
    forall j, k :: 0 <= j < k < |columns| ==> columns[j].name != columns[k].name
  }

  /**
   * What a DataFrame produced by read_csv or read_json satisfies: it is
   * rectangular, its cells fit their dtypes, and its column labels are unique
   * (read_csv renames repeated headers).
   */
  predicate WellFormed(t: Table)
  {
    && (forall i :: 0 <= i < |t.rows| ==> RowFits(t.columns, t.rows[i]))
    && DistinctNames(t.columns)
  }

  type Frame = t: Table | WellFormed(t) witness Table([], [])

  /** `"time" in col.lower() or "date" in col.lower()` */
  predicate IsTimeName(name: string)
  {
    Contains(Lower(name), "time") || Contains(Lower(name), "date")
  }

  /** The name test ignores case: a name and its lower-cased form agree. */
  lemma IsTimeNameIgnoresCase(name: string)
    ensures IsTimeName(Lower(name)) == IsTimeName(name)
  {
    LowerIdempotent(name);
  }

  /** The cells of column j, top to bottom. */
  function ColumnCells(t: Frame, j: nat): (cells: seq<Cell>)
    requires j < |t.columns|
    ensures |cells| == |t.rows|
    ensures forall i :: 0 <= i < |t.rows| ==> cells[i] == t.rows[i][j]
  {
    seq(|t.rows|, i requires 0 <= i < |t.rows| => t.rows[i][j])
  }

  /** Every cell of a column fits the column's dtype. */
  lemma ColumnConforms(t: Frame, j: nat)
    requires j < |t.columns|
    ensures forall i :: 0 <= i < |t.rows| ==> Conforms(t.columns[j].kind, ColumnCells(t, j)[i])
  {
    forall i | 0 <= i < |t.rows| ensures Conforms(t.columns[j].kind, ColumnCells(t, j)[i]) {
      assert RowFits(t.columns, t.rows[i]);
    }
  }
}
