/**
 * The in-memory table of the scripts: named columns over a sequence of rows.
 * A cell is missing (an empty CSV field, or NaN), a text, or a number.
 */
module Tables {

  datatype Value = Missing | Str(text: string) | Num(x: real)

  type Row = map<string, Value>

  datatype Table = Table(columns: seq<string>, rows: seq<Row>)

  predicate Distinct(names: seq<string>)
  {
    forall i, j :: 0 <= i < j < |names| ==> names[i] != names[j]
  }

  /** Column names are distinct and every row has a value for exactly those names. */
  predicate WellFormed(t: Table)
  {
    && Distinct(t.columns)
    && forall r :: 0 <= r < |t.rows| ==> t.rows[r].Keys == set c | c in t.columns
  }

  /** `df[name]`: the values of one column, row by row. */
  function ColumnValues(t: Table, name: string): (col: seq<Value>)
    requires WellFormed(t) && name in t.columns
    ensures |col| == |t.rows|
    ensures forall r :: 0 <= r < |t.rows| ==> col[r] == t.rows[r][name]
  {
    seq(|t.rows|, r requires 0 <= r < |t.rows| => t.rows[r][name])
  }

  /**
   * `df.loc[:, keep]`: the table cut down to the kept columns, in the order
   * given, keeping every row, in order, with its values unchanged.
   */
  function Project(t: Table, keep: seq<string>): (p: Table)
    requires WellFormed(t) && Distinct(keep)
    requires forall c :: c in keep ==> c in t.columns
    ensures WellFormed(p)
    ensures p.columns == keep
    ensures |p.rows| == |t.rows|
    ensures forall r, c :: 0 <= r < |t.rows| && c in keep ==> c in t.rows[r] && p.rows[r][c] == t.rows[r][c]
  {
    Table(keep, seq(|t.rows|, r requires 0 <= r < |t.rows| => map c | c in keep :: t.rows[r][c]))
  }

  /**
   * `df[name] = values` for a column the table does not have yet: the new
   * column goes last and every existing value stays.
   */
  function WithColumn(t: Table, name: string, values: seq<Value>): (u: Table)
    requires WellFormed(t) && name !in t.columns && |values| == |t.rows|
    ensures WellFormed(u)
    ensures u.columns == t.columns + [name]
    ensures |u.rows| == |t.rows|
    ensures forall r :: 0 <= r < |t.rows| ==> u.rows[r][name] == values[r]
    ensures forall r, c :: 0 <= r < |t.rows| && c in t.columns ==> u.rows[r][c] == t.rows[r][c]
  {
    Table(t.columns + [name], seq(|t.rows|, r requires 0 <= r < |t.rows| => t.rows[r][name := values[r]]))
  }
}
