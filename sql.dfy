/** The part of SQLite the importers rely on, as abstract state: a table is
    its declared columns, its primary-key columns and its rows keyed by the
    primary-key value. All columns are TEXT. */
module Sql {
  import opened Base

  /** A value bound to a `?` placeholder (what Python passes to `execute`). */
  datatype Param = PText(s: string) | PInt(i: int) | PReal(r: real) | PBool(b: bool)

  /** A stored cell: a column the insert did not name holds NULL. */
  datatype Cell = NullCell | Bound(p: Param)

  type Row = map<string, Cell>

  datatype Table = Table(columns: seq<string>, key: seq<string>, rows: map<seq<Cell>, Row>)

  datatype SqlError =
    | Rejected             // SQLite refused the statement text (syntax, duplicate column, ...)
    | NoColumns            // CREATE TABLE with no column definition
    | UnknownColumn        // INSERT names a column the table does not have
    | ValueCountMismatch   // INSERT with more or fewer values than columns
    | OutOfRange           // an int parameter that does not fit SQLite's 64-bit INTEGER

  /** The smallest and largest values of SQLite's signed 64-bit INTEGER. */
  const MinInt64: int := -0x8000_0000_0000_0000
  const MaxInt64: int := 0x7FFF_FFFF_FFFF_FFFF

  /** A parameter Python's `sqlite3` can bind: an int outside the 64-bit
      range raises `OverflowError` instead. */
  predicate Bindable(p: Param)
  {
    p.PInt? ==> MinInt64 <= p.i <= MaxInt64
  }

  /** The first position of `x` in `s`. */
  function IndexOf(s: seq<string>, x: string): (i: nat)
    requires x in s
    ensures i < |s| && s[i] == x
    ensures forall j :: 0 <= j < i ==> s[j] != x
  {
    if s[0] == x then 0 else 1 + IndexOf(s[1..], x)
  }

  /** The row an `INSERT (cols) VALUES (vals)` stores in a table with `columns`. */
  function RowFor(columns: seq<string>, cols: seq<string>, vals: seq<Param>): (row: Row)
    requires |cols| == |vals|
    ensures forall c :: c in row <==> c in columns
  {
    map c | c in columns :: if c in cols then Bound(vals[IndexOf(cols, c)]) else NullCell
  }

  /** The primary-key value of a row. */
  function KeyOf(key: seq<string>, row: Row): (k: seq<Cell>)
    ensures |k| == |key|
  {
    seq(|key|, i requires 0 <= i < |key| => if key[i] in row then row[key[i]] else NullCell)
  }

  /** `INSERT OR IGNORE`: a row whose key is already present is dropped
      silently, so the first write of a key wins. */
  function InsertOrIgnore(t: Table, cols: seq<string>, vals: seq<Param>): (r: Result<Table, SqlError>)
    ensures r.Success? <==> && |cols| == |vals| && (forall c :: c in cols ==> c in t.columns)
                            && (forall p :: p in vals ==> Bindable(p))
    ensures r.Success? ==> r.value.columns == t.columns && r.value.key == t.key
    ensures r.Success? ==>
              var row := RowFor(t.columns, cols, vals);
              var k := KeyOf(t.key, row);
              && r.value.rows.Keys == t.rows.Keys + {k}
              && (forall old_k :: old_k in t.rows ==> r.value.rows[old_k] == t.rows[old_k])
              && (k !in t.rows ==> r.value.rows[k] == row)
  {
    if |cols| != |vals| then Failure(ValueCountMismatch)
    else if exists c :: c in cols && c !in t.columns then Failure(UnknownColumn)
    else if exists p :: p in vals && !Bindable(p) then Failure(OutOfRange)
    else
      var row := RowFor(t.columns, cols, vals);
      var k := KeyOf(t.key, row);
      if k in t.rows then Success(t) else Success(t.(rows := t.rows[k := row]))
  }

  /** Inserting the same row again changes nothing. */
  lemma InsertOrIgnoreIdempotent(t: Table, cols: seq<string>, vals: seq<Param>)
    requires InsertOrIgnore(t, cols, vals).Success?
    ensures var t' := InsertOrIgnore(t, cols, vals).value;
            InsertOrIgnore(t', cols, vals) == Success(t')
  {
    var t' := InsertOrIgnore(t, cols, vals).value;
    var row := RowFor(t.columns, cols, vals);
    assert KeyOf(t'.key, RowFor(t'.columns, cols, vals)) in t'.rows;
  }
}
