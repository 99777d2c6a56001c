/** The older importer of the root `chatgpt_tool.py`: every data file goes
    into its own table `data_<i>`, keyed by the file's `id` field, on one
    connection that commits once at the end. */
module Legacy {
  import opened Base
  import opened Json
  import opened Text
  import opened Sql
  import opened Statements
  import Importer

  /** What happened to one file. */
  datatype Report =
    | SkippedEmpty             // the parsed data is falsy
    | SkippedNoId              // no key of the shape object is `id` in any case
    | SkippedMismatch          // the single-object column count check
    | Imported(table: string)
    | Raised                   // an exception left the loop

  /** Python's `sqlite3` connection: what is committed, what the connection
      itself sees, and whether an implicit transaction is open. A DML
      statement opens the transaction; a CREATE outside one takes effect
      at once. */
  datatype Conn = Conn(committed: map<string, Table>, work: map<string, Table>, inTxn: bool)

  /** `f"data_{i}"`. */
  function FileTableName(i: nat): (name: string)
    ensures |name| > 5 && name[..5] == "data_"
  {
    "data_" + NatToString(i)
  }

  /** Different files never share a table. */
  lemma FileTableNamesDistinct(i: nat, j: nat)
    requires i != j
    ensures FileTableName(i) != FileTableName(j)
  {
    if FileTableName(i) == FileTableName(j) {
      assert NatToString(i) == FileTableName(i)[5..];
      assert NatToString(j) == FileTableName(j)[5..];
      NatToStringInjective(i, j);
    }
  }

  /** Every table of `db` is still in `db'`, with its columns, key and rows. */
  predicate Keeps(db: map<string, Table>, db': map<string, Table>)
  {
    forall n :: n in db ==> n in db' && Importer.Grows(db[n], db'[n])
  }

  lemma KeepsTransitive(a: map<string, Table>, b: map<string, Table>, c: map<string, Table>)
    requires Keeps(a, b) && Keeps(b, c)
    ensures Keeps(a, c)
  {
    forall n | n in a ensures n in c && Importer.Grows(a[n], c[n]) {
      Importer.GrowsTransitive(a[n], b[n], c[n]);
    }
  }

  /** What the connection promises: uncommitted work only adds to what is
      committed, and without an open transaction there is none. */
  predicate Sound(c: Conn)
  {
    Keeps(c.committed, c.work) && (!c.inTxn ==> c.committed == c.work)
  }

  /** An accepted `CREATE TABLE IF NOT EXISTS`: an existing table is left
      as it is; a new one takes effect at once unless a transaction is
      open. */
  function CreateIfMissing(c: Conn, name: string, t: Table): (c': Conn)
    ensures name in c'.work && c'.inTxn == c.inTxn
    ensures name in c.work ==> c' == c
    ensures name !in c.work ==> c'.work == c.work[name := t]
    ensures name !in c.work ==> c'.committed == if c.inTxn then c.committed else c'.work
  {
    if name in c.work then c
    else
      var w := c.work[name := t];
      Conn(if c.inTxn then c.committed else w, w, c.inTxn)
  }

  /** `CREATE TABLE IF NOT EXISTS data_i (id TEXT PRIMARY KEY, ...)`; `None`
      when SQLite refuses the statement. */
  function ExecCreate(env: Importer.Env, c: Conn, name: string, id: string, cols: seq<string>): (r: Option<Conn>)
    ensures r.Some? <==> env.accepts(CreateTableQuery(name, Some(id), cols))
  {
    if !env.accepts(CreateTableQuery(name, Some(id), cols)) then None
    else Some(CreateIfMissing(c, name, NewTable(Some(id), cols)))
  }

  /** An accepted `INSERT OR IGNORE`: it fails on a missing table or an
      unknown column, and otherwise opens the transaction if none is open. */
  function InsertRow(c: Conn, name: string, cols: seq<string>, vals: seq<Param>): (r: Option<Conn>)
    ensures r.Some? <==> name in c.work && InsertOrIgnore(c.work[name], cols, vals).Success?
    ensures r.Some? ==> r.value == Conn(c.committed, c.work[name := InsertOrIgnore(c.work[name], cols, vals).value], true)
  {
    if name !in c.work then None
    else
      match InsertOrIgnore(c.work[name], cols, vals)
      case Failure(_) => None
      case Success(t) => Some(Conn(c.committed, c.work[name := t], true))
  }

  /** One `INSERT OR IGNORE` of a dict's stringified values, in key order;
      `None` when it raises. */
  function ExecInsert(env: Importer.Env, c: Conn, name: string, fields: seq<(string, Value)>): (r: Option<Conn>)
    ensures r.Some? ==> r.value.committed == c.committed && r.value.inTxn
    ensures r.Some? ==> name in c.work && name in r.value.work && r.value.work == c.work[name := r.value.work[name]]
  {
    var vals := StringifiedValues(env.repr, fields);
    if !env.accepts(InsertQuery(name, Keys(fields), |vals|)) then None
    else InsertRow(c, name, Keys(fields), vals)
  }

  /** The list branch: one insert per item, in order; an item that is not a
      dict raises. */
  function InsertAll(env: Importer.Env, c: Conn, name: string, items: seq<Value>): Option<Conn>
    decreases |items|
  {
    if items == [] then Some(c)
    else if !items[0].Obj? then None
    else
      match ExecInsert(env, c, name, items[0].fields)
      case None => None
      case Some(c1) => InsertAll(env, c1, name, items[1..])
  }

  /** One iteration of the file loop for the `i`-th file; `data` is `None`
      when opening or parsing the file raised. */
  function ImportFile(env: Importer.Env, c: Conn, i: nat, data: Option<Value>): (r: (Report, Conn))
    ensures r.0 != SkippedMismatch
    ensures r.0 == SkippedEmpty <==> data.Some? && !Truthy(data.value)
    ensures r.0 == SkippedNoId <==>
              && data.Some? && Truthy(data.value)
              && ShapeSource(data.value).Obj?
              && FirstIdKey(Keys(ShapeSource(data.value).fields)).None?
    ensures r.0 == SkippedEmpty || r.0 == SkippedNoId ==> r.1 == c
    ensures r.0.Imported? ==> r.0.table == FileTableName(i) && r.0.table in r.1.work
  {
    if data.None? then (Raised, c)
    else
      var d := data.value;
      if !Truthy(d) then (SkippedEmpty, c)
      else
        var first := ShapeSource(d);
        if !first.Obj? then (Raised, c)
        else
          var cols := Keys(first.fields);
          match FirstIdKey(cols)
          case None => (SkippedNoId, c)
          case Some(id) =>
            var name := FileTableName(i);
            match ExecCreate(env, c, name, id, cols)
            case None => (Raised, c)
            case Some(c1) =>
              if d.Arr? then
                match InsertAll(env, c1, name, d.items)
                case None => (Raised, c1)
                case Some(c2) => InsertAllKeepsTable(env, c1, name, d.items); (Imported(name), c2)
              else
                var vals := StringifiedValues(env.repr, d.fields);
                if |cols| != |vals| then (SkippedMismatch, c1)
                else
                  match ExecInsert(env, c1, name, d.fields)
                  case None => (Raised, c1)
                  case Some(c2) => (Imported(name), c2)
  }

  /** The file loop from the `i`-th file on; it stops at the first file
      that raised. */
  function RunFrom(env: Importer.Env, c: Conn, files: seq<Option<Value>>, i: nat): (seq<Report>, Conn)
    requires i <= |files|
    decreases |files| - i
  {
    if i == |files| then ([], c)
    else
      var step := ImportFile(env, c, i, files[i]);
      if step.0 == Raised then ([Raised], step.1)
      else
        var rest := RunFrom(env, step.1, files, i + 1);
        ([step.0] + rest.0, rest.1)
  }

  /** The loop reports each file until the first exception, which is the
      last report; a run without one reports every file. */
  lemma {:induction false} RunFromShape(env: Importer.Env, c: Conn, files: seq<Option<Value>>, i: nat)
    requires i <= |files|
    ensures var r := RunFrom(env, c, files, i).0;
            && |r| <= |files| - i
            && (Raised !in r ==> |r| == |files| - i)
            && (Raised in r ==> r[|r| - 1] == Raised && Raised !in r[..|r| - 1])
    decreases |files| - i
  {
    if i < |files| {
      var step := ImportFile(env, c, i, files[i]);
      RunFromStep(env, c, files, i);
      if step.0 != Raised {
        var rest := RunFrom(env, step.1, files, i + 1).0;
        RunFromShape(env, step.1, files, i + 1);
        ReportsCons(step.0, rest, |files| - (i + 1));
      } else {
        assert RunFrom(env, c, files, i).0 == [Raised];
      }
    }
  }

  /** A report other than `Raised` in front of a run that stops at its
      first `Raised` still stops there, one file longer. */
  lemma ReportsCons(rep: Report, rest: seq<Report>, n: nat)
    requires rep != Raised && |rest| <= n
    requires Raised !in rest ==> |rest| == n
    requires Raised in rest ==> rest[|rest| - 1] == Raised && Raised !in rest[..|rest| - 1]
    ensures var r := [rep] + rest;
            && |r| <= n + 1
            && (Raised !in r ==> |r| == n + 1)
            && (Raised in r ==> r[|r| - 1] == Raised && Raised !in r[..|r| - 1])
  {
    var r := [rep] + rest;
    if Raised in r {
      assert Raised in rest;
      assert r[..|r| - 1] == [rep] + rest[..|rest| - 1];
    }
  }

  /** One file of the run: it is imported, then the run goes on unless it raised. */
  lemma RunFromStep(env: Importer.Env, c: Conn, files: seq<Option<Value>>, i: nat)
    requires i < |files|
    ensures var step := ImportFile(env, c, i, files[i]);
            RunFrom(env, c, files, i) ==
              if step.0 == Raised then ([Raised], step.1)
              else ([step.0] + RunFrom(env, step.1, files, i + 1).0, RunFrom(env, step.1, files, i + 1).1)
  {
  }

  /** `import_json_data_to_sqlite`: the reports, one per file processed,
      and the database afterwards. A run that raised never reaches
      `conn.commit()`, so only what was committed survives it. */
  function ImportAll(env: Importer.Env, db: map<string, Table>, files: seq<Option<Value>>): (seq<Report>, map<string, Table>)
  {
    var (reports, c) := RunFrom(env, Conn(db, db, false), files, 0);
    (reports, if Raised in reports then c.committed else c.work)
  }

  /** The list branch leaves the table it inserts into in place. */
  lemma {:induction false} InsertAllKeepsTable(env: Importer.Env, c: Conn, name: string, items: seq<Value>)
    requires name in c.work
    requires InsertAll(env, c, name, items).Some?
    ensures name in InsertAll(env, c, name, items).value.work
    decreases |items|
  {
    if items != [] {
      var c1 := ExecInsert(env, c, name, items[0].fields).value;
      InsertAllKeepsTable(env, c1, name, items[1..]);
    }
  }

  lemma ExecCreateSound(env: Importer.Env, c: Conn, name: string, id: string, cols: seq<string>)
    requires Sound(c) && ExecCreate(env, c, name, id, cols).Some?
    ensures var c' := ExecCreate(env, c, name, id, cols).value;
            Sound(c') && Keeps(c.committed, c'.committed) && Keeps(c.work, c'.work)
  {
    var c' := ExecCreate(env, c, name, id, cols).value;
    if name !in c.work {
      forall n | n in c.work ensures n in c'.work && Importer.Grows(c.work[n], c'.work[n]) {
        assert c'.work[n] == c.work[n];
      }
      forall n | n in c.committed ensures n in c'.work && Importer.Grows(c.committed[n], c'.work[n]) {
        assert c'.work[n] == c.work[n];
      }
    }
  }

  lemma ExecInsertSound(env: Importer.Env, c: Conn, name: string, fields: seq<(string, Value)>)
    requires Sound(c) && ExecInsert(env, c, name, fields).Some?
    ensures var c' := ExecInsert(env, c, name, fields).value;
            Sound(c') && c'.committed == c.committed && Keeps(c.work, c'.work)
  {
    var c' := ExecInsert(env, c, name, fields).value;
    assert Importer.Grows(c.work[name], c'.work[name]);
    forall n | n in c.work ensures n in c'.work && Importer.Grows(c.work[n], c'.work[n]) {
      if n != name {
        assert c'.work[n] == c.work[n];
      }
    }
    KeepsTransitive(c.committed, c.work, c'.work);
  }

  lemma {:induction false} InsertAllSound(env: Importer.Env, c: Conn, name: string, items: seq<Value>)
    requires Sound(c) && InsertAll(env, c, name, items).Some?
    ensures var c' := InsertAll(env, c, name, items).value;
            Sound(c') && c'.committed == c.committed && Keeps(c.work, c'.work)
    decreases |items|
  {
    if items != [] {
      var c1 := ExecInsert(env, c, name, items[0].fields).value;
      ExecInsertSound(env, c, name, items[0].fields);
      InsertAllSound(env, c1, name, items[1..]);
      KeepsTransitive(c.work, c1.work, InsertAll(env, c, name, items).value.work);
    } else {
      KeepsTransitive(c.work, c.work, c.work);
    }
  }

  /** One file never loses or alters what the connection had. */
  lemma ImportFileSound(env: Importer.Env, c: Conn, i: nat, data: Option<Value>)
    requires Sound(c)
    ensures var c' := ImportFile(env, c, i, data).1;
            Sound(c') && Keeps(c.committed, c'.committed)
  {
    KeepsTransitive(c.committed, c.committed, c.committed);
    if data.Some? && Truthy(data.value) && ShapeSource(data.value).Obj? {
      var d := data.value;
      var cols := Keys(ShapeSource(d).fields);
      if FirstIdKey(cols).Some? {
        var id := FirstIdKey(cols).value;
        var name := FileTableName(i);
        if ExecCreate(env, c, name, id, cols).Some? {
          var c1 := ExecCreate(env, c, name, id, cols).value;
          ExecCreateSound(env, c, name, id, cols);
          if d.Arr? {
            if InsertAll(env, c1, name, d.items).Some? {
              InsertAllSound(env, c1, name, d.items);
            }
          } else if ExecInsert(env, c1, name, d.fields).Some? {
            ExecInsertSound(env, c1, name, d.fields);
          }
        }
      }
    }
  }

  lemma {:induction false} RunFromSound(env: Importer.Env, c: Conn, files: seq<Option<Value>>, i: nat)
    requires i <= |files| && Sound(c)
    ensures var c' := RunFrom(env, c, files, i).1;
            Sound(c') && Keeps(c.committed, c'.committed)
    decreases |files| - i
  {
    if i == |files| {
      KeepsTransitive(c.committed, c.committed, c.committed);
    } else {
      var (rep, c1) := ImportFile(env, c, i, files[i]);
      ImportFileSound(env, c, i, files[i]);
      if rep != Raised {
        RunFromSound(env, c1, files, i + 1);
        KeepsTransitive(c.committed, c1.committed, RunFrom(env, c, files, i).1.committed);
      }
    }
  }

  /** Whatever happens, every table the database had before the run is
      still there afterwards with its columns, key and rows: `IF NOT
      EXISTS` never replaces a table and `INSERT OR IGNORE` never
      overwrites a row. */
  lemma ImportAllKeeps(env: Importer.Env, db: map<string, Table>, files: seq<Option<Value>>)
    ensures Keeps(db, ImportAll(env, db, files).1)
  {
    var c0 := Conn(db, db, false);
    KeepsTransitive(db, db, db);
    RunFromSound(env, c0, files, 0);
    var c := RunFrom(env, c0, files, 0).1;
    KeepsTransitive(db, c.committed, c.work);
  }

  /** A skipped file does not stop the loop: only an exception ends it
      early, every file before that one is reported, and a run without an
      exception reports every file. */
  lemma ImportAllReports(env: Importer.Env, db: map<string, Table>, files: seq<Option<Value>>)
    ensures var reports := ImportAll(env, db, files).0;
            && |reports| <= |files|
            && (Raised !in reports ==> |reports| == |files|)
            && (Raised in reports ==> reports[|reports| - 1] == Raised && Raised !in reports[..|reports| - 1])
  {
    RunFromShape(env, Conn(db, db, false), files, 0);
  }

  /** The connection the files from the `i`-th up to the `k`-th leave. */
  function ConnAt(env: Importer.Env, c: Conn, files: seq<Option<Value>>, i: nat, k: nat): Conn
    requires i <= k <= |files|
    decreases k - i
  {
    if i == k then c else ConnAt(env, ImportFile(env, c, i, files[i]).1, files, i + 1, k)
  }

  /** The `k`-th report is what the `k`-th file did, under the index `k`,
      on the connection the files before it left. */
  lemma {:induction false} RunFromReportsEachFile(env: Importer.Env, c: Conn, files: seq<Option<Value>>, i: nat, k: nat)
    requires i <= |files|
    requires i <= k < i + |RunFrom(env, c, files, i).0|
    ensures k < |files|
    ensures RunFrom(env, c, files, i).0[k - i] == ImportFile(env, ConnAt(env, c, files, i, k), k, files[k]).0
    decreases |files| - i
  {
    var r := RunFrom(env, c, files, i);
    assert i < |files|;
    var c1 := ImportFile(env, c, i, files[i]).1;
    if k > i {
      assert r.0[0] != Raised;
      var rest := RunFrom(env, c1, files, i + 1);
      assert r.0 == [r.0[0]] + rest.0;
      RunFromReportsEachFile(env, c1, files, i + 1, k);
      assert r.0[k - i] == rest.0[k - i - 1];
    }
  }

  /** The list branch stores every item: afterwards each item's key is in
      the table, whatever earlier or later items held. */
  lemma {:induction false} InsertAllHoldsItems(env: Importer.Env, c: Conn, name: string, items: seq<Value>)
    requires Sound(c) && name in c.work
    requires InsertAll(env, c, name, items).Some?
    ensures name in InsertAll(env, c, name, items).value.work
    ensures var t := InsertAll(env, c, name, items).value.work[name];
            && t.columns == c.work[name].columns && t.key == c.work[name].key
            && forall j :: 0 <= j < |items| ==>
                 && items[j].Obj?
                 && KeyOf(t.key, RowFor(t.columns, Keys(items[j].fields), StringifiedValues(env.repr, items[j].fields))) in t.rows
    decreases |items|
  {
    InsertAllKeepsTable(env, c, name, items);
    InsertAllSound(env, c, name, items);
    if items != [] {
      var c1 := ExecInsert(env, c, name, items[0].fields).value;
      ExecInsertSound(env, c, name, items[0].fields);
      InsertAllHoldsItems(env, c1, name, items[1..]);
      InsertAllSound(env, c1, name, items[1..]);
      var t1 := c1.work[name];
      var t := InsertAll(env, c, name, items).value.work[name];
      assert Importer.Grows(t1, t);
      forall j | 0 <= j < |items|
        ensures items[j].Obj?
        ensures KeyOf(t.key, RowFor(t.columns, Keys(items[j].fields), StringifiedValues(env.repr, items[j].fields))) in t.rows
      {
        if j > 0 {
          assert items[j] == items[1..][j - 1];
        }
      }
    }
  }

  /** The `for item in json_data` loop of the list branch. */
  method InsertItems(env: Importer.Env, c: Conn, name: string, items: seq<Value>) returns (r: Option<Conn>)
    ensures r == InsertAll(env, c, name, items)
  {
    var cur := c;
    for k := 0 to |items|
      invariant InsertAll(env, c, name, items) == InsertAll(env, cur, name, items[k..])
    {
      assert items[k..][1..] == items[k + 1..];
      var item := items[k];
      if !item.Obj? {
        return None;
      }
      var values := StringifiedValues(env.repr, item.fields);
      var insertQuery := InsertQuery(name, Keys(item.fields), |values|);
      if !env.accepts(insertQuery) {
        return None;
      }
      var next := InsertRow(cur, name, Keys(item.fields), values);
      if next.None? {
        return None;
      }
      cur := next.value;
    }
    assert items[|items|..] == [];
    r := Some(cur);
  }

  /** The body of the file loop for the `i`-th file. The single-object
      column-count check is not repeated: its two counts come from the same
      dict, so it never fires (`ImportFile` never reports `SkippedMismatch`). */
  method ImportOneFile(env: Importer.Env, c: Conn, i: nat, data: Option<Value>) returns (rep: Report, c': Conn)
    ensures (rep, c') == ImportFile(env, c, i, data)
  {
    if data.None? {
      return Raised, c;
    }
    var jsonData := data.value;
    if !Truthy(jsonData) {
      return SkippedEmpty, c;
    }
    var first := if jsonData.Arr? then jsonData.items[0] else jsonData;
    if !first.Obj? {
      return Raised, c;
    }
    var columnNames := Keys(first.fields);
    var idFieldName := FirstIdKey(columnNames);
    if idFieldName.None? {
      return SkippedNoId, c;
    }
    var tableName := FileTableName(i);
    var createTableQuery := BuildCreateTableQuery(tableName, idFieldName, columnNames);
    if !env.accepts(createTableQuery) {
      return Raised, c;
    }
    var c1 := CreateIfMissing(c, tableName, NewTable(idFieldName, columnNames));
    if jsonData.Arr? {
      var inserted := InsertItems(env, c1, tableName, jsonData.items);
      if inserted.None? {
        return Raised, c1;
      }
      return Imported(tableName), inserted.value;
    } else {
      var inserted := ExecInsert(env, c1, tableName, jsonData.fields);
      if inserted.None? {
        return Raised, c1;
      }
      return Imported(tableName), inserted.value;
    }
  }

  /** `import_json_data_to_sqlite`: the loop over the files on one
      connection, committed once at the end. */
  method ImportJsonDataToSqlite(env: Importer.Env, db: map<string, Table>, files: seq<Option<Value>>)
    returns (reports: seq<Report>, db': map<string, Table>)
    ensures (reports, db') == ImportAll(env, db, files)
  {
    var c0 := Conn(db, db, false);
    var c := c0;
    reports := [];
    assert reports + RunFrom(env, c0, files, 0).0 == RunFrom(env, c0, files, 0).0;
    for i := 0 to |files|
      invariant Raised !in reports
      invariant RunFrom(env, c0, files, 0) == (reports + RunFrom(env, c, files, i).0, RunFrom(env, c, files, i).1)
    {
      var rep, c1 := ImportOneFile(env, c, i, files[i]);
      RunFromStep(env, c, files, i);
      if rep == Raised {
        return reports + [Raised], c1.committed;
      }
      var rest := RunFrom(env, c1, files, i + 1);
      assert reports + ([rep] + rest.0) == (reports + [rep]) + rest.0;
      reports := reports + [rep];
      c := c1;
    }
    assert reports + [] == reports;
    db' := c.work;
  }
}
