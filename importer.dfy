/** The importer of `src/chatgpt_tool.py`: each JSON object of a file is
    imported in its own transaction into a table named after the file,
    versioned when the column set differs from the one recorded for it. */
module Importer {
  import opened Base
  import opened Json
  import opened Text
  import opened Sql
  import opened Statements
  import opened Schema
  import opened TableNames

  /** What the model takes as given: MD5 on strings, SQLite's verdict on a
      statement's text (syntax, names, duplicate columns), and Python's
      `str` of floats and containers. */
  datatype Env = Env(md5: string -> string, accepts: string -> bool, repr: Value -> string)

  /** The registry table, created before any import. */
  const SchemaTable := "schema"

  /** The database as the importer sees it: user tables, the rows of the
      registry table in insertion order, and the in-memory `schema_cache`. */
  datatype DbState = DbState(tables: map<string, Table>, registry: seq<SchemaRow>, cache: map<string, string>)

  /** The names `table_exists` answers yes for. */
  function Existing(tables: map<string, Table>): (e: set<string>)
    ensures SchemaTable in e && forall n :: n in tables ==> n in e
  {
    tables.Keys + {SchemaTable}
  }

  /** What holds between imports: the registry table is not a user table,
      no table has an empty name, every registry row names a table, and
      every cache entry agrees with the registry. */
  predicate Consistent(s: DbState)
  {
    && SchemaTable !in s.tables
    && "" !in s.tables
    && (forall i :: 0 <= i < |s.registry| ==> s.registry[i].tableName in s.tables)
    && (forall n :: n in s.cache ==> n in s.tables && RegistryLookup(s.registry, n) == Some(s.cache[n]))
  }

  /** How `import_single_json_object` ends: committed into a table, rolled
      back after an error, or an exception before the transaction began. */
  datatype ObjectOutcome = Imported(table: string) | RolledBack | Raised

  /** `create_table` for a table that does not exist yet. */
  function CreateTable(env: Env, name: string, id: Option<string>, cols: seq<string>): Result<Table, SqlError>
  {
    if name == "" || !env.accepts(CreateTableQuery(name, id, cols)) then Failure(Rejected)
    else if DeclaredColumns(id, cols) == [] then Failure(NoColumns)
    else Success(NewTable(id, cols))
  }

  /** `insert_data_single`: the object's keys and converted values. */
  function InsertObject(env: Env, t: Table, name: string, fields: seq<(string, Value)>): Result<Table, SqlError>
  {
    var keys := Keys(fields);
    var vals := ConvertedValues(env.repr, fields);
    if !env.accepts(InsertQuery(name, keys, |vals|)) then Failure(Rejected)
    else InsertOrIgnore(t, keys, vals)
  }

  /** The table `get_versioned_table_name` picks for columns `cols`. */
  function TargetName(env: Env, s: DbState, tableName: string, cols: seq<string>): string
  {
    var hash := ColumnNamesHash(env.md5, cols);
    Candidate(tableName, Resolve(Existing(s.tables), s.cache, s.registry, tableName, hash))
  }

  /** The cache after `get_versioned_table_name`: a probe that stops at an
      existing table records its hash. */
  function TargetCache(env: Env, s: DbState, tableName: string, cols: seq<string>): map<string, string>
  {
    var name := TargetName(env, s, tableName, cols);
    if name in Existing(s.tables) then s.cache[name := ColumnNamesHash(env.md5, cols)] else s.cache
  }

  /** The work between BEGIN and COMMIT once the table name is known:
      create and register the table if it does not exist, then insert the
      object. `None` is an error, after which ROLLBACK undoes all of it. */
  function Transaction(env: Env, tables: map<string, Table>, registry: seq<SchemaRow>, name: string, hash: string,
                       id: Option<string>, cols: seq<string>, obj: Value): Option<(map<string, Table>, seq<SchemaRow>)>
  {
    if name in tables then
      if !obj.Obj? then None
      else match InsertObject(env, tables[name], name, obj.fields)
        case Failure(_) => None
        case Success(t) => Some((tables[name := t], registry))
    else match CreateTable(env, name, id, cols)
      case Failure(_) => None
      case Success(t0) =>
        if !obj.Obj? then None
        else match InsertObject(env, t0, name, obj.fields)
          case Failure(_) => None
          case Success(t) => Some((tables[name := t], registry + [SchemaRow(hash, name, Join(cols, ","))]))
  }

  /** The transaction on a table that exists: the insert alone. */
  lemma TransactionExisting(env: Env, tables: map<string, Table>, registry: seq<SchemaRow>, name: string, hash: string,
                            id: Option<string>, cols: seq<string>, obj: Value)
    requires name in tables
    ensures Transaction(env, tables, registry, name, hash, id, cols, obj) ==
            if obj.Obj? && InsertObject(env, tables[name], name, obj.fields).Success?
            then Some((tables[name := InsertObject(env, tables[name], name, obj.fields).value], registry))
            else None
  {
  }

  /** The transaction on a new table: create, register, insert. */
  lemma TransactionNew(env: Env, tables: map<string, Table>, registry: seq<SchemaRow>, name: string, hash: string,
                       id: Option<string>, cols: seq<string>, obj: Value)
    requires name !in tables
    ensures Transaction(env, tables, registry, name, hash, id, cols, obj) ==
            if CreateTable(env, name, id, cols).Success? && obj.Obj?
               && InsertObject(env, CreateTable(env, name, id, cols).value, name, obj.fields).Success?
            then Some((tables[name := InsertObject(env, CreateTable(env, name, id, cols).value, name, obj.fields).value],
                       registry + [SchemaRow(hash, name, Join(cols, ","))]))
            else None
  {
  }

  /** A committed transaction adds or updates exactly the target table and
      appends a registry row exactly when it created that table. */
  lemma TransactionShape(env: Env, tables: map<string, Table>, registry: seq<SchemaRow>, name: string, hash: string,
                         id: Option<string>, cols: seq<string>, obj: Value)
    requires Transaction(env, tables, registry, name, hash, id, cols, obj).Some?
    ensures var (t, r) := Transaction(env, tables, registry, name, hash, id, cols, obj).value;
            && t.Keys == tables.Keys + {name}
            && (forall n :: n in tables && n != name ==> t[n] == tables[n])
            && (name in tables ==> r == registry)
            && (name !in tables ==> name != "" && r == registry + [SchemaRow(hash, name, Join(cols, ","))])
  {
  }

  /** `import_single_json_object` on the abstract database. */
  function ImportObject(env: Env, s: DbState, tableName: string, obj: Value): (ObjectOutcome, DbState)
  {
    match IdAndColumnNames(obj)
    case Failure(_) => (Raised, s)
    case Success((id, cols)) =>
      var name := TargetName(env, s, tableName, cols);
      var cache := TargetCache(env, s, tableName, cols);
      match Transaction(env, s.tables, s.registry, name, ColumnNamesHash(env.md5, cols), id, cols, obj)
      case None => (RolledBack, s.(cache := cache))
      case Some((t, r)) => (Imported(name), DbState(t, r, cache))
  }

  /** An object with a shape is decided by its transaction. */
  lemma ImportObjectByTransaction(env: Env, s: DbState, tableName: string, obj: Value)
    requires IdAndColumnNames(obj).Success?
    ensures var (id, cols) := IdAndColumnNames(obj).value;
            var name := TargetName(env, s, tableName, cols);
            var cache := TargetCache(env, s, tableName, cols);
            var tx := Transaction(env, s.tables, s.registry, name, ColumnNamesHash(env.md5, cols), id, cols, obj);
            && (tx.None? ==> ImportObject(env, s, tableName, obj) == (RolledBack, s.(cache := cache)))
            && (tx.Some? ==> ImportObject(env, s, tableName, obj) == (Imported(name), DbState(tx.value.0, tx.value.1, cache)))
  {
  }

  /** An object with an int field SQLite cannot hold is rolled back:
      nothing of it reaches the tables or the registry. */
  lemma ImportObjectOutOfRangeRollsBack(env: Env, s: DbState, tableName: string, obj: Value, k: nat)
    requires obj.Obj? && IdAndColumnNames(obj).Success?
    requires k < |obj.fields| && obj.fields[k].1.Int? && !(MinInt64 <= obj.fields[k].1.i <= MaxInt64)
    ensures var (o, s') := ImportObject(env, s, tableName, obj);
            o == RolledBack && s'.tables == s.tables && s'.registry == s.registry
  {
    var (id, cols) := IdAndColumnNames(obj).value;
    var name := TargetName(env, s, tableName, cols);
    var hash := ColumnNamesHash(env.md5, cols);
    if name in s.tables {
      InsertObjectOutOfRange(env, s.tables[name], name, obj.fields, k);
      TransactionExisting(env, s.tables, s.registry, name, hash, id, cols, obj);
    } else {
      if CreateTable(env, name, id, cols).Success? {
        InsertObjectOutOfRange(env, CreateTable(env, name, id, cols).value, name, obj.fields, k);
      }
      TransactionNew(env, s.tables, s.registry, name, hash, id, cols, obj);
    }
    ImportObjectByTransaction(env, s, tableName, obj);
  }

  /** Objects imported one after the other; an exception ends the file. */
  function ImportObjects(env: Env, s: DbState, tableName: string, objs: seq<Value>): (r: (seq<ObjectOutcome>, DbState))
    ensures |r.0| <= |objs|
    ensures Raised !in r.0 ==> |r.0| == |objs|
    ensures Raised in r.0 ==> r.0[|r.0| - 1] == Raised && Raised !in r.0[..|r.0| - 1]
  {
    if objs == [] then ([], s)
    else
      var (os, s1) := ImportObjects(env, s, tableName, objs[..|objs| - 1]);
      if Raised in os then (os, s1)
      else
        var (o, s2) := ImportObject(env, s1, tableName, objs[|objs| - 1]);
        assert (os + [o])[..|os|] == os;
        (os + [o], s2)
  }

  /** `import_json_data_to_sqlite`: falsy data imports nothing, a single
      value is imported as a one-element list, into the table named after
      the file. */
  function ImportJsonData(env: Env, s: DbState, json: Value, path: string): (seq<ObjectOutcome>, DbState)
  {
    if !Truthy(json) then ([], s)
    else ImportObjects(env, s, TableName(path), if json.Arr? then json.items else [json])
  }

  /** Wherever the probing provably stops is the name chosen. */
  lemma TargetAt(env: Env, s: DbState, tableName: string, cols: seq<string>, version: nat)
    requires IsResolution(Existing(s.tables), s.cache, s.registry, tableName, ColumnNamesHash(env.md5, cols), version)
    ensures TargetName(env, s, tableName, cols) == Candidate(tableName, version)
    ensures var name := Candidate(tableName, version);
            TargetCache(env, s, tableName, cols) ==
              if name in Existing(s.tables) then s.cache[name := ColumnNamesHash(env.md5, cols)] else s.cache
  {
    var hash := ColumnNamesHash(env.md5, cols);
    var v := Resolve(Existing(s.tables), s.cache, s.registry, tableName, hash);
    ResolutionUnique(Existing(s.tables), s.cache, s.registry, tableName, hash, version, v);
  }

  /** Probing stops at an existing table only when that table is a user
      table whose registry row carries the same fingerprint. */
  lemma TargetIsConsistent(env: Env, s: DbState, tableName: string, cols: seq<string>)
    requires Consistent(s)
    ensures var name := TargetName(env, s, tableName, cols);
            name in Existing(s.tables) ==>
              name in s.tables && RegistryLookup(s.registry, name) == Some(ColumnNamesHash(env.md5, cols))
  {
    var hash := ColumnNamesHash(env.md5, cols);
    var name := TargetName(env, s, tableName, cols);
    if name in Existing(s.tables) && !(name in s.cache && s.cache[name] == hash) {
      assert RegistryLookup(s.registry, name) == Some(hash);
      var i :| 0 <= i < |s.registry| && s.registry[i].hash == hash && (name == "" || s.registry[i].tableName == name);
    }
  }

  /** A cache that gained the target's fingerprint stays consistent. */
  lemma CacheUpdateConsistent(s: DbState, name: string, hash: string)
    requires Consistent(s)
    requires name in s.tables && RegistryLookup(s.registry, name) == Some(hash)
    ensures Consistent(s.(cache := s.cache[name := hash]))
  {
  }

  /** A commit that creates the target table and appends its registry row
      keeps the database consistent. */
  lemma CreateCommitConsistent(s: DbState, name: string, hash: string, cols: string,
                               t: map<string, Table>)
    requires Consistent(s)
    requires name !in s.tables && name != "" && name != SchemaTable
    requires t.Keys == s.tables.Keys + {name}
    ensures Consistent(DbState(t, s.registry + [SchemaRow(hash, name, cols)], s.cache))
  {
    var row := SchemaRow(hash, name, cols);
    forall n | n in s.cache ensures RegistryLookup(s.registry + [row], n) == Some(s.cache[n]) {
      RegistryLookupAppend(s.registry, row, n);
    }
  }

  /** Every import, committed or not, keeps the database consistent. */
  lemma ImportObjectConsistent(env: Env, s: DbState, tableName: string, obj: Value)
    requires Consistent(s)
    ensures Consistent(ImportObject(env, s, tableName, obj).1)
  {
    if IdAndColumnNames(obj).Success? {
      var (id, cols) := IdAndColumnNames(obj).value;
      var name := TargetName(env, s, tableName, cols);
      var hash := ColumnNamesHash(env.md5, cols);
      var cache := TargetCache(env, s, tableName, cols);
      TargetIsConsistent(env, s, tableName, cols);
      if name in Existing(s.tables) {
        CacheUpdateConsistent(s, name, hash);
      }
      var s1 := s.(cache := cache);
      assert Consistent(s1);
      var tx := Transaction(env, s.tables, s.registry, name, hash, id, cols, obj);
      if tx.Some? {
        TransactionShape(env, s.tables, s.registry, name, hash, id, cols, obj);
        var (t, r) := tx.value;
        if name !in s.tables {
          CreateCommitConsistent(s1, name, hash, Join(cols, ","), t);
        }
        assert Consistent(DbState(t, r, cache));
      }
    }
  }

  /** What one object does to the database: an exception changes nothing,
      a rollback keeps tables and registry, a commit lands in the versioned
      table and records a schema row exactly when it created that table,
      and the cache only gains entries holding the object's fingerprint. */
  lemma ImportObjectEffects(env: Env, s: DbState, tableName: string, obj: Value)
    requires Consistent(s)
    ensures var (o, s') := ImportObject(env, s, tableName, obj);
            && (o == Raised <==> IdAndColumnNames(obj).Failure?)
            && (o == Raised ==> s' == s)
            && (o == RolledBack ==> s'.tables == s.tables && s'.registry == s.registry)
            && (forall n :: n in s.cache ==> n in s'.cache && s'.cache[n] == s.cache[n])
            && (IdAndColumnNames(obj).Success? ==>
                  var cols := IdAndColumnNames(obj).value.1;
                  var hash := ColumnNamesHash(env.md5, cols);
                  && (forall n :: n in s'.cache && n !in s.cache ==> s'.cache[n] == hash)
                  && (o.Imported? ==>
                        && o.table == TargetName(env, s, tableName, cols)
                        && o.table in s'.tables
                        && (o.table in s.tables ==> s'.registry == s.registry)
                        && (o.table !in s.tables ==>
                              s'.registry == s.registry + [SchemaRow(hash, o.table, Join(cols, ","))])))
  {
    var (o, s') := ImportObject(env, s, tableName, obj);
    if IdAndColumnNames(obj).Success? {
      var (id, cols) := IdAndColumnNames(obj).value;
      var name := TargetName(env, s, tableName, cols);
      var hash := ColumnNamesHash(env.md5, cols);
      TargetIsConsistent(env, s, tableName, cols);
      ImportObjectByTransaction(env, s, tableName, obj);
      var tx := Transaction(env, s.tables, s.registry, name, hash, id, cols, obj);
      if tx.Some? {
        TransactionShape(env, s.tables, s.registry, name, hash, id, cols, obj);
      }
    }
  }

  /** `t'` is `t` with possibly more rows: same columns, same key, and
      every row of `t` unchanged. */
  predicate Grows(t: Table, t': Table)
  {
    && t'.columns == t.columns && t'.key == t.key
    && forall k :: k in t.rows ==> k in t'.rows && t'.rows[k] == t.rows[k]
  }

  /** INSERT OR IGNORE keeps the table's columns, key and rows. */
  lemma InsertObjectGrows(env: Env, t: Table, name: string, fields: seq<(string, Value)>)
    requires InsertObject(env, t, name, fields).Success?
    ensures Grows(t, InsertObject(env, t, name, fields).value)
  {
  }

  /** An int field outside SQLite's 64-bit INTEGER range makes the insert
      raise while binding, whatever the table and the statement. */
  lemma InsertObjectOutOfRange(env: Env, t: Table, name: string, fields: seq<(string, Value)>, k: nat)
    requires k < |fields| && fields[k].1.Int? && !(MinInt64 <= fields[k].1.i <= MaxInt64)
    ensures InsertObject(env, t, name, fields).Failure?
  {
    var vals := ConvertedValues(env.repr, fields);
    assert vals[k] == PInt(fields[k].1.i) && !Bindable(vals[k]);
  }

  /** Tables that existed keep their columns, their key and every row they
      had: INSERT OR IGNORE never overwrites. */
  lemma ImportObjectKeepsRows(env: Env, s: DbState, tableName: string, obj: Value)
    ensures var s' := ImportObject(env, s, tableName, obj).1;
            forall n :: n in s.tables ==> n in s'.tables && Grows(s.tables[n], s'.tables[n])
  {
    var s' := ImportObject(env, s, tableName, obj).1;
    if IdAndColumnNames(obj).Success? {
      var (id, cols) := IdAndColumnNames(obj).value;
      var name := TargetName(env, s, tableName, cols);
      var hash := ColumnNamesHash(env.md5, cols);
      var tx := Transaction(env, s.tables, s.registry, name, hash, id, cols, obj);
      if tx.Some? {
        TransactionShape(env, s.tables, s.registry, name, hash, id, cols, obj);
        var t := tx.value.0;
        assert s'.tables == t;
        if name in s.tables {
          InsertObjectGrows(env, s.tables[name], name, obj.fields);
          assert t[name] == InsertObject(env, s.tables[name], name, obj.fields).value;
        }
        forall n | n in s.tables ensures n in t && Grows(s.tables[n], t[n]) {
          if n != name {
            assert t[n] == s.tables[n];
          }
        }
      } else {
        assert s'.tables == s.tables;
      }
    }
  }

  /** Probing stops at the same version when the only changes are at the
      version it stopped at: more tables, and cache and registry entries
      for that name alone. */
  lemma ResolutionStable(e: set<string>, cache: map<string, string>, registry: seq<SchemaRow>,
                         e1: set<string>, cache1: map<string, string>, registry1: seq<SchemaRow>,
                         tableName: string, hash: string, v: nat)
    requires IsResolution(e, cache, registry, tableName, hash, v)
    requires e <= e1 && "" !in e
    requires var name := Candidate(tableName, v);
             (name in cache1 && cache1[name] == hash) || RegistryLookup(registry1, name) == Some(hash)
    requires forall n :: n in cache1 && n != Candidate(tableName, v) ==> n in cache && cache1[n] == cache[n]
    requires forall n :: n != Candidate(tableName, v) && n in e ==> RegistryLookup(registry1, n) == RegistryLookup(registry, n)
    ensures IsResolution(e1, cache1, registry1, tableName, hash, v)
  {
    forall j | 1 <= j < v ensures !Stops(e1, cache1, registry1, Candidate(tableName, j), hash) {
      var c := Candidate(tableName, j);
      assert !Stops(e, cache, registry, c, hash);
      if c == Candidate(tableName, v) {
        CandidateInjective(tableName, j, v);
      }
    }
  }

  /** Probing over a database that kept every table, and gained at most
      the fingerprint of the version it stopped at, stops there again. */
  lemma ResolutionKept(s: DbState, s1: DbState, tableName: string, hash: string, v: nat, joined: string)
    requires Consistent(s)
    requires IsResolution(Existing(s.tables), s.cache, s.registry, tableName, hash, v)
    requires s.tables.Keys <= s1.tables.Keys
    requires var name := Candidate(tableName, v);
             && s1.cache == (if name in Existing(s.tables) then s.cache[name := hash] else s.cache)
             && (name in s.tables ==> s1.registry == s.registry && RegistryLookup(s.registry, name) == Some(hash))
             && (name !in s.tables ==> name != "" && s1.registry == s.registry + [SchemaRow(hash, name, joined)])
    ensures IsResolution(Existing(s1.tables), s1.cache, s1.registry, tableName, hash, v)
  {
    var name := Candidate(tableName, v);
    var row := SchemaRow(hash, name, joined);
    forall n | n != name && n in Existing(s.tables)
      ensures RegistryLookup(s1.registry, n) == RegistryLookup(s.registry, n)
    {
      if name !in s.tables {
        RegistryLookupAppend(s.registry, row, n);
      }
    }
    if name !in s.tables {
      assert RegistryLookup(s.registry, name) == None;
      RegistryLookupAppend(s.registry, row, name);
    }
    ResolutionStable(Existing(s.tables), s.cache, s.registry, Existing(s1.tables), s1.cache, s1.registry,
                     tableName, hash, v);
  }

  /** After a committed import, probing for the same columns stops at the
      same version. */
  lemma ResolutionAfterImport(env: Env, s: DbState, tableName: string, obj: Value)
    requires Consistent(s)
    requires ImportObject(env, s, tableName, obj).0.Imported?
    ensures var cols := IdAndColumnNames(obj).value.1;
            TargetName(env, ImportObject(env, s, tableName, obj).1, tableName, cols) == TargetName(env, s, tableName, cols)
  {
    var (id, cols) := IdAndColumnNames(obj).value;
    var hash := ColumnNamesHash(env.md5, cols);
    var v := Resolve(Existing(s.tables), s.cache, s.registry, tableName, hash);
    var name := Candidate(tableName, v);
    TargetAt(env, s, tableName, cols, v);
    ImportObjectByTransaction(env, s, tableName, obj);
    var tx := Transaction(env, s.tables, s.registry, name, hash, id, cols, obj);
    assert tx.Some?;
    TransactionShape(env, s.tables, s.registry, name, hash, id, cols, obj);
    TargetIsConsistent(env, s, tableName, cols);
    var s1 := ImportObject(env, s, tableName, obj).1;
    ResolutionKept(s, s1, tableName, hash, v, Join(cols, ","));
    TargetAt(env, s1, tableName, cols, v);
  }

  /** Inserting the object again into the table it was committed to
      changes nothing. */
  lemma InsertObjectIdempotent(env: Env, t: Table, name: string, fields: seq<(string, Value)>)
    requires InsertObject(env, t, name, fields).Success?
    ensures var t' := InsertObject(env, t, name, fields).value;
            InsertObject(env, t', name, fields) == Success(t')
  {
    InsertOrIgnoreIdempotent(t, Keys(fields), ConvertedValues(env.repr, fields));
  }

  /** The table a committed transaction wrote to already holds the object. */
  lemma TransactionHoldsObject(env: Env, tables: map<string, Table>, registry: seq<SchemaRow>, name: string, hash: string,
                               id: Option<string>, cols: seq<string>, obj: Value)
    requires Transaction(env, tables, registry, name, hash, id, cols, obj).Some?
    ensures var t := Transaction(env, tables, registry, name, hash, id, cols, obj).value.0;
            obj.Obj? && name in t && InsertObject(env, t[name], name, obj.fields) == Success(t[name])
  {
    if name in tables {
      InsertObjectIdempotent(env, tables[name], name, obj.fields);
    } else {
      InsertObjectIdempotent(env, CreateTable(env, name, id, cols).value, name, obj.fields);
    }
  }

  /** An object already held by the table it resolves to is imported
      there again without any change to tables or registry. */
  lemma ImportIntoHoldingTable(env: Env, s: DbState, tableName: string, obj: Value, name: string)
    requires IdAndColumnNames(obj).Success? && obj.Obj?
    requires TargetName(env, s, tableName, IdAndColumnNames(obj).value.1) == name
    requires name in s.tables && InsertObject(env, s.tables[name], name, obj.fields) == Success(s.tables[name])
    ensures ImportObject(env, s, tableName, obj).0 == Imported(name)
    ensures ImportObject(env, s, tableName, obj).1.tables == s.tables
    ensures ImportObject(env, s, tableName, obj).1.registry == s.registry
  {
    var (id, cols) := IdAndColumnNames(obj).value;
    var hash := ColumnNamesHash(env.md5, cols);
    assert s.tables[name := s.tables[name]] == s.tables;
    assert Transaction(env, s.tables, s.registry, name, hash, id, cols, obj) == Some((s.tables, s.registry));
  }

  /** Importing the same object twice: the second import lands in the same
      table and leaves every table and the registry as the first left them. */
  lemma ReimportChangesNoTable(env: Env, s: DbState, tableName: string, obj: Value)
    requires Consistent(s)
    requires ImportObject(env, s, tableName, obj).0.Imported?
    ensures var r1 := ImportObject(env, s, tableName, obj);
            var r2 := ImportObject(env, r1.1, tableName, obj);
            r2.0 == r1.0 && r2.1.tables == r1.1.tables && r2.1.registry == r1.1.registry
  {
    var r1 := ImportObject(env, s, tableName, obj);
    var s1 := r1.1;
    var (id, cols) := IdAndColumnNames(obj).value;
    var hash := ColumnNamesHash(env.md5, cols);
    var name := TargetName(env, s, tableName, cols);
    ImportObjectEffects(env, s, tableName, obj);
    assert r1.0 == Imported(name);
    ResolutionAfterImport(env, s, tableName, obj);
    var tx := Transaction(env, s.tables, s.registry, name, hash, id, cols, obj);
    assert tx.Some? && s1.tables == tx.value.0;
    TransactionHoldsObject(env, s.tables, s.registry, name, hash, id, cols, obj);
    ImportIntoHoldingTable(env, s1, tableName, obj, name);
  }

  /** Falsy data imports nothing; a single value is imported as the list
      holding it. */
  lemma ImportJsonDataCases(env: Env, s: DbState, json: Value, path: string)
    ensures !Truthy(json) ==> ImportJsonData(env, s, json, path) == ([], s)
    ensures Truthy(json) && !json.Arr? ==>
              var r := ImportObject(env, s, TableName(path), json);
              ImportJsonData(env, s, json, path) == ([r.0], r.1)
  {
    if Truthy(json) && !json.Arr? {
      ImportObjectsSingleton(env, s, TableName(path), json);
    }
  }

  /** A one-element list imports its element. */
  lemma ImportObjectsSingleton(env: Env, s: DbState, tableName: string, obj: Value)
    ensures var r := ImportObject(env, s, tableName, obj);
            ImportObjects(env, s, tableName, [obj]) == ([r.0], r.1)
  {
    assert [obj][..0] == [];
    assert ImportObjects(env, s, tableName, []) == ([], s);
    assert [] + [ImportObject(env, s, tableName, obj).0] == [ImportObject(env, s, tableName, obj).0];
  }

  lemma {:induction false} ImportObjectsConsistent(env: Env, s: DbState, tableName: string, objs: seq<Value>)
    requires Consistent(s)
    ensures Consistent(ImportObjects(env, s, tableName, objs).1)
  {
    if objs != [] {
      var (os, s1) := ImportObjects(env, s, tableName, objs[..|objs| - 1]);
      ImportObjectsConsistent(env, s, tableName, objs[..|objs| - 1]);
      if Raised !in os {
        ImportObjectConsistent(env, s1, tableName, objs[|objs| - 1]);
      }
    }
  }

  /** One more object: a file stopped by an exception stays stopped,
      otherwise the next object is imported into the state reached. */
  lemma ImportObjectsStep(env: Env, s: DbState, tableName: string, objs: seq<Value>)
    requires objs != []
    ensures var prev := ImportObjects(env, s, tableName, objs[..|objs| - 1]);
            var r := ImportObjects(env, s, tableName, objs);
            && (Raised in prev.0 ==> r == prev)
            && (Raised !in prev.0 ==>
                  var next := ImportObject(env, prev.1, tableName, objs[|objs| - 1]);
                  r == (prev.0 + [next.0], next.1))
  {
  }

  /** The loop of `import_json_data_to_sqlite` one object further: the
      outcome is appended, and an exception ends the file there. */
  lemma ImportObjectsNext(env: Env, s: DbState, tableName: string, objs: seq<Value>, i: nat,
                          prev: (seq<ObjectOutcome>, DbState), o: ObjectOutcome, s1: DbState)
    requires i < |objs| && prev == ImportObjects(env, s, tableName, objs[..i]) && Raised !in prev.0
    requires (o, s1) == ImportObject(env, prev.1, tableName, objs[i])
    ensures (prev.0 + [o], s1) == ImportObjects(env, s, tableName, objs[..i + 1])
    ensures o == Raised ==> ImportObjects(env, s, tableName, objs) == (prev.0 + [o], s1)
  {
    assert objs[..i + 1][..i] == objs[..i];
    ImportObjectsStep(env, s, tableName, objs[..i + 1]);
    if o == Raised {
      ImportObjectsStopped(env, s, tableName, objs, i + 1);
    }
  }

  /** Truthy data is imported as the list of its objects. */
  lemma ImportJsonDataObjects(env: Env, s: DbState, json: Value, path: string)
    ensures !Truthy(json) ==> ImportJsonData(env, s, json, path) == ([], s)
    ensures Truthy(json) ==>
              ImportJsonData(env, s, json, path) == ImportObjects(env, s, TableName(path), if json.Arr? then json.items else [json])
  {
  }

  lemma ImportObjectsRaisedStays(env: Env, s: DbState, tableName: string, objs: seq<Value>)
    requires objs != [] && Raised in ImportObjects(env, s, tableName, objs[..|objs| - 1]).0
    ensures ImportObjects(env, s, tableName, objs) == ImportObjects(env, s, tableName, objs[..|objs| - 1])
  {
  }

  /** After an exception the rest of the file is not read. */
  lemma {:induction false} ImportObjectsStopped(env: Env, s: DbState, tableName: string, objs: seq<Value>, k: nat)
    requires k <= |objs| && Raised in ImportObjects(env, s, tableName, objs[..k]).0
    ensures ImportObjects(env, s, tableName, objs) == ImportObjects(env, s, tableName, objs[..k])
    decreases |objs|
  {
    if k < |objs| {
      var init := objs[..|objs| - 1];
      assert init[..k] == objs[..k];
      ImportObjectsStopped(env, s, tableName, init, k);
      ImportObjectsRaisedStays(env, s, tableName, objs);
    } else {
      assert objs[..k] == objs;
    }
  }

  /** Over a whole file, no table is dropped and no row is overwritten. */
  lemma {:induction false} ImportObjectsKeepsRows(env: Env, s: DbState, tableName: string, objs: seq<Value>)
    ensures var s' := ImportObjects(env, s, tableName, objs).1;
            forall n :: n in s.tables ==> n in s'.tables && Grows(s.tables[n], s'.tables[n])
  {
    if objs != [] {
      var init := objs[..|objs| - 1];
      var prev := ImportObjects(env, s, tableName, init);
      ImportObjectsKeepsRows(env, s, tableName, init);
      ImportObjectsStep(env, s, tableName, objs);
      if Raised !in prev.0 {
        var s1 := prev.1;
        var s2 := ImportObject(env, s1, tableName, objs[|objs| - 1]).1;
        ImportObjectKeepsRows(env, s1, tableName, objs[|objs| - 1]);
        forall n | n in s.tables ensures n in s2.tables && Grows(s.tables[n], s2.tables[n]) {
          GrowsTransitive(s.tables[n], s1.tables[n], s2.tables[n]);
        }
      }
    }
  }

  /** Every table an object of the file was committed to is there at the
      end of the file. */
  lemma {:induction false} ImportObjectsTablesExist(env: Env, s: DbState, tableName: string, objs: seq<Value>)
    ensures var (os, s') := ImportObjects(env, s, tableName, objs);
            forall k :: 0 <= k < |os| && os[k].Imported? ==> os[k].table in s'.tables
  {
    if objs != [] {
      var init := objs[..|objs| - 1];
      var prev := ImportObjects(env, s, tableName, init);
      ImportObjectsTablesExist(env, s, tableName, init);
      ImportObjectsStep(env, s, tableName, objs);
      if Raised !in prev.0 {
        var obj := objs[|objs| - 1];
        var next := ImportObject(env, prev.1, tableName, obj);
        ImportObjectKeepsRows(env, prev.1, tableName, obj);
        if next.0.Imported? {
          ImportedTableExists(env, prev.1, tableName, obj);
        }
      }
    }
  }

  lemma GrowsTransitive(a: Table, b: Table, c: Table)
    requires Grows(a, b) && Grows(b, c)
    ensures Grows(a, c)
  {
  }

  /** A committed object's table is in the database afterwards. */
  lemma ImportedTableExists(env: Env, s: DbState, tableName: string, obj: Value)
    requires ImportObject(env, s, tableName, obj).0.Imported?
    ensures ImportObject(env, s, tableName, obj).0.table in ImportObject(env, s, tableName, obj).1.tables
  {
    var (id, cols) := IdAndColumnNames(obj).value;
    var name := TargetName(env, s, tableName, cols);
    TransactionShape(env, s.tables, s.registry, name, ColumnNamesHash(env.md5, cols), id, cols, obj);
  }
}
