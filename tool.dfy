/** The importing half of the `ChatGPTTool` class: the database it writes
    to and its `schema_cache`, updated in place one JSON object at a time. */
module Tool {
  import opened Base
  import opened Json
  import opened Text
  import opened Sql
  import opened Statements
  import opened Schema
  import opened TableNames
  import opened Importer

  class ChatGptTool {
    const env: Env
    var tables: map<string, Table>
    var registry: seq<SchemaRow>
    var cache: map<string, string>

    function State(): DbState
      reads this
    {
      DbState(tables, registry, cache)
    }

    ghost predicate Valid()
      reads this
    {
      Consistent(State())
    }

    /** A new database once `create_schema_table` has run, and an empty
        cache. */
    constructor(env: Env)
      ensures Valid() && this.env == env
      ensures State() == DbState(map[], [], map[])
    {
      this.env := env;
      tables := map[];
      registry := [];
      cache := map[];
    }

    /** `table_exists`: a lookup in `sqlite_master`. */
    method TableExists(name: string) returns (b: bool)
      ensures b <==> name in Existing(tables)
    {
      b := name in tables || name == SchemaTable;
    }

    /** `get_versioned_table_name`: probe `name`, `name_v2`, ... until a
        name is free or carries the same fingerprint, first in the cache,
        then in the registry (a hit there is cached). */
    method VersionedTableName(tableName: string, cols: seq<string>) returns (name: string, hash: string)
      modifies this
      ensures hash == ColumnNamesHash(env.md5, cols)
      ensures name == TargetName(env, old(State()), tableName, cols)
      ensures cache == TargetCache(env, old(State()), tableName, cols)
      ensures tables == old(tables) && registry == old(registry)
    {
      hash := ColumnNamesHash(env.md5, cols);
      name := tableName;
      var version := 1;
      ghost var s0 := State();
      ghost var e := Existing(tables);
      var found := TableExists(name);
      while found
        invariant 1 <= version && name == Candidate(tableName, version)
        invariant found <==> name in e
        invariant forall j :: 1 <= j < version ==> !Stops(e, s0.cache, s0.registry, Candidate(tableName, j), hash)
        invariant cache == s0.cache && tables == s0.tables && registry == s0.registry
        decreases |e| + 1 - version
      {
        if name in cache && cache[name] == hash {
          assert cache == s0.cache[name := hash];
          break;
        }
        var hash2 := RegistryLookup(registry, name);
        if hash2 == Some(hash) {
          cache := cache[name := hash];
          break;
        }
        assert !Stops(e, s0.cache, s0.registry, name, hash);
        StillProbing(e, s0.cache, s0.registry, tableName, hash, version);
        version := version + 1;
        name := tableName + "_v" + NatToString(version);
        found := TableExists(name);
      }
      assert IsResolution(e, s0.cache, s0.registry, tableName, hash, version);
      TargetAt(env, s0, tableName, cols, version);
    }

    /** `create_table`: CREATE TABLE IF NOT EXISTS with the statement text
        `create_table` builds. */
    method CreateTable(name: string, id: Option<string>, cols: seq<string>) returns (ok: bool)
      modifies this
      ensures ok == Importer.CreateTable(env, name, id, cols).Success?
      ensures tables == if ok && name !in Existing(old(tables))
                        then old(tables)[name := Importer.CreateTable(env, name, id, cols).value]
                        else old(tables)
      ensures registry == old(registry) && cache == old(cache)
    {
      var q := BuildCreateTableQuery(name, id, cols);
      ok := name != "" && env.accepts(q) && DeclaredColumns(id, cols) != [];
      var found := TableExists(name);
      if ok && !found {
        tables := tables[name := NewTable(id, cols)];
      }
    }

    /** `record_schema_change`: the registry has no key, so the row is
        always appended. */
    method RecordSchemaChange(hash: string, name: string, cols: seq<string>)
      modifies this
      ensures registry == old(registry) + [SchemaRow(hash, name, Join(cols, ","))]
      ensures tables == old(tables) && cache == old(cache)
    {
      registry := registry + [SchemaRow(hash, name, Join(cols, ","))];
    }

    /** `insert_data_single`: `convert_values`, then INSERT OR IGNORE into
        the table; anything but an object fails on `.items()`. */
    method InsertDataSingle(name: string, obj: Value) returns (ok: bool)
      modifies this
      ensures ok == (name in old(tables) && obj.Obj? && InsertObject(env, old(tables)[name], name, obj.fields).Success?)
      ensures tables == if ok then old(tables)[name := InsertObject(env, old(tables)[name], name, obj.fields).value]
                        else old(tables)
      ensures registry == old(registry) && cache == old(cache)
    {
      if name !in tables || !obj.Obj? {
        return false;
      }
      var vals := ConvertValues(env.repr, obj.fields);
      var keys := Keys(obj.fields);
      var q := InsertQuery(name, keys, |vals|);
      if !env.accepts(q) {
        return false;
      }
      var r := InsertOrIgnore(tables[name], keys, vals);
      ok := r.Success?;
      if ok {
        tables := tables[name := r.value];
      }
    }

    /** The path of the transaction where the table is new: CREATE TABLE,
        the registry row, then the insert. Undoing is left to the caller. */
    method CreateAndInsert(name: string, hash: string, id: Option<string>, cols: seq<string>, obj: Value) returns (ok: bool)
      requires name !in Existing(tables)
      modifies this
      ensures var tx := Transaction(env, old(tables), old(registry), name, hash, id, cols, obj);
              ok == tx.Some? && (ok ==> tables == tx.value.0 && registry == tx.value.1)
      ensures cache == old(cache)
    {
      TransactionNew(env, tables, registry, name, hash, id, cols, obj);
      ghost var saved := tables;
      ok := CreateTable(name, id, cols);
      if ok {
        ghost var t0 := Importer.CreateTable(env, name, id, cols).value;
        assert tables == saved[name := t0];
        RecordSchemaChange(hash, name, cols);
        ok := InsertDataSingle(name, obj);
        if ok {
          assert tables == saved[name := InsertObject(env, t0, name, obj.fields).value];
        }
      }
    }

    /** From BEGIN to COMMIT or ROLLBACK, once the versioned name is
        known: create and register the table if it does not exist, insert
        the object; on any error restore tables and registry. */
    method Transact(name: string, hash: string, id: Option<string>, cols: seq<string>, obj: Value) returns (ok: bool)
      requires name in Existing(tables) ==> name in tables
      modifies this
      ensures var tx := Transaction(env, old(tables), old(registry), name, hash, id, cols, obj);
              && ok == tx.Some?
              && (ok ==> tables == tx.value.0 && registry == tx.value.1)
              && (!ok ==> tables == old(tables) && registry == old(registry))
      ensures cache == old(cache)
    {
      var savedTables, savedRegistry := tables, registry;
      var found := TableExists(name);
      if found {
        TransactionExisting(env, tables, registry, name, hash, id, cols, obj);
        ok := InsertDataSingle(name, obj);
      } else {
        ok := CreateAndInsert(name, hash, id, cols, obj);
      }
      if !ok {
        tables, registry := savedTables, savedRegistry;
      }
    }

    /** `import_single_json_object`: the shape is read first (an error
        there escapes), then the versioned name is chosen and the
        transaction runs; a rollback keeps what the cache learned. */
    method ImportSingleJsonObject(tableName: string, obj: Value) returns (outcome: ObjectOutcome)
      requires Valid()
      modifies this
      ensures Valid()
      ensures (outcome, State()) == ImportObject(env, old(State()), tableName, obj)
    {
      ghost var s := State();
      var shape := IdAndColumnNames(obj);
      if shape.Failure? {
        return Raised;
      }
      var id, cols := shape.value.0, shape.value.1;
      ImportObjectByTransaction(env, s, tableName, obj);
      ImportObjectConsistent(env, s, tableName, obj);
      var name, hash := VersionedTableName(tableName, cols);
      TargetIsConsistent(env, s, tableName, cols);
      var ok := Transact(name, hash, id, cols, obj);
      outcome := if ok then Imported(name) else RolledBack;
    }

    /** `import_json_data_to_sqlite`: falsy data is skipped, a single value
        is wrapped in a list, and the objects are imported in order into
        the table named after the file; an exception ends the file. */
    method ImportJsonDataToSqlite(json: Value, path: string) returns (outcomes: seq<ObjectOutcome>)
      requires Valid()
      modifies this
      ensures Valid()
      ensures (outcomes, State()) == ImportJsonData(env, old(State()), json, path)
    {
      ImportJsonDataObjects(env, State(), json, path);
      if !Truthy(json) {
        return [];
      }
      var items := if json.Arr? then json.items else [json];
      var tableName := TableName(path);
      ghost var s0 := State();
      outcomes := [];
      for i := 0 to |items|
        invariant Valid()
        invariant Raised !in outcomes
        invariant (outcomes, State()) == ImportObjects(env, s0, tableName, items[..i])
      {
        ghost var prev := (outcomes, State());
        var o := ImportSingleJsonObject(tableName, items[i]);
        ImportObjectsNext(env, s0, tableName, items, i, prev, o, State());
        outcomes := outcomes + [o];
        if o == Raised {
          return;
        }
      }
      assert items[..|items|] == items;
    }
  }
}
