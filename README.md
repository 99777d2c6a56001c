# chatgpt-tool, modelled in Dafny

chatgpt-tool imports ChatGPT export files (JSON) into a SQLite database and reads
conversations back out of it. This project models the part of the tool that
decides what ends up in the database, and the part that rebuilds a
conversation's transcript:

- `get_table_name`: a file path becomes a table name (module `TableNames`).
- The column fingerprint: MD5 of the sorted, concatenated column names
  (`Sorting`, `Schema`).
- `get_versioned_table_name`: it probes `name`, `name_v2`, `name_v3`, … against the
  existing tables, the in-memory `schema_cache` and the `schema` registry table
  (`Schema`, `Tool`).
- `get_id_and_column_names`, `create_table`, `insert_data` and
  `convert_values`: the record shape and the SQL text (`Statements`).
- SQLite itself, as abstract state. A table is its columns, its primary-key
  columns and its rows keyed by that key. `INSERT OR IGNORE` keeps the first
  row for a key (`Sql`).
- `import_json_data_to_sqlite` and `import_single_json_object`. Each object
  gets its own BEGIN/COMMIT, or ROLLBACK on error. They are modelled twice:
  - as functions over a database state, with the lemmas (`Importer`);
  - as the `ChatGptTool` class, whose methods update the tables, the registry
    and the cache in place, each proved equal to those functions (`Tool`).
- `get_conversation_messages`: it walks parent links from `current_node`,
  keeps the text messages and reverses the list (`Transcript`).
- `truncate_string` (`Text`).
- The older importer in the root `chatgpt_tool.py`. It gives every file its own
  table `data_<i>`, skips files that are empty or have no `id` key, and commits
  once at the end. It also models Python `sqlite3`'s implicit transactions
  (`Legacy`).

Some things are parameters instead of definitions, collected in `Importer.Env`:
- MD5 on strings;
- SQLite's verdict on a statement's text (syntax errors, duplicate columns,
  reserved words);
- Python's `str` of floats and containers.

A JSON document is a `Json.Value` whose objects keep their keys in
document order, as a Python `dict` does.

## Model

| member | source | states |
|---|---|---|
| TableNames.TableName | src/chatgpt_tool.py:162-172 | the name holds only ASCII letters, digits and `_`, neither begins nor ends with `_`, and is `TABLE_MAPPING[stem]` when the sanitized stem is mapped, the stem otherwise |
| TableNames.StripShape | src/chatgpt_tool.py:169 | `strip("_")` removes only underscores, only from the two ends, and leaves no underscore at either end |
| TableNames.SuggestedName | src/chatgpt_tool.py:163-169 | the sanitized, stripped stem of the base name has only name characters and no `_` at either end |
| TableNames.StripValid | src/chatgpt_tool.py:167-169 | stripping underscores from a string of name characters leaves only name characters and no `_` at either end |
| TableNames.ChatHtmlIsConversations | src/chatgpt_tool.py:35-38 | `data/chat.html` is imported into `conversations` |
| TableNames.Sanitize | src/chatgpt_tool.py:167-168 | the length is kept, every name character stays where it was, every other character becomes `_`, so the result holds only name characters |
| Sorting.Sort | src/chatgpt_tool.py:511 | `sorted` returns a permutation of its input |
| Sorting.SortSorted | src/chatgpt_tool.py:511 | `sorted` returns the names in code-point order |
| Sorting.SortedUnique | src/chatgpt_tool.py:511 | two ordered permutations of the same names are equal |
| Sorting.SortPermutationInvariant | src/chatgpt_tool.py:511 | lists that are permutations of each other sort to the same list |
| Sorting.StrLeTransitive | src/chatgpt_tool.py:511 | Python's string order is transitive (with `StrLeTotal` and `StrLeAntisymmetric`, a total order) |
| Sorting.StrLeTotal | src/chatgpt_tool.py:511 | any two strings are ordered one way or the other |
| Sorting.StrLeAntisymmetric | src/chatgpt_tool.py:511 | strings ordered both ways are equal |
| Schema.ColumnNamesHash | src/chatgpt_tool.py:509-512 | the fingerprint of no columns is MD5 of the empty string |
| Schema.ColumnNamesHashPermutation | src/chatgpt_tool.py:509-512 | column lists that are permutations of each other have the same fingerprint |
| Schema.ColumnNamesHashCollision | src/chatgpt_tool.py:511-512 | `["ab","c"]` and `["a","bc"]` have the same fingerprint, because names are joined without a separator |
| Schema.CandidateInjective | src/chatgpt_tool.py:176-188 | different versions probe different names (`name`, `name_v2`, …) |
| Schema.RegistryLookup | src/chatgpt_tool.py:448-486 | `query_single_value` on the registry reads the hash of the first row for the name; an empty name drops the WHERE clause and reads the first row of the table; no row gives `None` |
| Schema.RegistryLookupAppend | src/chatgpt_tool.py:506-507 | a row appended to the registry changes what a name reads only when that name had no row before |
| Schema.ResolutionUnique | src/chatgpt_tool.py:180-188 | the version where probing stops is unique |
| Schema.ProbingBounded | src/chatgpt_tool.py:180-188 | probing passes only existing tables, so it passes at most as many versions as there are tables |
| Schema.StillProbing | src/chatgpt_tool.py:180-188 | a version that does not stop the loop names an existing table, so the loop has passed no more versions than there are tables |
| Schema.Resolve | src/chatgpt_tool.py:174-189 | the version returned is where the loop stops: a free name, or one whose fingerprint matches in the cache or the registry; every smaller version is an existing table with another fingerprint; the version is at most one more than the number of tables |
| Tool.ChatGptTool.VersionedTableName | src/chatgpt_tool.py:174-189 | the loop returns the fingerprint and the resolved name; it adds a cache entry, holding that fingerprint, only for an existing table; tables and registry are unchanged |
| Tool.ChatGptTool.TableExists | src/chatgpt_tool.py:443-446 | true exactly for a user table or the `schema` table |
| Tool.ChatGptTool.CreateTable | src/chatgpt_tool.py:318-337 | the statement succeeds exactly when SQLite accepts the text `create_table` builds and some column is declared; an existing table is left as it is; otherwise the new table has the declared columns and key and no rows |
| Tool.ChatGptTool.RecordSchemaChange | src/chatgpt_tool.py:506-507 | appends exactly the row (fingerprint, name, comma-joined columns) |
| Tool.ChatGptTool.InsertDataSingle | src/chatgpt_tool.py:345-351 | succeeds exactly when the table exists, the value is a dict and the insert is accepted; only that table changes |
| Tool.ChatGptTool.CreateAndInsert | src/chatgpt_tool.py:298-303 | for a table that does not exist: CREATE, the registry row and the insert succeed together exactly when the transaction function commits, and then leave its tables and registry |
| Tool.ChatGptTool.Transact | src/chatgpt_tool.py:294-306 | commits exactly what the transaction function computes, or restores tables and registry after an error |
| Tool.ChatGptTool.ImportSingleJsonObject | src/chatgpt_tool.py:292-306 | the outcome and new state are those of `Importer.ImportObject`, and the database stays consistent |
| Tool.ChatGptTool.ImportJsonDataToSqlite | src/chatgpt_tool.py:275-290 | the outcomes and new state are those of `Importer.ImportJsonData`, and the database stays consistent |
| Statements.FirstIdKey | src/chatgpt_tool.py:314 | the id field is the first key whose lower case is `id`, and `None` exactly when no key is |
| Statements.IdAndColumnNames | src/chatgpt_tool.py:308-316 | a list is read through its first element, and an empty list gives `(None, [])`; the columns are the keys in order; the id is an id-like key, and `None` exactly when there is none; anything but a dict raises |
| Statements.OtherColumnsMembers | src/chatgpt_tool.py:325-327 | a column is declared besides the id exactly when its lower case differs from the id's |
| Statements.OtherColumnsDistinct | src/chatgpt_tool.py:325-327 | distinct keys give distinct declared columns |
| Statements.DeclaredColumnsOnce | src/chatgpt_tool.py:318-333 | every declared column is declared once, and the key columns are among them; with an id, the declared columns are exactly the id and the keys that differ from it in lower case |
| Statements.ColumnDefsDeclare | src/chatgpt_tool.py:318-333 | the id comes first as `TEXT PRIMARY KEY` and every other column follows as `TEXT`; without an id every key is `TEXT` and the last definition is `PRIMARY KEY (<all keys>)` |
| Statements.CreateTableQueryShape | src/chatgpt_tool.py:318-334 | the statement starts with `CREATE TABLE IF NOT EXISTS <name> (`, ends with `)`, and has no comma before that parenthesis |
| Statements.ColumnDefsEnd | src/chatgpt_tool.py:321-333 | the last column definition is never empty and never ends in a comma, so `rstrip(',')` cannot eat into it |
| Statements.BuildCreateTableQuery | src/chatgpt_tool.py:318-334 | the `+=`/`rstrip` loop builds exactly the statement `CreateTableQuery` describes |
| Statements.AppendTextColumns | src/chatgpt_tool.py:325-327 | the loop appends `<column> TEXT,` for each column kept, in order |
| Statements.PlaceholdersShape | src/chatgpt_tool.py:349-350 | the placeholders are `n` question marks separated by single commas: `?` at every even position, `,` at every odd one, length `2n-1` |
| Statements.ConvertValues | src/chatgpt_tool.py:353-365 | one value per key, in key order; str, int, float and bool pass through; anything else becomes its `str` |
| Statements.StringifiedValues | chatgpt_tool.py:155-159 | the older importer binds every value as text, one per key in key order, and a string value exactly as the newer importer binds it |
| Statements.StringifiedScalars | chatgpt_tool.py:155-159 | `str` turns `None`, `True` and `False` into their names and an int into decimal text that reads back as the same int |
| Sql.InsertOrIgnore | src/chatgpt_tool.py:349-351 | the insert succeeds exactly when the value count matches, every column exists and every int parameter fits SQLite's 64-bit INTEGER; it adds the row's key and never changes a row already present, so the first write of a key wins |
| Sql.InsertOrIgnoreIdempotent | src/chatgpt_tool.py:349-351 | inserting the same row again changes nothing |
| Sql.RowFor | src/chatgpt_tool.py:349-351 | the stored row has exactly the table's columns |
| Importer.Existing | src/chatgpt_tool.py:443-446 | `table_exists` also answers yes for the `schema` table |
| Importer.TransactionShape | src/chatgpt_tool.py:294-303 | a committed transaction changes only the target table, and appends a registry row exactly when it created that table |
| Importer.TargetIsConsistent | src/chatgpt_tool.py:180-186 | on a consistent database, probing stops at an existing name only when that user table's registry row has the same fingerprint |
| Importer.TargetAt | src/chatgpt_tool.py:174-189 | the version where probing stops names the chosen table, and the cache gains that name's fingerprint exactly when the table exists |
| Importer.CacheUpdateConsistent | src/chatgpt_tool.py:184-186 | caching a fingerprint read from the registry keeps the database consistent |
| Importer.CreateCommitConsistent | src/chatgpt_tool.py:298-300 | creating a table together with its registry row keeps the database consistent |
| Importer.ImportObjectConsistent | src/chatgpt_tool.py:292-306 | importing an object keeps the database consistent, whatever the outcome |
| Importer.ImportObjectEffects | src/chatgpt_tool.py:292-306 | an object without a dict shape raises and changes nothing; a rollback keeps tables and registry; the cache only gains entries holding the object's fingerprint; a commit lands in the resolved table, which then exists, and records a schema row exactly when it created that table |
| Importer.InsertObjectGrows | src/chatgpt_tool.py:345-351 | an insert keeps the table's columns, key and rows |
| Importer.InsertObjectOutOfRange | src/chatgpt_tool.py:345-358 | an int field outside the signed 64-bit range makes the insert raise |
| Importer.ImportObjectOutOfRangeRollsBack | src/chatgpt_tool.py:292-306 | an object with such an int field is rolled back and leaves tables and registry unchanged |
| Importer.ImportObjectKeepsRows | src/chatgpt_tool.py:292-306 | importing an object loses or alters no table or row |
| Importer.ResolutionAfterImport | src/chatgpt_tool.py:174-189 | after a committed import, the same columns resolve to the same table |
| Importer.ResolutionKept | src/chatgpt_tool.py:174-189 | a database that kept every table and gained only the stopping version's fingerprint stops the probe at the same version |
| Importer.InsertObjectIdempotent | src/chatgpt_tool.py:345-351 | inserting the same object again changes nothing |
| Importer.TransactionHoldsObject | src/chatgpt_tool.py:294-304 | after a committed transaction the target table already holds the object |
| Importer.ImportIntoHoldingTable | src/chatgpt_tool.py:292-306 | an object already held by the table it resolves to imports there again without changing tables or registry |
| Importer.ReimportChangesNoTable | src/chatgpt_tool.py:292-306 | importing the same object twice: the second import lands in the same table and changes no table and no registry row |
| Importer.ImportJsonDataCases | src/chatgpt_tool.py:275-281 | falsy data imports nothing; a single value is imported as a one-element list |
| Importer.ImportObjects | src/chatgpt_tool.py:286-287 | one outcome per object until the first exception, which ends the file |
| Importer.ImportObjectsConsistent | src/chatgpt_tool.py:286-287 | a whole file keeps the database consistent |
| Importer.ImportObjectsKeepsRows | src/chatgpt_tool.py:286-287 | a whole file loses or alters no table or row |
| Importer.ImportObjectsTablesExist | src/chatgpt_tool.py:286-287 | every table an object was committed to exists at the end of the file |
| Importer.ImportObjectsStopped | src/chatgpt_tool.py:286-287 | once an object raised, the objects after it change nothing |
| Importer.ImportedTableExists | src/chatgpt_tool.py:292-306 | a committed object's table exists afterwards |
| Transcript.Get | src/chatgpt_tool.py:792-802 | `dict.get` finds a value exactly for a present key, and that value belongs to the key |
| Transcript.TextMessageIsEntry | src/chatgpt_tool.py:793-801 | a node whose message has an author with a role and a `text` content with non-empty parts yields the entry (id, role, `create_time` or 0, first item of a list of parts or first character of a string) |
| Transcript.EntryOfIsTextMessage | src/chatgpt_tool.py:793-801 | every entry kept comes from such a text message: a message or content that is not a dict never yields one |
| Text.OccursAt | src/chatgpt_tool.py:795 | Python's substring test `t in s` holds exactly when some slice of `s` is `t` |
| Transcript.In | src/chatgpt_tool.py:793-799 | Python `in` is a key test on a dict, a substring test on a string (some slice equals the key), an element test on a list, and raises on anything else |
| Transcript.SequenceMessageSkippedOrRaises | src/chatgpt_tool.py:795-796 | a string or list message yields nothing: it raises exactly when both `author` and `content` occur in it (as substrings, as items), and is skipped otherwise |
| Transcript.NonDictContentSkippedOrRaises | src/chatgpt_tool.py:798-799 | a content that is not a dict yields nothing: a string or list raises exactly when `content_type` occurs in it, any other value raises always |
| Transcript.StringMessageSkipped | src/chatgpt_tool.py:791-804 | a node whose message is the string `hi` is skipped and the transcript is empty |
| Transcript.ChainLinks | src/chatgpt_tool.py:790-802 | each node on the walked chain is followed by its parent |
| Transcript.CollectIsChainEntries | src/chatgpt_tool.py:790-802 | the walk collects the entries of the chain's nodes, leaf first |
| Transcript.CollectBoundIrrelevant | src/chatgpt_tool.py:790-802 | the result of the walk does not depend on the bound used to show it ends |
| Transcript.EntriesOnChain | src/chatgpt_tool.py:790-802 | every entry's id is on the chain |
| Transcript.MessagesRootFirst | src/chatgpt_tool.py:775-804 | the transcript is the chain's entries reversed, root first, and every entry's id lies on the parent chain of `current_node` |
| Transcript.GetConversationMessages | src/chatgpt_tool.py:775-804 | the loop returns the reversed collection; a missing or empty mapping gives `[]` (the conversation is taken to have an `id`) |
| Transcript.SelfParentNeverEnds | src/chatgpt_tool.py:790-802 | a node that is its own parent makes the loop run forever |
| Transcript.DanglingParentRaises | src/chatgpt_tool.py:792-802 | a text message whose parent is missing from the mapping makes the walk raise |
| Transcript.CollectTolerantSound | src/chatgpt_tool.py:790-802 | the corrected walk never raises for a missing node, and agrees with the walk as written whenever that one does not raise |
| Transcript.DanglingParentTolerated | src/chatgpt_tool.py:790-802 | on the dangling-parent example the corrected walk keeps the message |
| Text.TruncateString | src/chatgpt_tool.py:644-647 | a string no longer than the bound is unchanged; a longer one becomes its first `max-3` characters and `...`, exactly `max` long when `max >= 3`; the older `truncate_string` in `chatgpt_tool.py:228-231` has the same body |
| Text.RStrip | src/chatgpt_tool.py:330 | `rstrip(',')` removes only trailing commas, and leaves none |
| Text.LStrip | src/chatgpt_tool.py:169 | `lstrip("_")` removes only leading underscores, and leaves none |
| Text.NatToStringInjective | chatgpt_tool.py:116 | different numbers print differently |
| Legacy.FileTableName | chatgpt_tool.py:116 | the table of a file is `data_` followed by its index |
| Legacy.FileTableNamesDistinct | chatgpt_tool.py:113-116 | different files never share a table |
| Legacy.CreateIfMissing | chatgpt_tool.py:143-150 | `IF NOT EXISTS` leaves an existing table as it is; a new table is committed at once when no transaction is open |
| Legacy.ExecCreate | chatgpt_tool.py:143-150 | the CREATE succeeds exactly when SQLite accepts the text of `create_table` with that id |
| Legacy.InsertRow | chatgpt_tool.py:155-157 | the insert succeeds exactly when the table exists and `INSERT OR IGNORE` does; it changes only that table and opens the transaction |
| Legacy.ExecInsert | chatgpt_tool.py:153-164 | an insert commits nothing, leaves a transaction open, and changes only its own table |
| Legacy.InsertItems | chatgpt_tool.py:153-157 | the item loop inserts every item in order and raises at the first item that is not a dict or not accepted |
| Legacy.InsertAllHoldsItems | chatgpt_tool.py:153-157 | after the list branch every item's key is in the table, and the table keeps its columns and key |
| Legacy.ImportFile | chatgpt_tool.py:118-164 | a file is skipped as empty exactly when its data is falsy; it is skipped for lacking an id exactly when the first object, or the single object, has no id-like key; a skipped file changes nothing; the column-count skip never happens; an imported file went into `data_<i>`, which then exists |
| Legacy.ImportOneFile | chatgpt_tool.py:118-164 | the loop body does what `ImportFile` describes |
| Legacy.RunFromShape | chatgpt_tool.py:113-164 | the loop reports each file until the first exception; a skip never ends it |
| Legacy.ImportAllReports | chatgpt_tool.py:113-164 | at most one report per file; every file is reported when nothing raised; otherwise the last report is the only exception |
| Legacy.RunFromReportsEachFile | chatgpt_tool.py:113-120 | the `k`-th report is what the `k`-th file did, under the index `k` |
| Legacy.ExecCreateSound | chatgpt_tool.py:143-150 | a CREATE keeps every table and row the connection had, committed or not |
| Legacy.ExecInsertSound | chatgpt_tool.py:155-164 | an insert keeps every table and row, and commits nothing |
| Legacy.InsertAllSound | chatgpt_tool.py:153-157 | the list branch keeps every table and row, and commits nothing |
| Legacy.ImportFileSound | chatgpt_tool.py:118-164 | one file keeps every committed table and row |
| Legacy.RunFromSound | chatgpt_tool.py:113-164 | the loop keeps every committed table and row |
| Legacy.ImportAllKeeps | chatgpt_tool.py:109-167 | whether or not the run raised, every table of the database before it is still there with its columns, key and rows |
| Legacy.ImportJsonDataToSqlite | chatgpt_tool.py:109-167 | the reports and the database afterwards are those of `ImportAll`: the connection's state after `commit()`, or only the committed state when an exception ended the run |

## Left out

- File and terminal I/O: `traverse_files`, `process_file`, reading and
  parsing files, printing, the CLI, `get_terminal_size`. The older importer
  takes each file as already parsed. `None` stands for a file that could not
  be opened or parsed, which raises.
- HTML extraction (`extract_json_from_html`, `extract_json_from_html_re`).
  These are calls into other libraries.
- Querying, printing and export (`print_tables`, `info`, the export
  functions, `get_matching_conversation_ids`).
- `datetime` handling in `convert_values`. JSON never produces a `datetime`.
- `infer_id_field_name`, `is_old_column_name` and `build_new_column_name`. They
  are not on the import path.
- MD5, SQLite's judgement of statement text, and Python's `repr` of floats and
  containers. They are parameters of the model, not definitions.
- SQLite details the abstract tables do not reproduce:
  - column affinity (every value is stored as it is bound);
  - NULLs in a primary key count as one key here, while SQLite treats them as
    distinct;
  - rowid order of the `schema` table is taken as insertion order.
- Sql.InsertOrIgnore compares column names case-sensitively, while SQLite
  ignores their case. An object `{"ID": "x", "id": "y"}` creates a table
  whose only column is `ID`. SQLite accepts the insert that names `ID,id`;
  the model fails with `UnknownColumn`, so Importer.ImportObject reports
  `RolledBack` where the source imports the row. In the older importer, a
  list item whose keys differ in case from the first item's (`name`, then
  `Name`) makes Legacy.ImportAll report `Raised` and drop the uncommitted
  tables, where the source goes on.
- Importer.CreateTable treats table names case-sensitively. Importer.Existing
  does so too, as `table_exists` does with `name=?`. A file whose table name
  is `users`, read after a table `Users` exists, therefore reaches
  `create_table`, and gets a new table `users` here. In SQLite
  `CREATE TABLE IF NOT EXISTS users` does nothing, so the rows go into
  `Users` and the registry row recorded for `users` describes `Users`.
- Statements.FirstIdKey and Statements.OtherColumns use ASCII lower case.
  Python's `str.lower` is Unicode-aware and is not modelled.
- Schema.RegistryLookup reads the registry through the importing
  connection. `query_single_value` opens a second connection, which sees
  only committed rows; the second connection is not modelled. Both read
  the same rows: the lookup runs before the transaction writes its own
  registry row, and every earlier transaction has already committed or
  rolled back.
- Transcript.GetConversationMessages requires the parent chain to end. A
  mapping with a cycle makes the source loop forever, which
  Transcript.SelfParentNeverEnds shows.
- Transcript.GetConversationMessages assumes that the conversation has an
  `id` and a `current_node` and that its mapping evaluates to a dict. The
  source raises `KeyError` at src/chatgpt_tool.py:777 when `id` is missing
  on the empty-mapping path, and at line 790 when `current_node` is
  missing. A mapping column that holds the text `None` (what `str` stores
  for a JSON null) is truthy, evaluates to `None`, and `.get` on it raises
  at line 792.
- Transcript.GetConversationMessages takes the mapping as already parsed.
  `ast.literal_eval` is not modelled. A malformed mapping raises in the
  source, because the `except` clause catches only `JSONDecodeError`.
- Transcript.Step treats a node that is present but is not a dict as
  malformed (an exception).
- Json.Value holds a float as a `real`, so it has no `NaN`, `Infinity` or
  `-Infinity`, which Python's `json` module accepts.
- Legacy.ImportOneFile leaves out the single-object column-count check.
  Both counts come from the same dict, so the check never fires;
  Legacy.ImportFile keeps it and proves that.

## Findings

| source | as written | input that shows it | evidently intended | confidence | as-written member | corrected member |
|---|---|---|---|---|---|---|
| src/chatgpt_tool.py:792-802 | `current_node = node.get("parent")` runs even when `mapping.get(current_node)` returned `None`, although line 793 guards `if node` | a mapping whose only node `a` is a text message with parent `b`, and no node `b` | a parent missing from the mapping ends the walk like a root, and the messages already collected are returned | not executed | Transcript.DanglingParentRaises | Transcript.CollectTolerantSound |
