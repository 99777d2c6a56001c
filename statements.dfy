/** Record shape and SQL text: `get_id_and_column_names`, `create_table`,
    `insert_data` and `convert_values` of the importer. */
module Statements {
  import opened Base
  import opened Json
  import opened Text
  import opened Sql

  /** `.keys()` or `.items()` called on something that is not a dict. */
  datatype ShapeError = NotAnObject

  /** `next((k for k in keys if k.lower() == "id"), None)`. */
  function FirstIdKey(keys: seq<string>): (r: Option<string>)
    ensures r.None? <==> forall k :: k in keys ==> !IsIdName(k)
    ensures r.Some? ==> r.value in keys && IsIdName(r.value)
    ensures r.Some? ==> forall j :: 0 <= j < |keys| && IsIdName(keys[j]) ==> r.value == keys[IndexOfId(keys, j)]
  {
    if keys == [] then None
    else if IsIdName(keys[0]) then Some(keys[0])
    else
      var r := FirstIdKey(keys[1..]);
      assert forall k :: k in keys[1..] ==> k in keys;
      assert forall k :: k in keys ==> k == keys[0] || k in keys[1..];
      r
  }

  /** The position of the first id-like key at or before `j`. */
  function IndexOfId(keys: seq<string>, j: nat): (i: nat)
    requires j < |keys| && IsIdName(keys[j])
    ensures i <= j && IsIdName(keys[i])
    ensures forall m :: 0 <= m < i ==> !IsIdName(keys[m])
  {
    if IsIdName(keys[0]) then 0 else 1 + IndexOfId(keys[1..], j - 1)
  }

  /** The object whose keys decide the table shape: a list uses its first
      element, an empty list an empty dict. */
  function ShapeSource(data: Value): Value
  {
    if data.Arr? then (if data.items != [] then data.items[0] else Obj([])) else data
  }

  /** `get_id_and_column_names`. */
  function IdAndColumnNames(data: Value): (r: Result<(Option<string>, seq<string>), ShapeError>)
    ensures r.Success? <==> ShapeSource(data).Obj?
    ensures data == Arr([]) ==> r == Success((None, []))
    ensures r.Success? ==>
              var keys := Keys(ShapeSource(data).fields);
              r.value.1 == keys &&
              (r.value.0.Some? ==> r.value.0.value in keys && IsIdName(r.value.0.value)) &&
              (r.value.0.None? <==> forall k :: k in keys ==> !IsIdName(k))
  {
    var first := ShapeSource(data);
    if first.Obj? then
      var keys := Keys(first.fields);
      Success((FirstIdKey(keys), keys))
    else Failure(NotAnObject)
  }

  /** The columns declared besides the id: every key whose lower-case form
      differs from the id's, in order. */
  function OtherColumns(id: string, cols: seq<string>): seq<string>
  {
    if cols == [] then []
    else
      var last := cols[|cols| - 1];
      OtherColumns(id, cols[..|cols| - 1]) + (if AsciiLower(last) != AsciiLower(id) then [last] else [])
  }

  lemma {:induction false} OtherColumnsMembers(id: string, cols: seq<string>)
    ensures forall c :: c in OtherColumns(id, cols) <==> c in cols && AsciiLower(c) != AsciiLower(id)
  {
    if cols != [] {
      var init := cols[..|cols| - 1];
      OtherColumnsMembers(id, init);
      assert cols == init + [cols[|cols| - 1]];
    }
  }

  predicate Distinct(s: seq<string>)
  {
    forall i, j :: 0 <= i < j < |s| ==> s[i] != s[j]
  }

  lemma {:induction false} OtherColumnsDistinct(id: string, cols: seq<string>)
    requires Distinct(cols)
    ensures Distinct(OtherColumns(id, cols))
  {
    if cols != [] {
      var init := cols[..|cols| - 1];
      var last := cols[|cols| - 1];
      OtherColumnsDistinct(id, init);
      OtherColumnsMembers(id, init);
      assert last !in init;
    }
  }

  /** The table's columns: the id first, then the other columns; or, with no
      id, every key. */
  function DeclaredColumns(id: Option<string>, cols: seq<string>): seq<string>
  {
    match id
    case Some(i) => [i] + OtherColumns(i, cols)
    case None => cols
  }

  /** The primary key: the id alone, or every column together. */
  function KeyColumns(id: Option<string>, cols: seq<string>): seq<string>
  {
    match id
    case Some(i) => [i]
    case None => cols
  }

  /** What `create_table` leaves in the database. */
  function NewTable(id: Option<string>, cols: seq<string>): Table
  {
    Table(DeclaredColumns(id, cols), KeyColumns(id, cols), map[])
  }

  /** With an id, every column is declared exactly once, the id first, and a
      key is declared exactly when it is the id or differs from it in lower
      case; the key columns are declared columns. */
  lemma DeclaredColumnsOnce(id: Option<string>, cols: seq<string>)
    requires Distinct(cols)
    ensures Distinct(DeclaredColumns(id, cols))
    ensures forall c :: c in KeyColumns(id, cols) ==> c in DeclaredColumns(id, cols)
    ensures id.Some? ==> forall c :: c in DeclaredColumns(id, cols) <==>
                                       c == id.value || (c in cols && AsciiLower(c) != AsciiLower(id.value))
  {
    if id.Some? {
      OtherColumnsMembers(id.value, cols);
      OtherColumnsDistinct(id.value, cols);
      var d := DeclaredColumns(id, cols);
      forall i, j | 0 <= i < j < |d| ensures d[i] != d[j] {
        if i == 0 {
          assert d[j] in OtherColumns(id.value, cols);
        } else {
          assert d[i] == OtherColumns(id.value, cols)[i - 1];
        }
      }
    }
  }

  function TextDefs(cs: seq<string>): (defs: seq<string>)
    ensures |defs| == |cs| && forall k :: 0 <= k < |cs| ==> defs[k] == cs[k] + " TEXT"
  {
    seq(|cs|, k requires 0 <= k < |cs| => cs[k] + " TEXT")
  }

  lemma TextDefsSnoc(cs: seq<string>, c: string)
    ensures TextDefs(cs + [c]) == TextDefs(cs) + [c + " TEXT"]
  {
  }

  /** The comma-separated definitions inside `CREATE TABLE ... ( )`. */
  function ColumnDefs(id: Option<string>, cols: seq<string>): seq<string>
  {
    match id
    case Some(i) => [i + " TEXT PRIMARY KEY"] + TextDefs(OtherColumns(i, cols))
    case None => TextDefs(cols) + ["PRIMARY KEY (" + Join(cols, ",") + ")"]
  }

  const CreatePrefix := "CREATE TABLE IF NOT EXISTS "

  function CreateTableQuery(name: string, id: Option<string>, cols: seq<string>): string
  {
    CreatePrefix + name + " (" + Join(ColumnDefs(id, cols), ",") + ")"
  }

  /** The definitions name the declared columns in order, each as TEXT, and
      the primary key is the id or the compound key of every column. */
  lemma ColumnDefsDeclare(id: Option<string>, cols: seq<string>)
    ensures var defs := ColumnDefs(id, cols);
            var decl := DeclaredColumns(id, cols);
            match id
            case Some(i) =>
              |defs| == |decl| && defs[0] == decl[0] + " TEXT PRIMARY KEY" &&
              forall k :: 1 <= k < |decl| ==> defs[k] == decl[k] + " TEXT"
            case None =>
              |defs| == |decl| + 1 && defs[|decl|] == "PRIMARY KEY (" + Join(KeyColumns(id, cols), ",") + ")" &&
              forall k :: 0 <= k < |decl| ==> defs[k] == decl[k] + " TEXT"
  {
  }

  /** The statement opens with the CREATE clause and the table name, closes
      with `)`, and never leaves a comma before that parenthesis. */
  lemma {:induction false} CreateTableQueryShape(name: string, id: Option<string>, cols: seq<string>)
    ensures var q := CreateTableQuery(name, id, cols);
            var open := CreatePrefix + name + " (";
            |q| >= |open| + 2 && q[..|open|] == open && q[|q| - 1] == ')' && q[|q| - 2] != ','
  {
    var defs := ColumnDefs(id, cols);
    ColumnDefsEnd(id, cols);
    JoinLast(defs, ",");
    var j := Join(defs, ",");
    var open := CreatePrefix + name + " (";
    var q := CreateTableQuery(name, id, cols);
    assert q == open + j + ")";
    assert q[|q| - 2] == j[|j| - 1];
  }

  /** The last definition is never empty and never ends in a comma. */
  lemma ColumnDefsEnd(id: Option<string>, cols: seq<string>)
    ensures var defs := ColumnDefs(id, cols);
            defs != [] && defs[|defs| - 1] != "" && defs[|defs| - 1][|defs[|defs| - 1]| - 1] != ','
  {
    match id
    case Some(i) =>
      var h := i + " TEXT PRIMARY KEY";
      assert h[|h| - 1] == 'Y';
      IdDefsEnd(h, TextDefs(OtherColumns(i, cols)), OtherColumns(i, cols));
    case None =>
      var pk := "PRIMARY KEY (" + Join(cols, ",") + ")";
      assert pk[|pk| - 1] == ')';
  }

  /** The columns `create_table` writes as plain TEXT columns. */
  function TextColumns(id: Option<string>, cols: seq<string>): seq<string>
  {
    if id.Some? then OtherColumns(id.value, cols) else cols
  }

  /** Whether `create_table` writes column `c` as a plain TEXT column. */
  predicate Keeps(id: Option<string>, c: string)
  {
    id.None? || AsciiLower(id.value) != AsciiLower(c)
  }

  lemma TextColumnsSnoc(id: Option<string>, cols: seq<string>, c: string)
    ensures TextColumns(id, cols + [c]) == TextColumns(id, cols) + (if Keeps(id, c) then [c] else [])
  {
    assert (cols + [c])[..|cols|] == cols;
  }

  lemma TerminatedSnoc(parts: seq<string>, x: string, sep: string)
    ensures Terminated(parts + [x], sep) == Terminated(parts, sep) + x + sep
  {
    assert (parts + [x])[..|parts|] == parts;
  }

  /** Without an id the compound key closes the definitions, and
      `rstrip(',')` leaves it alone. */
  lemma CloseWithCompoundKey(open: string, cols: seq<string>)
    ensures var pk := "PRIMARY KEY (" + Join(cols, ",") + ")";
            RStrip(open + Terminated(TextDefs(cols), ",") + pk, ',') ==
            open + Join(ColumnDefs(None, cols), ",")
  {
    var defs := TextDefs(cols);
    var pk := "PRIMARY KEY (" + Join(cols, ",") + ")";
    TerminatedIsJoinPlusSep(defs, ",", pk);
    var t := open + Terminated(defs, ",") + pk;
    assert t == open + (Terminated(defs, ",") + pk);
    assert t[|t| - 1] == ')';
  }

  /** With an id the last definition ends in `KEY` or `TEXT`, so `rstrip(',')`
      removes exactly the comma after it. */
  lemma CloseAfterId(open: string, defs: seq<string>)
    requires defs != []
    requires defs[|defs| - 1] != "" && defs[|defs| - 1][|defs[|defs| - 1]| - 1] != ','
    ensures RStrip(open + Terminated(defs, ","), ',') == open + Join(defs, ",")
  {
    var init := defs[..|defs| - 1];
    var last := defs[|defs| - 1];
    assert defs == init + [last];
    TerminatedIsJoinPlusSep(init, ",", last);
    TerminatedSnoc(init, last, ",");
    JoinLast(defs, ",");
    var body := open + Join(defs, ",");
    assert open + Terminated(defs, ",") == body + ",";
    RStripOne(body, ',');
  }

  lemma {:induction false} TerminatedAppend(a: seq<string>, b: seq<string>, sep: string)
    ensures Terminated(a + b, sep) == Terminated(a, sep) + Terminated(b, sep)
    decreases |b|
  {
    if b == [] {
      assert a + b == a;
    } else {
      var init := b[..|b| - 1];
      var last := b[|b| - 1];
      assert b == init + [last];
      assert a + b == (a + init) + [last];
      TerminatedAppend(a, init, sep);
      TerminatedSnoc(a + init, last, sep);
      TerminatedSnoc(init, last, sep);
      var ta, ti := Terminated(a, sep), Terminated(init, sep);
      assert Terminated(a + b, sep) == ta + ti + last + sep;
      assert ta + ti + last + sep == ta + (ti + last + sep);
    }
  }

  /** A definition list headed by the id's never ends in a comma. */
  lemma IdDefsEnd(h: string, tdefs: seq<string>, cols: seq<string>)
    requires h == [] + h && |h| > 0 && h[|h| - 1] == 'Y'
    requires tdefs == TextDefs(cols)
    ensures var defs := [h] + tdefs;
            defs[|defs| - 1] != "" && defs[|defs| - 1][|defs[|defs| - 1]| - 1] != ','
  {
    var defs := [h] + tdefs;
    if tdefs != [] {
      var last := tdefs[|tdefs| - 1];
      assert defs[|defs| - 1] == last;
      assert last == cols[|cols| - 1] + " TEXT";
      assert last[|last| - 1] == 'T';
    }
  }

  /** With an id: its definition, a comma, the kept columns' definitions
      each followed by a comma, and `rstrip(',')` gives the joined list. */
  lemma CloseIdQuery(open: string, id: string, cols: seq<string>)
    ensures RStrip(open + (id + " TEXT PRIMARY KEY,") + Terminated(TextDefs(TextColumns(Some(id), cols)), ","), ',') ==
            open + Join(ColumnDefs(Some(id), cols), ",")
  {
    var h := id + " TEXT PRIMARY KEY";
    var kept := TextColumns(Some(id), cols);
    var tdefs := TextDefs(kept);
    var defs := ColumnDefs(Some(id), cols);
    var t := Terminated(tdefs, ",");
    assert defs == [h] + tdefs;
    assert Terminated([h], ",") == h + "," by {
      assert [h][..0] == [];
    }
    TerminatedAppend([h], tdefs, ",");
    assert Terminated(defs, ",") == (h + ",") + t;
    assert id + " TEXT PRIMARY KEY," == h + ",";
    assert open + (h + ",") + t == open + Terminated(defs, ",");
    IdDefsEnd(h, tdefs, kept);
    CloseAfterId(open, defs);
  }

  /** One kept column adds its definition and a comma to the text. */
  lemma AppendTextColumn(q0: string, kept: seq<string>, c: string)
    ensures q0 + Terminated(TextDefs(kept + [c]), ",") == (q0 + Terminated(TextDefs(kept), ",")) + (c + " TEXT,")
  {
    TextDefsSnoc(kept, c);
    TerminatedSnoc(TextDefs(kept), c + " TEXT", ",");
    assert (c + " TEXT") + "," == c + " TEXT,";
  }

  /** The loop of `create_table`: each column kept appends its definition
      and a comma. */
  method AppendTextColumns(q0: string, id: Option<string>, cols: seq<string>) returns (q: string)
    ensures q == q0 + Terminated(TextDefs(TextColumns(id, cols)), ",")
  {
    q := q0;
    ghost var kept: seq<string> := [];
    for k := 0 to |cols|
      invariant kept == TextColumns(id, cols[..k])
      invariant q == q0 + Terminated(TextDefs(kept), ",")
    {
      TextColumnsSnoc(id, cols[..k], cols[k]);
      assert cols[..k + 1] == cols[..k] + [cols[k]];
      if Keeps(id, cols[k]) {
        AppendTextColumn(q0, kept, cols[k]);
        q := q + (cols[k] + " TEXT,");
        kept := kept + [cols[k]];
      }
    }
    assert cols[..|cols|] == cols;
  }

  /** `create_table`'s text: the id definition, one `+=` per kept column,
      the compound key when there is no id, then `rstrip(',')` and the
      closing parenthesis. */
  method BuildCreateTableQuery(name: string, id: Option<string>, cols: seq<string>) returns (q: string)
    ensures q == CreateTableQuery(name, id, cols)
  {
    var open := CreatePrefix + name + " (";
    q := open;
    if id.Some? {
      q := open + (id.value + " TEXT PRIMARY KEY,");
    }
    q := AppendTextColumns(q, id, cols);
    if id.None? {
      CloseWithCompoundKey(open, cols);
      q := q + ("PRIMARY KEY (" + Join(cols, ",") + ")");
    } else {
      CloseIdQuery(open, id.value, cols);
    }
    q := RStrip(q, ',');
    q := q + ")";
  }

  /** `','.join(['?'] * n)`. */
  function Placeholders(n: nat): string
  {
    Join(Repeat("?", n), ",")
  }

  /** One `?` per value, separated by single commas. */
  lemma {:induction false} PlaceholdersShape(n: nat)
    ensures Count(Placeholders(n), '?') == n
    ensures n > 0 ==> |Placeholders(n)| == 2 * n - 1
    ensures forall k :: 0 <= k < |Placeholders(n)| ==> Placeholders(n)[k] == (if k % 2 == 0 then '?' else ',')
  {
    if n > 1 {
      PlaceholdersShape(n - 1);
      assert Repeat("?", n)[1..] == Repeat("?", n - 1);
      assert Placeholders(n) == "?," + Placeholders(n - 1);
      CountAppend("?,", Placeholders(n - 1), '?');
    }
  }

  /** `insert_data`'s statement text. */
  function InsertQuery(name: string, cols: seq<string>, n: nat): string
  {
    "INSERT OR IGNORE INTO " + name + " (" + Join(cols, ",") + ") VALUES (" + Placeholders(n) + ")"
  }

  function IntToString(i: int): string
  {
    if i < 0 then "-" + NatToString(-i) else NatToString(i)
  }

  /** Python `str(value)`; floats and containers go through `repr`, which
      the model does not spell out. */
  function PyStr(repr: Value -> string, v: Value): string
  {
    match v
    case Str(s) => s
    case Null => "None"
    case Bool(b) => if b then "True" else "False"
    case Int(i) => IntToString(i)
    case _ => repr(v)
  }

  /** One step of `convert_values`. */
  function ConvertValue(repr: Value -> string, v: Value): Param
  {
    match v
    case Str(s) => PText(s)
    case Int(i) => PInt(i)
    case Float(f) => PReal(f)
    case Bool(b) => PBool(b)
    case _ => PText(PyStr(repr, v))
  }

  function ConvertedValues(repr: Value -> string, fields: seq<(string, Value)>): seq<Param>
  {
    seq(|fields|, k requires 0 <= k < |fields| => ConvertValue(repr, fields[k].1))
  }

  /** `convert_values`: one parameter per key, in key order; strings, ints,
      floats and bools pass through, anything else is stringified. */
  method ConvertValues(repr: Value -> string, fields: seq<(string, Value)>) returns (vals: seq<Param>)
    ensures vals == ConvertedValues(repr, fields)
    ensures |vals| == |fields|
    ensures forall k :: 0 <= k < |fields| ==>
              match fields[k].1
              case Str(s) => vals[k] == PText(s)
              case Int(i) => vals[k] == PInt(i)
              case Float(f) => vals[k] == PReal(f)
              case Bool(b) => vals[k] == PBool(b)
              case _ => vals[k] == PText(PyStr(repr, fields[k].1))
  {
    vals := [];
    for k := 0 to |fields|
      invariant vals == ConvertedValues(repr, fields[..k])
    {
      assert fields[..k + 1][..k] == fields[..k];
      vals := vals + [ConvertValue(repr, fields[k].1)];
    }
    assert fields[..|fields|] == fields;
  }

  /** `tuple(str(value) for value in item.values())` of the older importer:
      every value is bound as text, a string as itself. */
  function StringifiedValues(repr: Value -> string, fields: seq<(string, Value)>): (vals: seq<Param>)
    ensures |vals| == |fields|
    ensures forall k :: 0 <= k < |fields| ==> vals[k].PText?
    ensures forall k :: 0 <= k < |fields| && fields[k].1.Str? ==> vals[k] == ConvertedValues(repr, fields)[k]
  {
    seq(|fields|, k requires 0 <= k < |fields| => PText(PyStr(repr, fields[k].1)))
  }

  /** What `str` makes of the JSON scalars: `None`, `True` and `False`
      become their Python names, and an int becomes decimal text that
      `int()` reads back (after the minus sign of a negative one). */
  lemma StringifiedScalars(repr: Value -> string, fields: seq<(string, Value)>, k: nat)
    requires k < |fields|
    ensures var t := StringifiedValues(repr, fields)[k].s;
            match fields[k].1
            case Null => t == "None"
            case Bool(b) => t == (if b then "True" else "False")
            case Int(i) => if i >= 0 then ParseNat(t) == i else t[0] == '-' && ParseNat(t[1..]) == -i
            case _ => true
  {
    var t := StringifiedValues(repr, fields)[k].s;
    if fields[k].1.Int? {
      var i := fields[k].1.i;
      if i >= 0 {
        NatToStringRoundTrip(i);
      } else {
        assert t[1..] == NatToString(-i);
        NatToStringRoundTrip(-i);
      }
    }
  }
}
