/** The schema registry of the importer: the column-name fingerprint, the
    `schema` table's rows, and the probing of `name`, `name_v2`, `name_v3`,
    ... that `get_versioned_table_name` performs. */
module Schema {
  import opened Base
  import opened Text
  import opened Sorting

  /** A row of the `schema` table: (hash_value, table_name, column_names). */
  datatype SchemaRow = SchemaRow(hash: string, tableName: string, columnNames: string)

  /** `calculate_column_names_hash`: MD5 of the sorted names concatenated
      without separator. MD5 itself is a parameter. */
  function ColumnNamesHash(md5: string -> string, cols: seq<string>): (h: string)
    ensures cols == [] ==> h == md5("")
  {
    md5(Join(Sort(cols), ""))
  }

  /** The fingerprint ignores the order of the column names. */
  lemma ColumnNamesHashPermutation(md5: string -> string, a: seq<string>, b: seq<string>)
    requires multiset(a) == multiset(b)
    ensures ColumnNamesHash(md5, a) == ColumnNamesHash(md5, b)
  {
    SortPermutationInvariant(a, b);
  }

  /** Names are concatenated without a separator, so different column sets
      can share a fingerprint. */
  lemma ColumnNamesHashCollision(md5: string -> string)
    ensures ColumnNamesHash(md5, ["ab", "c"]) == ColumnNamesHash(md5, ["a", "bc"])
  {
    SortedHashesInOrder(md5, ["ab", "c"]);
    SortedHashesInOrder(md5, ["a", "bc"]);
    assert Join(["ab", "c"], "") == "abc" by { assert ["ab", "c"][1..] == ["c"]; }
    assert Join(["a", "bc"], "") == "abc" by { assert ["a", "bc"][1..] == ["bc"]; }
  }

  /** Already ordered names are hashed as given. */
  lemma SortedHashesInOrder(md5: string -> string, cols: seq<string>)
    requires |cols| == 2 && cols[0] != [] && cols[1] != [] && cols[0][0] < cols[1][0]
    ensures ColumnNamesHash(md5, cols) == md5(Join(cols, ""))
  {
    assert StrLe(cols[0], cols[1]);
    SortSorted(cols);
    SortedUnique(Sort(cols), cols);
  }

  /** The name probed at `version`: the base name, then `name_v2`, ... */
  function Candidate(name: string, version: nat): string
  {
    if version <= 1 then name else name + "_v" + NatToString(version)
  }

  /** Distinct versions probe distinct names. */
  lemma CandidateInjective(name: string, a: nat, b: nat)
    requires 1 <= a && 1 <= b && Candidate(name, a) == Candidate(name, b)
    ensures a == b
  {
    if a >= 2 && b >= 2 {
      var pa := name + "_v";
      assert Candidate(name, a)[|pa|..] == NatToString(a);
      assert Candidate(name, b)[|pa|..] == NatToString(b);
      NatToStringInjective(a, b);
    }
  }

  /** `query_single_value("schema", "table_name", name, "hash_value")`: the
      hash of the first registry row for `name`; an empty name is falsy, so
      the condition is dropped and the first row of the table is read. */
  function RegistryLookup(registry: seq<SchemaRow>, name: string): (r: Option<string>)
    ensures r.None? <==> forall i :: 0 <= i < |registry| ==> name != "" && registry[i].tableName != name
    ensures r.Some? ==> exists i :: 0 <= i < |registry| && registry[i].hash == r.value &&
                                    (name == "" || registry[i].tableName == name)
  {
    if registry == [] then None
    else if name == "" || registry[0].tableName == name then Some(registry[0].hash)
    else RegistryLookup(registry[1..], name)
  }

  /** A row appended for another table does not change what a name that
      already has a row reads, nor what a name without row reads. */
  lemma RegistryLookupAppend(registry: seq<SchemaRow>, row: SchemaRow, name: string)
    requires name != ""
    ensures RegistryLookup(registry + [row], name) ==
            if RegistryLookup(registry, name).Some? || row.tableName != name then RegistryLookup(registry, name)
            else Some(row.hash)
  {
    if registry != [] {
      assert (registry + [row])[1..] == registry[1..] + [row];
      RegistryLookupAppend(registry[1..], row, name);
    }
  }

  /** The loop of `get_versioned_table_name` stops at a candidate that is
      not a table, or whose hash matches in the cache or in the registry. */
  predicate Stops(existing: set<string>, cache: map<string, string>, registry: seq<SchemaRow>,
                  cand: string, hash: string)
  {
    cand !in existing || (cand in cache && cache[cand] == hash) || RegistryLookup(registry, cand) == Some(hash)
  }

  /** `version` is where the probing stops: it stops there and at no
      smaller version. */
  predicate IsResolution(existing: set<string>, cache: map<string, string>, registry: seq<SchemaRow>,
                         name: string, hash: string, version: nat)
  {
    && 1 <= version
    && Stops(existing, cache, registry, Candidate(name, version), hash)
    && forall j :: 1 <= j < version ==> !Stops(existing, cache, registry, Candidate(name, j), hash)
  }

  lemma ResolutionUnique(existing: set<string>, cache: map<string, string>, registry: seq<SchemaRow>,
                         name: string, hash: string, v: nat, w: nat)
    requires IsResolution(existing, cache, registry, name, hash, v)
    requires IsResolution(existing, cache, registry, name, hash, w)
    ensures v == w
  {
  }

  /** The names probed at versions 1 to k. */
  function Probed(name: string, k: nat): set<string>
  {
    if k == 0 then {} else Probed(name, k - 1) + {Candidate(name, k)}
  }

  lemma {:induction false} ProbedHas(name: string, k: nat, j: nat)
    requires 1 <= j <= k
    ensures Candidate(name, j) in Probed(name, k)
  {
    if j < k {
      ProbedHas(name, k - 1, j);
    }
  }

  lemma {:induction false} ProbedLacks(name: string, k: nat, m: nat)
    requires k < m
    ensures Candidate(name, m) !in Probed(name, k)
  {
    if k > 0 {
      ProbedLacks(name, k - 1, m);
      if Candidate(name, m) == Candidate(name, k) {
        CandidateInjective(name, m, k);
      }
    }
  }

  lemma {:induction false} ProbedSize(name: string, k: nat)
    ensures |Probed(name, k)| == k
  {
    if k > 0 {
      ProbedSize(name, k - 1);
      ProbedLacks(name, k - 1, k);
    }
  }

  lemma {:induction false} ProbedWithin(name: string, k: nat, c: string)
    requires c in Probed(name, k)
    ensures exists j :: 1 <= j <= k && c == Candidate(name, j)
  {
    if c != Candidate(name, k) {
      ProbedWithin(name, k - 1, c);
    }
  }

  /** Every version probed before stopping names an existing table, so
      probing stops within `|existing| + 1` versions. */
  lemma ProbingBounded(existing: set<string>, name: string, k: nat)
    requires forall j :: 1 <= j <= k ==> Candidate(name, j) in existing
    ensures k <= |existing|
  {
    ProbedSize(name, k);
    forall c | c in Probed(name, k) ensures c in existing {
      ProbedWithin(name, k, c);
    }
    assert |Probed(name, k)| <= |existing| by {
      var p := Probed(name, k);
      assert existing == p + (existing - p);
    }
  }

  /** A version that does not stop the probe names an existing table, so
      there is room for the next one. */
  lemma StillProbing(existing: set<string>, cache: map<string, string>, registry: seq<SchemaRow>,
                     name: string, hash: string, from: nat)
    requires forall j :: 1 <= j <= from ==> !Stops(existing, cache, registry, Candidate(name, j), hash)
    ensures from <= |existing|
  {
    forall j | 1 <= j <= from ensures Candidate(name, j) in existing {
      assert !Stops(existing, cache, registry, Candidate(name, j), hash);
    }
    ProbingBounded(existing, name, from);
  }

  /** The version `get_versioned_table_name` settles on, probing from `from`. */
  function ResolveFrom(existing: set<string>, cache: map<string, string>, registry: seq<SchemaRow>,
                       name: string, hash: string, from: nat): (v: nat)
    requires 1 <= from
    requires forall j :: 1 <= j < from ==> !Stops(existing, cache, registry, Candidate(name, j), hash)
    ensures from <= v && IsResolution(existing, cache, registry, name, hash, v)
    decreases |existing| + 1 - from
  {
    if Stops(existing, cache, registry, Candidate(name, from), hash) then from
    else
      StillProbing(existing, cache, registry, name, hash, from);
      ResolveFrom(existing, cache, registry, name, hash, from + 1)
  }

  function Resolve(existing: set<string>, cache: map<string, string>, registry: seq<SchemaRow>,
                   name: string, hash: string): (v: nat)
    ensures IsResolution(existing, cache, registry, name, hash, v)
    ensures v <= |existing| + 1
  {
    var v := ResolveFrom(existing, cache, registry, name, hash, 1);
    ProbingBounded(existing, name, v - 1);
    v
  }
}
