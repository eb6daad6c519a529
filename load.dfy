/** The load stage (etl/load.py): every clean file of the registry is loaded
    into the PostgreSQL database as a table named after its indicator,
    replacing whatever that table held. */
module Load {
  import opened Records

  /** `to_sql(..., if_exists="replace")` on the table store: the named table
      now holds `rows`; the rest of the store is as it was. */
  function Replace(tables: map<string, seq<CleanRecord>>, name: string, rows: seq<CleanRecord>): (t: map<string, seq<CleanRecord>>)
    ensures name in t && t[name] == rows
    ensures forall other :: other != name ==> (other in t <==> other in tables)
    ensures forall other :: other != name && other in tables ==> t[other] == tables[other]
  {
    tables[name := rows]
  }

  /** `process_indicator`: skip a missing clean file, else replace the table
      named `name` with the file's rows. */
  function LoadIndicator(tables: map<string, seq<CleanRecord>>, files: map<string, seq<CleanRecord>>, name: string): (t: map<string, seq<CleanRecord>>)
    ensures name in files ==> name in t && t[name] == files[name]
    ensures forall n :: n != name || name !in files ==> (n in t <==> n in tables) && (n in tables ==> t[n] == tables[n])
  {
    if name in files then Replace(tables, name, files[name]) else tables
  }

  /** The `__main__` loop over `names`, in order. */
  function LoadRun(tables: map<string, seq<CleanRecord>>, files: map<string, seq<CleanRecord>>, names: seq<string>): (t: map<string, seq<CleanRecord>>)
    ensures forall n :: n in t <==> n in tables || (n in names && n in files)
    decreases |names|
  {
    if names == [] then tables
    else
      assert forall n :: n in names <==> n == names[0] || n in names[1..];
      LoadRun(LoadIndicator(tables, files, names[0]), files, names[1..])
  }

  /** The tables the loop replaces, in the order it replaces them. */
  function LoadedNames(files: map<string, seq<CleanRecord>>, names: seq<string>): (loaded: seq<string>)
    ensures |loaded| <= |names|
  {
    if names == [] then []
    else
      var last := names[|names| - 1];
      LoadedNames(files, names[..|names| - 1]) + (if last in files then [last] else [])
  }

  /** The loop replaces exactly the tables that are listed and have a clean
      file. */
  lemma {:induction false} LoadedNamesMembers(files: map<string, seq<CleanRecord>>, names: seq<string>, n: string)
    ensures n in LoadedNames(files, names) <==> n in names && n in files
    decreases |names|
  {
    if names != [] {
      var init := names[..|names| - 1];
      LoadedNamesMembers(files, init, n);
      assert names == init + [names[|names| - 1]];
    }
  }

  /** Loading a table replaces its earlier contents: the previous rows play
      no part in the result. */
  lemma ReplaceDiscardsOld(tables: map<string, seq<CleanRecord>>, name: string, old1: seq<CleanRecord>, old2: seq<CleanRecord>, rows: seq<CleanRecord>)
    ensures Replace(tables[name := old1], name, rows) == Replace(tables[name := old2], name, rows)
    ensures Replace(tables[name := old1], name, rows) == Replace(tables - {name}, name, rows)
  {
  }

  /** Loading the same rows into the same table twice is loading them once. */
  lemma ReplaceIdempotent(tables: map<string, seq<CleanRecord>>, name: string, rows: seq<CleanRecord>)
    ensures Replace(Replace(tables, name, rows), name, rows) == Replace(tables, name, rows)
  {
  }

  /** After the loop, a table named in `names` whose clean file exists holds
      exactly that file's rows; every other table is as it was. */
  lemma {:induction false} LoadRunEffect(tables: map<string, seq<CleanRecord>>, files: map<string, seq<CleanRecord>>, names: seq<string>)
    ensures forall n :: n in names && n in files ==> n in LoadRun(tables, files, names) && LoadRun(tables, files, names)[n] == files[n]
    ensures forall n :: !(n in names && n in files) ==>
      (n in LoadRun(tables, files, names) <==> n in tables) && (n in tables ==> LoadRun(tables, files, names)[n] == tables[n])
    decreases |names|
  {
    if names != [] {
      var mid := LoadIndicator(tables, files, names[0]);
      LoadRunEffect(mid, files, names[1..]);
      assert forall n :: n in names <==> n == names[0] || n in names[1..];
    }
  }

  /** Running the load loop a second time over the same clean files leaves
      the database as the first run left it. */
  lemma LoadRunIdempotent(tables: map<string, seq<CleanRecord>>, files: map<string, seq<CleanRecord>>, names: seq<string>)
    ensures LoadRun(LoadRun(tables, files, names), files, names) == LoadRun(tables, files, names)
  {
    var once := LoadRun(tables, files, names);
    LoadRunEffect(tables, files, names);
    LoadRunEffect(once, files, names);
  }

  /** A registry indicator whose clean file is missing leaves its table, or
      its absence, alone, while the others are still loaded, in order. */
  lemma MissingFileSkipped(tables: map<string, seq<CleanRecord>>, files: map<string, seq<CleanRecord>>)
    requires "selic" !in files && "ipca" in files && "usd" in files
    ensures var t := LoadRun(tables, files, IndicatorNames);
      && ("selic" in t <==> "selic" in tables) && ("selic" in tables ==> t["selic"] == tables["selic"])
      && t["ipca"] == files["ipca"] && t["usd"] == files["usd"]
    ensures LoadedNames(files, IndicatorNames) == ["ipca", "usd"]
  {
    MiddleSkipped(tables, files, "ipca", "selic", "usd");
  }

  /** Three names whose middle one has no clean file. */
  lemma MiddleSkipped(tables: map<string, seq<CleanRecord>>, files: map<string, seq<CleanRecord>>, a: string, b: string, c: string)
    requires a in files && b !in files && c in files
    ensures var t := LoadRun(tables, files, [a, b, c]);
      && (b in t <==> b in tables) && (b in tables ==> t[b] == tables[b])
      && a in t && c in t && (a != c ==> t[a] == files[a]) && t[c] == files[c]
    ensures LoadedNames(files, [a, b, c]) == [a, c]
  {
    var names := [a, b, c];
    assert names[1..] == [b, c] && names[1..][1..] == [c] && names[1..][1..][1..] == [];
    LoadRunEffect(tables, files, names);
    assert names[..2] == [a, b] && names[..2][..1] == [a] && names[..2][..1][..0] == [];
    assert LoadedNames(files, [a]) == [a];
    assert LoadedNames(files, [a, b]) == [a];
  }

  /** The replacement log after one more name. */
  lemma LoadedSnoc(files: map<string, seq<CleanRecord>>, names: seq<string>, i: nat)
    requires i < |names|
    ensures LoadedNames(files, names[..i + 1]) == LoadedNames(files, names[..i]) + (if names[i] in files then [names[i]] else [])
  {
    assert names[..i + 1][..i] == names[..i];
  }

  /** One step of the loop over `names[i..]`. */
  lemma LoadStep(tables: map<string, seq<CleanRecord>>, files: map<string, seq<CleanRecord>>, names: seq<string>, i: nat)
    requires i < |names|
    ensures LoadRun(tables, files, names[i..]) == LoadRun(LoadIndicator(tables, files, names[i]), files, names[i + 1..])
  {
    assert names[i..][1..] == names[i + 1..];
  }

  /** The PostgreSQL database `economic_data`. The ghost log `replaced`
      lists the tables replaced so far, oldest first; it is no state of the
      database, only a record of the order of the replacements. A table
      stores only the two data columns of `CleanRecord`, with no index
      column. */
  class Database {
    var tables: map<string, seq<CleanRecord>>
    ghost var replaced: seq<string>

    constructor (tables0: map<string, seq<CleanRecord>>)
      ensures tables == tables0 && replaced == []
    {
      tables := tables0;
      replaced := [];
    }

    /** `load_to_postgres`: replace table `tableName` with `rows`. Nothing
        is returned; the row count is only logged. */
    method LoadToPostgres(rows: seq<CleanRecord>, tableName: string)
      modifies this
      ensures tables == Replace(old(tables), tableName, rows)
      ensures replaced == old(replaced) + [tableName]
    {
      tables := tables[tableName := rows];
      replaced := replaced + [tableName];
    }

    /** `process_indicator` of the load stage, reading the clean file of
        `name` from the data folder. */
    method ProcessIndicator(folder: DataFolder, name: string)
      modifies this
      ensures tables == LoadIndicator(old(tables), folder.clean, name)
      ensures replaced == old(replaced) + (if name in folder.clean then [name] else [])
    {
      if name !in folder.clean {
        return;
      }
      var rows := folder.clean[name];
      LoadToPostgres(rows, name);
    }

    /** The load `__main__` loop: each registry indicator in order. */
    method RunLoad(folder: DataFolder)
      modifies this
      ensures tables == LoadRun(old(tables), folder.clean, IndicatorNames)
      ensures replaced == old(replaced) + LoadedNames(folder.clean, IndicatorNames)
    {
      LoadEach(folder, IndicatorNames);
    }

    /** Runs `process_indicator` for each of `names`, in order. */
    method LoadEach(folder: DataFolder, names: seq<string>)
      modifies this
      ensures tables == LoadRun(old(tables), folder.clean, names)
      ensures replaced == old(replaced) + LoadedNames(folder.clean, names)
    {
      ghost var files := folder.clean;
      ghost var t0, r0 := tables, replaced;
      var i := 0;
      while i < |names|
        invariant 0 <= i <= |names|
        invariant LoadRun(tables, files, names[i..]) == LoadRun(t0, files, names)
        invariant replaced == r0 + LoadedNames(files, names[..i])
      {
        LoadStep(tables, files, names, i);
        LoadedSnoc(files, names, i);
        ghost var step := if names[i] in files then [names[i]] else [];
        ghost var before := replaced;
        ProcessIndicator(folder, names[i]);
        assert replaced == before + step;
        assert (r0 + LoadedNames(files, names[..i])) + step == r0 + (LoadedNames(files, names[..i]) + step);
        i := i + 1;
      }
      assert names[i..] == [] && names[..i] == names;
    }
  }
}
