/**
  Selection of the load jobs from the configuration's `tables` list. Every
  entry whose `dump_flag` is the string "1" is entered into a dictionary
  under its name, with its file and column list; a later entry with the same
  name replaces the earlier one's job but, as in a Python dictionary, keeps
  the position the name was first given. The jobs are loaded in that order.
 */
module LoadConfig {
  import opened Values

  /** One element of the configuration's `tables` list. The column list is
      taken already decoded from its string form. */
  datatype TableEntry = TableEntry(name: string, file: string, columns: seq<string>, dumpFlag: Value)

  /** What the loader keeps for a table: `[file, columns]`. */
  datatype LoadJob = LoadJob(file: string, columns: seq<string>)

  /** `table['dump_flag'] == '1'`: only the string "1" selects an entry. */
  predicate Flagged(e: TableEntry)
  {
    e.dumpFlag == Text("1")
  }

  function JobOf(e: TableEntry): LoadJob
  {
    LoadJob(e.file, e.columns)
  }

  /** The dictionary after the entries `tables`, in configuration order:
      each flagged entry (re)binds its name to its job. */
  function SelectedJobs(tables: seq<TableEntry>): map<string, LoadJob>
  {
    if |tables| == 0 then map[]
    else
      var last := tables[|tables| - 1];
      var jobs := SelectedJobs(tables[..|tables| - 1]);
      if Flagged(last) then jobs[last.name := JobOf(last)] else jobs
  }

  /** Names of the flagged entries, in configuration order, repeats included. */
  function FlaggedNames(tables: seq<TableEntry>): seq<string>
  {
    if |tables| == 0 then []
    else
      var last := tables[|tables| - 1];
      FlaggedNames(tables[..|tables| - 1]) + (if Flagged(last) then [last.name] else [])
  }

  /** The first occurrence of every name, in order: the key order of a
      Python dictionary filled with `names`. */
  function FirstOccurrences(names: seq<string>): (r: seq<string>)
    ensures forall n :: n in r <==> n in names
    ensures forall a, b :: 0 <= a < b < |r| ==> r[a] != r[b]
  {
    if |names| == 0 then []
    else
      var seen := FirstOccurrences(names[..|names| - 1]);
      var last := names[|names| - 1];
      assert forall n :: n in names <==> n in names[..|names| - 1] || n == last;
      if last in seen then seen else seen + [last]
  }

  /** A name comes before another in the key order only if it occurs in
      `names` before every occurrence of the other. */
  lemma {:induction false} FirstOccurrencesOrder(names: seq<string>, a: nat, b: nat, j: nat)
    requires a < b < |FirstOccurrences(names)|
    requires j < |names| && names[j] == FirstOccurrences(names)[b]
    ensures exists i :: 0 <= i < j && names[i] == FirstOccurrences(names)[a]
  {
    var r := FirstOccurrences(names);
    var init := names[..|names| - 1];
    var seen := FirstOccurrences(init);
    var last := names[|names| - 1];
    if b < |seen| {
      assert r[a] == seen[a] && r[b] == seen[b];
      if j < |init| {
        assert init[j] == names[j];
        FirstOccurrencesOrder(init, a, b, j);
        var i :| 0 <= i < j && init[i] == seen[a];
        assert names[i] == init[i];
      } else {
        assert seen[b] in init;
        var j' :| 0 <= j' < |init| && init[j'] == seen[b];
        FirstOccurrencesOrder(init, a, b, j');
        var i :| 0 <= i < j' && init[i] == seen[a];
        assert names[i] == init[i];
      }
    } else {
      assert r == seen + [last] && r[b] == last && last !in seen;
      assert r[a] == seen[a] && seen[a] in init;
      var i :| 0 <= i < |init| && init[i] == seen[a];
      assert names[i] == init[i];
    }
  }

  /** No flagged entry after position `i` carries the name of entry `i`. */
  predicate LastOfName(tables: seq<TableEntry>, i: nat)
    requires i < |tables|
  {
    forall j :: i < j < |tables| && Flagged(tables[j]) ==> tables[j].name != tables[i].name
  }

  /** A name has a job exactly when some flagged entry carries it. */
  lemma {:induction false} SelectedKeys(tables: seq<TableEntry>, name: string)
    ensures name in SelectedJobs(tables)
        <==> exists i :: 0 <= i < |tables| && Flagged(tables[i]) && tables[i].name == name
    ensures name in SelectedJobs(tables) <==> name in FlaggedNames(tables)
  {
    if |tables| > 0 {
      var init := tables[..|tables| - 1];
      SelectedKeys(init, name);
      if exists i :: 0 <= i < |init| && Flagged(init[i]) && init[i].name == name {
        var i :| 0 <= i < |init| && Flagged(init[i]) && init[i].name == name;
        assert tables[i] == init[i];
      }
      if exists i :: 0 <= i < |tables| && Flagged(tables[i]) && tables[i].name == name {
        var i :| 0 <= i < |tables| && Flagged(tables[i]) && tables[i].name == name;
        if i < |init| {
          assert init[i] == tables[i];
        }
      }
    }
  }

  /** The job kept for a name is the one of its last flagged entry. */
  lemma {:induction false} SelectedLastWins(tables: seq<TableEntry>, i: nat)
    requires i < |tables| && Flagged(tables[i])
    requires LastOfName(tables, i)
    ensures tables[i].name in SelectedJobs(tables)
    ensures SelectedJobs(tables)[tables[i].name] == JobOf(tables[i])
  {
    if i < |tables| - 1 {
      var init := tables[..|tables| - 1];
      assert init[i] == tables[i];
      forall j | i < j < |init| && Flagged(init[j])
        ensures init[j].name != init[i].name
      {
        assert init[j] == tables[j];
      }
      SelectedLastWins(init, i);
      assert LastOfName(tables, i);
    }
  }

  /** An entry with any flag other than "1" changes neither the jobs nor the key order. */
  lemma UnflaggedIgnored(tables: seq<TableEntry>, e: TableEntry)
    requires !Flagged(e)
    ensures SelectedJobs(tables + [e]) == SelectedJobs(tables)
    ensures FirstOccurrences(FlaggedNames(tables + [e])) == FirstOccurrences(FlaggedNames(tables))
  {
    var ts := tables + [e];
    assert ts[..|ts| - 1] == tables;
    assert FlaggedNames(ts) == FlaggedNames(tables) + [];
    assert FlaggedNames(tables) + [] == FlaggedNames(tables);
  }

  /** One loop step: a flagged entry binds its name and appends it to the key
      order the first time; any other entry changes nothing. */
  lemma SelectStep(seen: seq<TableEntry>, e: TableEntry)
    ensures var jobs := SelectedJobs(seen);
            var order := FirstOccurrences(FlaggedNames(seen));
            && SelectedJobs(seen + [e]) == (if Flagged(e) then jobs[e.name := JobOf(e)] else jobs)
            && FirstOccurrences(FlaggedNames(seen + [e]))
               == (if Flagged(e) && e.name !in jobs then order + [e.name] else order)
  {
    var ts := seen + [e];
    assert ts[..|ts| - 1] == seen;
    if Flagged(e) {
      SelectedKeys(seen, e.name);
      var names := FlaggedNames(ts);
      assert names == FlaggedNames(seen) + [e.name];
      assert names[..|names| - 1] == FlaggedNames(seen);
      assert names[|names| - 1] == e.name;
      assert e.name in FirstOccurrences(FlaggedNames(seen)) <==> e.name in SelectedJobs(seen);
    } else {
      assert FlaggedNames(ts) == FlaggedNames(seen) + [];
      assert FlaggedNames(seen) + [] == FlaggedNames(seen);
    }
  }

  /**
    `get_files_location`: walk the entries in order; a flagged entry sets its
    name's job, and a name seen for the first time is appended to the key order.
   */
  method SelectJobs(tables: seq<TableEntry>) returns (order: seq<string>, jobs: map<string, LoadJob>)
    ensures jobs == SelectedJobs(tables)
    ensures order == FirstOccurrences(FlaggedNames(tables))
    ensures forall n :: n in order <==> n in jobs
  {
    order := [];
    jobs := map[];
    var k := 0;
    while k < |tables|
      invariant 0 <= k <= |tables|
      invariant jobs == SelectedJobs(tables[..k])
      invariant order == FirstOccurrences(FlaggedNames(tables[..k]))
    {
      var e := tables[k];
      SelectStep(tables[..k], e);
      assert tables[..k + 1] == tables[..k] + [e];
      if e.dumpFlag == Text("1") {
        if e.name !in jobs {
          order := order + [e.name];
        }
        jobs := jobs[e.name := LoadJob(e.file, e.columns)];
      }
      k := k + 1;
    }
    assert tables[..k] == tables;
    forall n
      ensures n in order <==> n in jobs
    {
      SelectedKeys(tables, n);
    }
  }
}
