/** `combine_checkpoints` of extract_fulltext.py: the `.parquet` files met by a
    walk of the checkpoint directory, read in walk order and concatenated
    into the output table, and what that table holds after a complete run. */
module Combining {
  import opened Outcomes
  import opened Records
  import opened Listing
  import opened Tables
  import opened Checkpointing

  /** A file met by `os.walk`, with the table `pq.read_table` would read from it. */
  datatype Entry = Entry(name: string, table: Table)

  predicate IsTableFile(e: Entry) {
    EndsWith(e.name, TableSuffix)
  }

  /** The tables of the `.parquet` files among `files`, in order. */
  function ParquetTables(files: seq<Entry>): seq<Table> {
    if files == [] then []
    else
      var last := files[|files| - 1];
      ParquetTables(files[..|files| - 1]) + (if IsTableFile(last) then [last.table] else [])
  }

  /** The reader keeps walk order: it distributes over concatenation. */
  lemma {:induction false} ParquetTablesAppend(a: seq<Entry>, b: seq<Entry>)
    ensures ParquetTables(a + b) == ParquetTables(a) + ParquetTables(b)
  {
    if b == [] {
      assert a + b == a;
    } else {
      assert (a + b)[..|a + b| - 1] == a + b[..|b| - 1];
      ParquetTablesAppend(a, b[..|b| - 1]);
    }
  }

  /** A table is read exactly when it is the table of a `.parquet` file met. */
  lemma {:induction false} ParquetTablesSpec(files: seq<Entry>)
    ensures |ParquetTables(files)| <= |files|
    ensures forall t :: t in ParquetTables(files) <==>
      exists i :: 0 <= i < |files| && IsTableFile(files[i]) && files[i].table == t
  {
    if files != [] {
      var init, last := files[..|files| - 1], files[|files| - 1];
      ParquetTablesSpec(init);
      forall t ensures t in ParquetTables(files) <==>
        exists i :: 0 <= i < |files| && IsTableFile(files[i]) && files[i].table == t
      {
        if exists i :: 0 <= i < |files| && IsTableFile(files[i]) && files[i].table == t {
          var i :| 0 <= i < |files| && IsTableFile(files[i]) && files[i].table == t;
          if i < |init| {
            assert init[i] == files[i];
          }
        }
      }
    }
  }

  /** The files of a walk, directory after directory. */
  function Entries(walk: seq<seq<Entry>>): seq<Entry> {
    if walk == [] then [] else Entries(walk[..|walk| - 1]) + walk[|walk| - 1]
  }

  /** The tables the combiner reads, in the order `os.walk` meets them. */
  function Discovered(walk: seq<seq<Entry>>): seq<Table> {
    if walk == [] then [] else Discovered(walk[..|walk| - 1]) + ParquetTables(walk[|walk| - 1])
  }

  /** The combiner reads the `.parquet` files of the walk's files, in order. */
  lemma {:induction false} DiscoveredEntries(walk: seq<seq<Entry>>)
    ensures Discovered(walk) == ParquetTables(Entries(walk))
  {
    if walk != [] {
      var init := walk[..|walk| - 1];
      DiscoveredEntries(init);
      ParquetTablesAppend(Entries(init), walk[|walk| - 1]);
    }
  }

  /** What combining `found` writes to the output file: nothing for no
      tables, their concatenation when they share their columns, and a fault
      otherwise. */
  function CombineResult(found: seq<Table>): (Option<Table>, Option<Fault>) {
    if found == [] then (None, None)
    else if SameSchema(found) then (Some(ConcatTables(found)), None)
    else (None, Some(SchemaMismatch))
  }

  /** `combine_checkpoints`: read every `.parquet` file of the walk, in walk
      order, and write their concatenation. */
  method CombineCheckpoints(walk: seq<seq<Entry>>) returns (output: Option<Table>, fault: Option<Fault>)
    ensures (output, fault) == CombineResult(Discovered(walk))
  {
    var tables: seq<Table> := [];
    for i := 0 to |walk|
      invariant tables == Discovered(walk[..i])
    {
      var files := walk[i];
      for j := 0 to |files|
        invariant tables == Discovered(walk[..i]) + ParquetTables(files[..j])
      {
        assert files[..j + 1][..j] == files[..j];
        if EndsWith(files[j].name, TableSuffix) {
          tables := tables + [files[j].table];
        }
      }
      assert files[..|files|] == files;
      assert walk[..i + 1][..i] == walk[..i];
    }
    assert walk[..|walk|] == walk;
    output, fault := None, None;
    if tables != [] {
      if SameSchema(tables) {
        output := Some(ConcatTables(tables));
      } else {
        fault := Some(SchemaMismatch);
      }
    }
  }

  /** `walk` is a walk of the directory `dir`: it meets every file of `dir`
      exactly once, with the table the file holds; only its order is free. */
  ghost predicate WalkOf(dir: map<string, Table>, walk: seq<seq<Entry>>) {
    var files := Entries(walk);
    && (forall i, j :: 0 <= i < j < |files| ==> files[i].name != files[j].name)
    && (forall i :: 0 <= i < |files| ==> files[i].name in dir && files[i].table == dir[files[i].name])
    && (forall n :: n in dir ==> exists i :: 0 <= i < |files| && files[i].name == n)
  }

  /** The directory holds no `.parquet` file. */
  predicate NoTableFiles(dir: map<string, Table>) {
    forall n :: n in dir ==> !EndsWith(n, TableSuffix)
  }

  /** The rows the combiner reads from a file, whatever their order. */
  ghost function Contribution(e: Entry): multiset<Record> {
    if IsTableFile(e) && e.table.Valid() then multiset(ReadRecords(e.table)) else multiset{}
  }

  /** The rows of all `.parquet` files among `files`, whatever their order. */
  ghost function Combined(files: seq<Entry>): multiset<Record> {
    if files == [] then multiset{} else Combined(files[..|files| - 1]) + Contribution(files[|files| - 1])
  }

  lemma {:induction false} CombinedAppend(a: seq<Entry>, b: seq<Entry>)
    ensures Combined(a + b) == Combined(a) + Combined(b)
  {
    if b == [] {
      assert a + b == a;
    } else {
      assert (a + b)[..|a + b| - 1] == a + b[..|b| - 1];
      CombinedAppend(a, b[..|b| - 1]);
    }
  }

  lemma {:induction false} CombinedNoTables(files: seq<Entry>)
    requires forall e :: e in files ==> !IsTableFile(e)
    ensures Combined(files) == multiset{}
  {
    if files != [] {
      CombinedNoTables(files[..|files| - 1]);
    }
  }

  /** The rows of the tables read, in walk order, are the rows of the
      `.parquet` files. */
  lemma {:induction false} CombinedTables(files: seq<Entry>)
    requires AllValid(ParquetTables(files))
    ensures multiset(AllRecords(ParquetTables(files))) == Combined(files)
  {
    if files != [] {
      var init, last := files[..|files| - 1], files[|files| - 1];
      var ts := ParquetTables(init);
      assert forall i :: 0 <= i < |ts| ==> ts[i] == ParquetTables(files)[i];
      CombinedTables(init);
      if IsTableFile(last) {
        assert (ts + [last.table])[..|ts|] == ts;
      } else {
        assert ts + [] == ts;
      }
    }
  }

  predicate Distinct(files: seq<Entry>) {
    forall i, j :: 0 <= i < j < |files| ==> files[i] != files[j]
  }

  /** Taking file `j` out of distinct files leaves the others, still distinct. */
  lemma RemoveAt(files: seq<Entry>, j: nat)
    requires Distinct(files) && j < |files|
    ensures var rest := files[..j] + files[j + 1..];
      && Distinct(rest)
      && (forall e :: e in rest <==> e in files && e != files[j])
  {
    var rest := files[..j] + files[j + 1..];
    assert forall i :: 0 <= i < |rest| ==> rest[i] == if i < j then files[i] else files[i + 1];
    forall e | e in files && e != files[j] ensures e in rest {
      var i :| 0 <= i < |files| && files[i] == e;
      if i < j {
        assert rest[i] == e;
      } else {
        assert rest[i - 1] == e;
      }
    }
  }

  lemma SplitAt<T>(s: seq<T>, j: nat)
    requires j < |s|
    ensures s == s[..j] + [s[j]] + s[j + 1..]
  {
  }

  /** A file in the middle adds its rows to those of the files around it. */
  lemma CombinedMiddle(pre: seq<Entry>, x: Entry, post: seq<Entry>)
    ensures Combined(pre + [x] + post) == Combined(pre + post) + Contribution(x)
  {
    assert (pre + [x])[..|pre + [x]| - 1] == pre;
    CombinedAppend(pre + [x], post);
    CombinedAppend(pre, post);
  }

  /** Taking file `j` out takes its rows out of those combined. */
  lemma CombinedRemove(files: seq<Entry>, j: nat)
    requires j < |files|
    ensures Combined(files) == Combined(files[..j] + files[j + 1..]) + Contribution(files[j])
  {
    SplitAt(files, j);
    CombinedMiddle(files[..j], files[j], files[j + 1..]);
  }

  /** The rows combined do not depend on the walk order: distinct files with
      the same `.parquet` files among them give the same rows. */
  lemma {:induction false} CombinedSameTables(a: seq<Entry>, b: seq<Entry>)
    requires Distinct(a) && Distinct(b)
    requires forall e :: e in a && IsTableFile(e) <==> e in b && IsTableFile(e)
    ensures Combined(a) == Combined(b)
    decreases |a|
  {
    if a == [] {
      CombinedNoTables(b);
    } else {
      var init, x := a[..|a| - 1], a[|a| - 1];
      assert a == init + [x];
      assert Distinct(init);
      assert x !in init;
      if !IsTableFile(x) {
        CombinedSameTables(init, b);
      } else {
        var j :| 0 <= j < |b| && b[j] == x;
        var rest := b[..j] + b[j + 1..];
        RemoveAt(b, j);
        CombinedRemove(b, j);
        CombinedSameTables(init, rest);
      }
    }
  }

  /** The files the writes `ws` leave, one per write, in the order written. */
  function Written(ws: seq<Write>): seq<Entry> {
    if ws == [] then []
    else
      var last := ws[|ws| - 1];
      Written(ws[..|ws| - 1]) + [Entry(FileName(last.target), ToTable(last.rows))]
  }

  lemma {:induction false} WrittenAt(ws: seq<Write>)
    ensures |Written(ws)| == |ws|
    ensures forall k :: 0 <= k < |ws| ==> Written(ws)[k] == Entry(FileName(ws[k].target), ToTable(ws[k].rows))
  {
    if ws != [] {
      WrittenAt(ws[..|ws| - 1]);
    }
  }

  /** The files written hold the rows written, read back. */
  lemma {:induction false} CombinedWritten(ws: seq<Write>)
    ensures Combined(Written(ws)) == multiset(ReadWrites(ws))
  {
    if ws != [] {
      var init, last := ws[..|ws| - 1], ws[|ws| - 1];
      var e := Entry(FileName(last.target), ToTable(last.rows));
      CombinedWritten(init);
      FileNameIsTable(last.target);
      assert (Written(init) + [e])[..|Written(init)|] == Written(init);
    }
  }

  /** Writes to distinct targets leave distinct `.parquet` files, each with
      the seven columns. */
  lemma WrittenFiles(ws: seq<Write>)
    requires DistinctTargets(ws)
    ensures Distinct(Written(ws))
    ensures forall e :: e in Written(ws) ==> IsTableFile(e) && e.table.Valid() && e.table.names == DesiredKeys
  {
    var written := Written(ws);
    WrittenAt(ws);
    forall i, j | 0 <= i < j < |written| ensures written[i] != written[j] {
      FileNamesDistinct(ws[i].target, ws[j].target);
    }
    forall e | e in written ensures IsTableFile(e) && e.table.Valid() && e.table.names == DesiredKeys {
      var k :| 0 <= k < |written| && written[k] == e;
      FileNameIsTable(ws[k].target);
    }
  }

  /** A walk of the directory left by writes to distinct targets, when it
      held no `.parquet` file before, meets as `.parquet` files exactly the
      files written. */
  lemma WalkMeetsWrites(before: map<string, Table>, ws: seq<Write>, walk: seq<seq<Entry>>)
    requires DistinctTargets(ws) && NoTableFiles(before)
    requires WalkOf(Apply(before, ws), walk)
    ensures Distinct(Entries(walk))
    ensures forall e :: e in Entries(walk) && IsTableFile(e) <==> e in Written(ws) && IsTableFile(e)
  {
    var files, written := Entries(walk), Written(ws);
    ApplyWritten(before, ws);
    ApplyNames(before, ws);
    WrittenAt(ws);
    forall e ensures e in files && IsTableFile(e) <==> e in written && IsTableFile(e) {
      if e in files && IsTableFile(e) {
        var i :| 0 <= i < |files| && files[i] == e;
        assert e.name !in before;
        var k :| 0 <= k < |ws| && FileName(ws[k].target) == e.name;
        assert written[k] == e;
      }
      if e in written {
        var k :| 0 <= k < |written| && written[k] == e;
        var i :| 0 <= i < |files| && files[i].name == e.name;
        assert files[i] == e;
      }
    }
  }

  /** The output file holds exactly `records`, in some order, in the seven
      `DESIRED_KEYS` columns, every row a projected record with full text;
      it is not written when there are no records. */
  ghost predicate Delivers(output: Option<Table>, records: seq<Record>) {
    && (output.None? <==> records == [])
    && (output.Some? ==>
          && output.value.Valid()
          && output.value.names == DesiredKeys
          && output.value.numRows == |records|
          && multiset(ReadRecords(output.value)) == multiset(records)
          && forall r :: r in ReadRecords(output.value) ==> IsProjected(r) && HasFullText(r))
  }

  /** The tables read by a walk of the directory left by writes to distinct
      targets, when it held no `.parquet` file before, are written files,
      each with the seven columns; there are some exactly when something was
      written. */
  lemma WrittenDiscovered(ws: seq<Write>, before: map<string, Table>, walk: seq<seq<Entry>>)
    requires DistinctTargets(ws) && NoTableFiles(before)
    requires WalkOf(Apply(before, ws), walk)
    ensures forall i :: 0 <= i < |Discovered(walk)| ==>
      Discovered(walk)[i].Valid() && Discovered(walk)[i].names == DesiredKeys
    ensures Discovered(walk) != [] <==> ws != []
  {
    var files, written := Entries(walk), Written(ws);
    var ts := Discovered(walk);
    WrittenFiles(ws);
    WalkMeetsWrites(before, ws, walk);
    DiscoveredEntries(walk);
    ParquetTablesSpec(files);
    forall i | 0 <= i < |ts| ensures ts[i].Valid() && ts[i].names == DesiredKeys {
      assert ts[i] in ts;
      var k :| 0 <= k < |files| && IsTableFile(files[k]) && files[k].table == ts[i];
      assert files[k] in written;
    }
    WrittenAt(ws);
    if ws != [] {
      var e := written[0];
      assert e in written;
      var i :| 0 <= i < |files| && files[i] == e;
      assert e.table in ts;
    }
    if ts != [] {
      assert ts[0] in ts;
    }
  }

  /** Those tables hold together exactly the rows written, whatever the
      walk order. */
  lemma WrittenRows(ws: seq<Write>, before: map<string, Table>, walk: seq<seq<Entry>>)
    requires DistinctTargets(ws) && NoTableFiles(before)
    requires WalkOf(Apply(before, ws), walk)
    requires AllValid(Discovered(walk))
    ensures multiset(AllRecords(Discovered(walk))) == multiset(ReadWrites(ws))
  {
    var files := Entries(walk);
    WrittenFiles(ws);
    WalkMeetsWrites(before, ws, walk);
    DiscoveredEntries(walk);
    CombinedTables(files);
    CombinedSameTables(files, Written(ws));
    CombinedWritten(ws);
  }

  /** After a complete run over batches of kept records, in a checkpoint
      directory that held no `.parquet` file, combining any walk of it
      delivers exactly the records processed, without a fault. */
  lemma CombineRun(batches: seq<seq<Record>>, before: map<string, Table>, walk: seq<seq<Entry>>)
    requires forall r :: r in Flatten(batches) ==> IsProjected(r) && HasFullText(r)
    requires NoTableFiles(before)
    requires WalkOf(Apply(before, CheckpointWrites(batches) + FinalWrites(batches)), walk)
    ensures CombineResult(Discovered(walk)).1.None?
    ensures Delivers(CombineResult(Discovered(walk)).0, Flatten(batches))
  {
    var ws := CheckpointWrites(batches) + FinalWrites(batches);
    RunWrites(batches);
    Conservation(batches);
    CombineWrites(ws, Flatten(batches), before, walk);
  }

  /** Combining a walk of the directory left by writes to distinct targets,
      none of them empty, of kept records, when it held no `.parquet` file
      before, delivers exactly the records written, without a fault. */
  lemma CombineWrites(ws: seq<Write>, records: seq<Record>, before: map<string, Table>, walk: seq<seq<Entry>>)
    requires DistinctTargets(ws) && forall k :: 0 <= k < |ws| ==> ws[k].rows != []
    requires Rows(ws) == records
    requires forall r :: r in records ==> IsProjected(r) && HasFullText(r)
    requires NoTableFiles(before)
    requires WalkOf(Apply(before, ws), walk)
    ensures CombineResult(Discovered(walk)).1.None?
    ensures Delivers(CombineResult(Discovered(walk)).0, records)
  {
    var ts := Discovered(walk);
    WrittenDiscovered(ws, before, walk);
    WrittenRows(ws, before, walk);
    assert AllProjected(records) by {
      assert forall j :: 0 <= j < |records| ==> records[j] in records;
    }
    ReadWritesRows(ws);
    if ts != [] {
      assert SameSchema(ts);
      ConcatRecords(ts);
      var rows := ReadRecords(ConcatTables(ts));
      forall r | r in rows ensures IsProjected(r) && HasFullText(r) {
        assert r in multiset(rows);
      }
      assert ws[|ws| - 1].rows != [];
    }
  }
}
