/** `save_to_parquet` and the checkpoint cadence of `process_directory` in
    extract_fulltext.py: which tables a run writes, under which file names,
    and what the checkpoint directory holds afterwards. A written file is an
    entry of a log; the checkpoint directory is a map from file name to table. */
module Checkpointing {
  import opened Outcomes
  import opened Decimal
  import opened Records
  import opened Listing
  import opened Tables

  const TableSuffix: string := ".parquet"

  /** The checkpoint files of a run: `checkpoint_<k>.parquet` and
      `final_checkpoint.parquet`. */
  datatype Target = Checkpoint(number: nat) | FinalCheckpoint

  /** `pq.write_table` of the table built from `rows` to the file of `target`. */
  datatype Write = Write(target: Target, rows: seq<Record>)

  function FileName(t: Target): string {
    match t
    case Checkpoint(k) => "checkpoint_" + DecimalString(k) + TableSuffix
    case FinalCheckpoint => "final_checkpoint" + TableSuffix
  }

  /** No two targets share a file, so no checkpoint of a run overwrites
      another of the same run. */
  lemma FileNamesDistinct(a: Target, b: Target)
    requires a != b
    ensures FileName(a) != FileName(b)
  {
    var na, nb := FileName(a), FileName(b);
    if a.Checkpoint? && b.Checkpoint? {
      FirstNumberOfEmbedded("checkpoint_", a.number, TableSuffix);
      FirstNumberOfEmbedded("checkpoint_", b.number, TableSuffix);
      assert "checkpoint_" + DecimalString(a.number) + TableSuffix == na;
      assert "checkpoint_" + DecimalString(b.number) + TableSuffix == nb;
    } else {
      assert na[0] != nb[0];
    }
  }

  /** Every checkpoint file name ends in `.parquet`, so the combiner picks it up. */
  lemma FileNameIsTable(t: Target)
    ensures EndsWith(FileName(t), TableSuffix)
  {
    var n := FileName(t);
    assert n[|n| - |TableSuffix|..] == TableSuffix;
  }

  /** The rows of the files written, file after file. */
  function Rows(ws: seq<Write>): seq<Record> {
    if ws == [] then [] else Rows(ws[..|ws| - 1]) + ws[|ws| - 1].rows
  }

  lemma {:induction false} RowsAppend(a: seq<Write>, b: seq<Write>)
    ensures Rows(a + b) == Rows(a) + Rows(b)
  {
    if b == [] {
      assert a + b == a;
    } else {
      var init, last := b[..|b| - 1], b[|b| - 1];
      assert (a + b)[..|a + b| - 1] == a + init;
      calc {
        Rows(a + b);
        Rows(a + init) + last.rows;
        { RowsAppend(a, init); }
        (Rows(a) + Rows(init)) + last.rows;
        { AppendAssoc(Rows(a), Rows(init), last.rows); }
        Rows(a) + Rows(b);
      }
    }
  }

  /** `save_to_parquet(data, path)`: nothing for empty data, otherwise one
      table of the seven `DESIRED_KEYS` columns, each `len(data)` long. */
  function Save(data: seq<Record>, target: Target): seq<Write> {
    if data == [] then [] else [Write(target, data)]
  }

  /** Nothing is written for no records; otherwise one file, holding the
      seven columns, each as long as the records, and the records themselves. */
  lemma SaveSpec(data: seq<Record>, target: Target)
    ensures var w := Save(data, target);
      && (w == [] <==> data == [])
      && |w| <= 1 && Rows(w) == data
      && forall i :: 0 <= i < |w| ==>
           && w[i].target == target
           && ToTable(w[i].rows).names == DesiredKeys && ToTable(w[i].rows).numRows == |data|
  {
    if data != [] {
      assert Save(data, target)[..0] == [];
    }
  }

  /** The records of the written files, read back file after file. */
  function ReadWrites(ws: seq<Write>): seq<Record> {
    if ws == [] then [] else ReadWrites(ws[..|ws| - 1]) + ReadRecords(ToTable(ws[|ws| - 1].rows))
  }

  lemma ProjectedAppend(a: seq<Record>, b: seq<Record>)
    requires AllProjected(a + b)
    ensures AllProjected(a) && AllProjected(b)
  {
    assert forall j :: 0 <= j < |a| ==> (a + b)[j] == a[j];
    assert forall j :: 0 <= j < |b| ==> (a + b)[|a| + j] == b[j];
  }

  /** Reading back files of projected records gives exactly the rows written. */
  lemma {:induction false} ReadWritesRows(ws: seq<Write>)
    requires AllProjected(Rows(ws))
    ensures ReadWrites(ws) == Rows(ws)
  {
    if ws != [] {
      var init, last := ws[..|ws| - 1], ws[|ws| - 1];
      ProjectedAppend(Rows(init), last.rows);
      ReadWritesRows(init);
      ReadBack(last.rows);
    }
  }

  /** The batches of several archives, one after another. */
  function Flatten(batches: seq<seq<Record>>): seq<Record> {
    if batches == [] then [] else Flatten(batches[..|batches| - 1]) + batches[|batches| - 1]
  }

  lemma {:induction false} FlattenEmpty(batches: seq<seq<Record>>)
    ensures Flatten(batches) == [] <==> forall i :: 0 <= i < |batches| ==> batches[i] == []
  {
    if batches != [] {
      var init := batches[..|batches| - 1];
      FlattenEmpty(init);
      assert forall i :: 0 <= i < |init| ==> init[i] == batches[i];
    }
  }

  lemma {:induction false} FlattenAppend(a: seq<seq<Record>>, b: seq<seq<Record>>)
    ensures Flatten(a + b) == Flatten(a) + Flatten(b)
  {
    if b == [] {
      assert a + b == a;
    } else {
      var init, last := b[..|b| - 1], b[|b| - 1];
      assert (a + b)[..|a + b| - 1] == a + init;
      calc {
        Flatten(a + b);
        Flatten(a + init) + last;
        { FlattenAppend(a, init); }
        (Flatten(a) + Flatten(init)) + last;
        { AppendAssoc(Flatten(a), Flatten(init), last); }
        Flatten(a) + Flatten(b);
      }
    }
  }

  lemma FlattenSingle(b: seq<Record>)
    ensures Flatten([b]) == b
  {
    assert [b][..0] == [];
  }

  ghost predicate BatchesProjected(batches: seq<seq<Record>>) {
    forall i :: 0 <= i < |batches| ==> AllProjected(batches[i])
  }

  lemma SliceProjected(batches: seq<seq<Record>>, a: nat, b: nat)
    requires BatchesProjected(batches) && a <= b <= |batches|
    ensures BatchesProjected(batches[a..b]) && BatchesProjected(batches[a..])
  {
    assert forall i :: 0 <= i < b - a ==> batches[a..b][i] == batches[a + i];
    assert forall i :: 0 <= i < |batches| - a ==> batches[a..][i] == batches[a + i];
  }

  lemma {:induction false} FlattenProjected(batches: seq<seq<Record>>)
    requires BatchesProjected(batches)
    ensures AllProjected(Flatten(batches))
  {
    if batches != [] {
      var init := batches[..|batches| - 1];
      SliceProjected(batches, 0, |batches| - 1);
      assert init == batches[0..|batches| - 1];
      FlattenProjected(init);
    }
  }

  /** The number of full runs of 30 archives among `k` archives. */
  function Runs(k: nat): (c: nat)
    ensures 30 * c <= k < 30 * c + 30
  {
    k / 30
  }

  /** The archive count reaches a multiple of 30 exactly when it
      completes a run. */
  lemma CadenceMod(k: nat, c: nat)
    requires 30 * c <= k < 30 * c + 30
    ensures (k + 1) % 30 == 0 <==> k + 1 == 30 * c + 30
  {
  }

  /** The run of 30 archives numbered `c`, counting from 0. */
  function Chunk(batches: seq<seq<Record>>, c: nat): seq<seq<Record>>
    requires 30 * c + 30 <= |batches|
  {
    batches[30 * c .. 30 * c + 30]
  }

  /** The numbered checkpoints written for the first `n` runs of 30
      archives: the records of run `c` go to checkpoint `c + 1`, which is
      skipped when they are empty but still takes up its number. */
  function Checkpoints(batches: seq<seq<Record>>, n: nat): seq<Write>
    requires 30 * n <= |batches|
  {
    if n == 0 then []
    else
      Checkpoints(batches, n - 1) + Save(Flatten(Chunk(batches, n - 1)), Checkpoint(n))
  }

  /** The numbered checkpoints of a run that processed `batches`. */
  function CheckpointWrites(batches: seq<seq<Record>>): seq<Write> {
    Checkpoints(batches, Runs(|batches|))
  }

  /** The batches after the last full run of 30 archives. */
  function Leftover(batches: seq<seq<Record>>): seq<seq<Record>> {
    batches[30 * Runs(|batches|)..]
  }

  /** The final checkpoint: the leftover records, when there are any. */
  function FinalWrites(batches: seq<seq<Record>>): seq<Write> {
    Save(Flatten(Leftover(batches)), FinalCheckpoint)
  }

  /** At most one checkpoint per run, numbered from 1 to `n` in increasing
      order, and none of them empty. */
  lemma {:induction false} CheckpointsSpec(batches: seq<seq<Record>>, n: nat)
    requires 30 * n <= |batches|
    ensures var w := Checkpoints(batches, n);
      && |w| <= n
      && (forall i :: 0 <= i < |w| ==> w[i].target.Checkpoint? && 1 <= w[i].target.number <= n && w[i].rows != [])
      && (forall i, j :: 0 <= i < j < |w| ==> w[i].target.number < w[j].target.number)
  {
    if n > 0 {
      CheckpointsSpec(batches, n - 1);
      SaveSpec(Flatten(Chunk(batches, n - 1)), Checkpoint(n));
    }
  }

  /** Archives after the first `n` runs do not change their checkpoints. */
  lemma {:induction false} CheckpointsAppend(s: seq<seq<Record>>, t: seq<seq<Record>>, n: nat)
    requires 30 * n <= |s|
    ensures Checkpoints(s + t, n) == Checkpoints(s, n)
  {
    if n > 0 {
      CheckpointsAppend(s, t, n - 1);
      CheckpointsAppendStep(s, t, n);
    }
  }

  lemma CheckpointsAppendStep(s: seq<seq<Record>>, t: seq<seq<Record>>, n: nat)
    requires 0 < n && 30 * n <= |s|
    requires Checkpoints(s + t, n - 1) == Checkpoints(s, n - 1)
    ensures Checkpoints(s + t, n) == Checkpoints(s, n)
  {
    var a := 30 * (n - 1);
    AppendSlice(s, t, a, a + 30);
    assert Chunk(s + t, n - 1) == Chunk(s, n - 1);
  }

  /** The first `n` checkpoints, in the order written, hold exactly the
      records of the first `n` runs in processing order. */
  lemma {:induction false} CheckpointsRows(batches: seq<seq<Record>>, n: nat)
    requires 30 * n <= |batches|
    ensures Rows(Checkpoints(batches, n)) == Flatten(batches[..30 * n])
  {
    if n == 0 {
      assert batches[..30 * n] == [];
    } else {
      CheckpointsRows(batches, n - 1);
      CheckpointsRowsStep(batches, n);
    }
  }

  lemma CheckpointsRowsStep(batches: seq<seq<Record>>, n: nat)
    requires 0 < n && 30 * n <= |batches|
    requires Rows(Checkpoints(batches, n - 1)) == Flatten(batches[..30 * (n - 1)])
    ensures Rows(Checkpoints(batches, n)) == Flatten(batches[..30 * n])
  {
    var a := 30 * (n - 1);
    var prev := Checkpoints(batches, n - 1);
    var chunk := Chunk(batches, n - 1);
    var saved := Save(Flatten(chunk), Checkpoint(n));
    SaveSpec(Flatten(chunk), Checkpoint(n));
    calc {
      Rows(Checkpoints(batches, n));
      Rows(prev + saved);
      { RowsAppend(prev, saved); }
      Rows(prev) + Rows(saved);
      Flatten(batches[..a]) + Flatten(chunk);
      { FlattenAppend(batches[..a], chunk); }
      Flatten(batches[..a] + chunk);
      { TakeSlice(batches, a, a + 30); }
      Flatten(batches[..30 * n]);
    }
  }

  /** No record is lost or duplicated: the numbered checkpoints and the final
      checkpoint, in the order written, hold exactly the records of all
      batches in processing order. */
  lemma Conservation(batches: seq<seq<Record>>)
    ensures Rows(CheckpointWrites(batches) + FinalWrites(batches)) == Flatten(batches)
  {
    var m := 30 * Runs(|batches|);
    var cw, fw := CheckpointWrites(batches), FinalWrites(batches);
    CheckpointsRows(batches, Runs(|batches|));
    SaveSpec(Flatten(batches[m..]), FinalCheckpoint);
    calc {
      Rows(cw + fw);
      { RowsAppend(cw, fw); }
      Rows(cw) + Rows(fw);
      Flatten(batches[..m]) + Flatten(batches[m..]);
      { FlattenAppend(batches[..m], batches[m..]); }
      Flatten(batches[..m] + batches[m..]);
      { TakeDrop(batches, m); }
      Flatten(batches);
    }
  }

  /** Reading back every checkpoint file of a run over projected records, in
      the order written, gives exactly the records of all batches. */
  lemma ReadBackRun(batches: seq<seq<Record>>)
    requires BatchesProjected(batches)
    ensures ReadWrites(CheckpointWrites(batches) + FinalWrites(batches)) == Flatten(batches)
  {
    Conservation(batches);
    FlattenProjected(batches);
    ReadWritesRows(CheckpointWrites(batches) + FinalWrites(batches));
  }

  /** The rows each target's file holds after the writes `ws`: the last
      write to a target wins. */
  function Files(ws: seq<Write>): map<Target, seq<Record>> {
    if ws == [] then map[]
    else
      var last := ws[|ws| - 1];
      Files(ws[..|ws| - 1])[last.target := last.rows]
  }

  lemma FilesSave(ws: seq<Write>, data: seq<Record>, t: Target)
    ensures Files(ws + Save(data, t)) == if data == [] then Files(ws) else Files(ws)[t := data]
  {
    var xs := ws + Save(data, t);
    if data == [] {
      assert xs == ws;
    } else {
      assert xs[..|xs| - 1] == ws;
    }
  }

  /** Writes to other targets leave the file of `t` as it was. */
  lemma {:induction false} FilesUntouched(ws: seq<Write>, vs: seq<Write>, t: Target)
    requires forall j :: 0 <= j < |vs| ==> vs[j].target != t
    ensures t in Files(ws + vs) <==> t in Files(ws)
    ensures t in Files(ws) ==> Files(ws + vs)[t] == Files(ws)[t]
  {
    if vs == [] {
      assert ws + vs == ws;
    } else {
      var init := vs[..|vs| - 1];
      FilesUntouched(ws, init, t);
      assert (ws + vs)[..|ws + vs| - 1] == ws + init;
    }
  }

  /** The checkpoints written for runs `m` to `n - 1`. */
  function Between(batches: seq<seq<Record>>, m: nat, n: nat): seq<Write>
    requires m <= n && 30 * n <= |batches|
    decreases n - m
  {
    if n == m then []
    else
      Between(batches, m, n - 1) + Save(Flatten(Chunk(batches, n - 1)), Checkpoint(n))
  }

  /** The first `n` checkpoints are the first `m` followed by those of runs
      `m` to `n - 1`, all of them numbered above `m`. */
  lemma {:induction false} CheckpointsSplit(batches: seq<seq<Record>>, m: nat, n: nat)
    requires m <= n && 30 * n <= |batches|
    ensures Checkpoints(batches, n) == Checkpoints(batches, m) + Between(batches, m, n)
    ensures forall j :: 0 <= j < |Between(batches, m, n)| ==>
      Between(batches, m, n)[j].target.Checkpoint? && m < Between(batches, m, n)[j].target.number
    decreases n - m
  {
    if n == m {
      assert Checkpoints(batches, m) + [] == Checkpoints(batches, m);
    } else {
      CheckpointsSplit(batches, m, n - 1);
      var saved := Save(Flatten(Chunk(batches, n - 1)), Checkpoint(n));
      SaveSpec(Flatten(Chunk(batches, n - 1)), Checkpoint(n));
      AppendAssoc(Checkpoints(batches, m), Between(batches, m, n - 1), saved);
    }
  }

  /** The first `n` checkpoints write no later checkpoint, and not the final one. */
  lemma CheckpointsLeave(batches: seq<seq<Record>>, n: nat, t: Target)
    requires 30 * n <= |batches|
    requires t.FinalCheckpoint? || n < t.number
    ensures t !in Files(Checkpoints(batches, n))
  {
    var w := Checkpoints(batches, n);
    CheckpointsSpec(batches, n);
    FilesUntouched([], w, t);
    assert [] + w == w;
  }

  /** The file of target `t` holds exactly `records` when there are any, and
      is not written when there are none. */
  ghost predicate Holds(files: map<Target, seq<Record>>, t: Target, records: seq<Record>) {
    && (t in files <==> records != [])
    && (t in files ==> files[t] == records)
  }

  /** The cadence rule: after the first `n` runs, checkpoint `c + 1` holds
      exactly the records of run `c` when it has any, and is not written when
      it has none; the numbering counts archives, not written files. */
  lemma CheckpointHoldsChunk(batches: seq<seq<Record>>, n: nat, c: nat)
    requires 30 * n <= |batches| && c < n
    ensures Holds(Files(Checkpoints(batches, n)), Checkpoint(c + 1), Flatten(Chunk(batches, c)))
  {
    CheckpointsSplit(batches, c + 1, n);
    FilesUntouched(Checkpoints(batches, c + 1), Between(batches, c + 1, n), Checkpoint(c + 1));
    HoldsNewChunk(batches, c + 1, c);
  }

  lemma HoldsNewChunk(batches: seq<seq<Record>>, n: nat, c: nat)
    requires 30 * n <= |batches| && n == c + 1
    ensures Holds(Files(Checkpoints(batches, n)), Checkpoint(c + 1), Flatten(Chunk(batches, c)))
  {
    var prev := Checkpoints(batches, c);
    var records := Flatten(Chunk(batches, c));
    CheckpointsLeave(batches, c, Checkpoint(n));
    FilesSave(prev, records, Checkpoint(n));
    assert Checkpoints(batches, n) == prev + Save(records, Checkpoint(n));
  }

  /** After a complete run the final checkpoint holds the leftover records
      when there are any, and is not written otherwise. */
  lemma FinalCheckpointHoldsLeftover(batches: seq<seq<Record>>)
    ensures Holds(Files(CheckpointWrites(batches) + FinalWrites(batches)), FinalCheckpoint, Flatten(Leftover(batches)))
  {
    CheckpointsLeave(batches, Runs(|batches|), FinalCheckpoint);
    FilesSave(CheckpointWrites(batches), Flatten(Leftover(batches)), FinalCheckpoint);
  }

  /** The checkpoint directory after the writes `ws`, each file replacing
      any file of its name. */
  function Apply(dir: map<string, Table>, ws: seq<Write>): map<string, Table> {
    if ws == [] then dir
    else
      var last := ws[|ws| - 1];
      Apply(dir, ws[..|ws| - 1])[FileName(last.target) := ToTable(last.rows)]
  }

  /** No two writes of `ws` go to the same target. */
  predicate DistinctTargets(ws: seq<Write>) {
    forall i, j :: 0 <= i < j < |ws| ==> ws[i].target != ws[j].target
  }

  /** A run writes each of its files once, and never an empty one. */
  lemma RunWrites(batches: seq<seq<Record>>)
    ensures var ws := CheckpointWrites(batches) + FinalWrites(batches);
      && DistinctTargets(ws)
      && forall k :: 0 <= k < |ws| ==> ws[k].rows != []
  {
    var cw, fw := CheckpointWrites(batches), FinalWrites(batches);
    CheckpointsSpec(batches, Runs(|batches|));
    SaveSpec(Flatten(Leftover(batches)), FinalCheckpoint);
    var ws := cw + fw;
    forall k | 0 <= k < |ws| ensures ws[k].rows != [] {
      if k >= |cw| {
        assert ws[k] == fw[k - |cw|];
      }
    }
    forall i, j | 0 <= i < j < |ws| ensures ws[i].target != ws[j].target {
      assert ws[i] == cw[i];
      if j >= |cw| {
        assert ws[j] == fw[j - |cw|];
      }
    }
  }

  /** After writes to distinct targets, each written file name holds the
      table of its write. */
  lemma {:induction false} ApplyWritten(dir: map<string, Table>, ws: seq<Write>)
    requires DistinctTargets(ws)
    ensures forall k :: 0 <= k < |ws| ==>
      FileName(ws[k].target) in Apply(dir, ws) && Apply(dir, ws)[FileName(ws[k].target)] == ToTable(ws[k].rows)
  {
    if ws != [] {
      var init, last := ws[..|ws| - 1], ws[|ws| - 1];
      var before := Apply(dir, init);
      assert Apply(dir, ws) == before[FileName(last.target) := ToTable(last.rows)];
      ApplyWritten(dir, init);
      forall k | 0 <= k < |init|
        ensures FileName(ws[k].target) in Apply(dir, ws) && Apply(dir, ws)[FileName(ws[k].target)] == ToTable(ws[k].rows)
      {
        assert ws[k] == init[k];
        FileNamesDistinct(init[k].target, last.target);
      }
    }
  }

  /** The writes add no file name but their targets'. */
  lemma {:induction false} ApplyNames(dir: map<string, Table>, ws: seq<Write>)
    ensures forall n :: n in Apply(dir, ws) ==> n in dir || exists k :: 0 <= k < |ws| && FileName(ws[k].target) == n
  {
    if ws != [] {
      var init, last := ws[..|ws| - 1], ws[|ws| - 1];
      assert Apply(dir, ws).Keys == Apply(dir, init).Keys + {FileName(last.target)};
      ApplyNames(dir, init);
      forall n | n in Apply(dir, ws) && n !in dir ensures exists k :: 0 <= k < |ws| && FileName(ws[k].target) == n {
        if n != FileName(last.target) {
          var k :| 0 <= k < |init| && FileName(init[k].target) == n;
          assert ws[k] == init[k];
        }
      }
    }
  }

  function Lookup(dir: map<string, Table>, name: string): Option<Table> {
    if name in dir then Some(dir[name]) else None
  }

  /** The file of a target holds the table of the rows last written to it,
      or, when none were, whatever the directory held before. */
  lemma {:induction false} ApplyFiles(dir: map<string, Table>, ws: seq<Write>, t: Target)
    ensures Lookup(Apply(dir, ws), FileName(t)) ==
      if t in Files(ws) then Some(ToTable(Files(ws)[t])) else Lookup(dir, FileName(t))
  {
    if ws != [] {
      var last := ws[|ws| - 1];
      ApplyFiles(dir, ws[..|ws| - 1], t);
      if last.target != t {
        FileNamesDistinct(last.target, t);
      }
    }
  }

  lemma {:induction false} AllCheckpointsWritten(batches: seq<seq<Record>>, n: nat)
    requires 30 * n <= |batches|
    requires forall i :: 0 <= i < |batches| ==> batches[i] != []
    ensures |Checkpoints(batches, n)| == n
  {
    if n > 0 {
      AllCheckpointsWritten(batches, n - 1);
      var chunk := Chunk(batches, n - 1);
      assert chunk[0] == batches[30 * (n - 1)];
      FlattenEmpty(chunk);
    }
  }

  /** When every archive yields records, every run of 30 archives gets
      its numbered checkpoint, and the final checkpoint is written exactly when
      the archive count is not a multiple of 30. */
  lemma EveryArchiveNonEmpty(batches: seq<seq<Record>>)
    requires forall i :: 0 <= i < |batches| ==> batches[i] != []
    ensures |CheckpointWrites(batches)| == |batches| / 30
    ensures |FinalWrites(batches)| == 1 <==> |batches| % 30 != 0
  {
    AllCheckpointsWritten(batches, Runs(|batches|));
    var left := Leftover(batches);
    FlattenEmpty(left);
    if left != [] {
      assert left[0] == batches[30 * Runs(|batches|)];
    }
  }

  /** The state of the loop of `process_directory` after the archives with
      `batches`: `c` numbered checkpoints written, covering every full run of
      30 archives, and the records since the last one pending. */
  ghost predicate Batched(batches: seq<seq<Record>>, writes: seq<Write>, pending: seq<Record>, c: nat) {
    && 30 * c <= |batches| < 30 * c + 30
    && writes == Checkpoints(batches, c)
    && pending == Flatten(batches[30 * c..])
  }

  /** The counters of the loop: the checkpoint counter is the archive count
      divided by 30, and nothing is pending when the archive count is a
      multiple of 30. */
  lemma BatchedCounters(batches: seq<seq<Record>>, writes: seq<Write>, pending: seq<Record>, c: nat)
    requires Batched(batches, writes, pending, c)
    ensures c == |batches| / 30
    ensures |batches| % 30 == 0 ==> pending == []
  {
    if |batches| % 30 == 0 {
      assert batches[30 * c..] == [];
    }
  }

  lemma BatchedStart()
    ensures Batched([], [], [], 0)
  {
    assert Flatten([]) == [];
  }

  /** One more archive: the checkpoint counter advances, and the pending
      records are flushed, exactly when the archive count reaches a multiple
      of 30, even when they are empty. */
  lemma BatchedAppend(batches: seq<seq<Record>>, writes: seq<Write>, pending: seq<Record>, c: nat, b: seq<Record>)
    requires Batched(batches, writes, pending, c)
    ensures (|batches| + 1) % 30 == 0 <==> |batches| + 1 == 30 * c + 30
    ensures (|batches| + 1) % 30 == 0 ==>
      Batched(batches + [b], writes + Save(pending + b, Checkpoint(c + 1)), [], c + 1)
    ensures (|batches| + 1) % 30 != 0 ==> Batched(batches + [b], writes, pending + b, c)
  {
    CadenceMod(|batches|, c);
    if |batches| + 1 == 30 * c + 30 {
      BatchedFlush(batches, writes, pending, c, b);
    } else {
      BatchedKeep(batches, writes, pending, c, b);
    }
  }

  lemma BatchedFlush(batches: seq<seq<Record>>, writes: seq<Write>, pending: seq<Record>, c: nat, b: seq<Record>)
    requires Batched(batches, writes, pending, c) && |batches| + 1 == 30 * c + 30
    ensures Batched(batches + [b], writes + Save(pending + b, Checkpoint(c + 1)), [], c + 1)
  {
    var grown := batches + [b];
    var m := 30 * c;
    CheckpointsAppend(batches, [b], c);
    AppendDrop(batches, [b], m);
    assert Chunk(grown, c) == batches[m..] + [b];
    FlattenAppend(batches[m..], [b]);
    FlattenSingle(b);
    assert grown[30 * (c + 1)..] == [];
  }

  lemma BatchedKeep(batches: seq<seq<Record>>, writes: seq<Write>, pending: seq<Record>, c: nat, b: seq<Record>)
    requires Batched(batches, writes, pending, c) && |batches| + 1 < 30 * c + 30
    ensures Batched(batches + [b], writes, pending + b, c)
  {
    var m := 30 * c;
    CheckpointsAppend(batches, [b], c);
    AppendDrop(batches, [b], m);
    FlattenAppend(batches[m..], [b]);
    FlattenSingle(b);
  }

  /** At the end of the loop the checkpoints written are those of the whole
      run, and the pending records are the leftover ones. */
  lemma BatchedFinish(batches: seq<seq<Record>>, writes: seq<Write>, pending: seq<Record>, c: nat)
    requires Batched(batches, writes, pending, c)
    ensures writes == CheckpointWrites(batches)
    ensures writes + (if pending != [] then Save(pending, FinalCheckpoint) else []) ==
      CheckpointWrites(batches) + FinalWrites(batches)
  {
    assert Runs(|batches|) == c;
    if pending == [] {
      assert writes + FinalWrites(batches) == writes;
    }
  }
}
