/** `process_directory` of extract_fulltext.py. The file system is replaced
    by values: an archive is its lines, the source directory is its listing
    plus a map from the names that exist to their lines, and every file
    written is an entry of a returned log. Combining the checkpoints is in
    `Combining`. */
module Pipeline {
  import opened Outcomes
  import opened Records
  import opened Listing
  import opened Tables
  import opened Checkpointing
  import opened Combining

  /** Archives processed when the whole directory is not asked for. */
  const SampleLimit: nat := 3

  /** The listed archives that exist, in order (missing ones are skipped). */
  function Present(files: seq<string>, archives: map<string, seq<Line>>): seq<string> {
    if files == [] then []
    else
      var p := Present(files[..|files| - 1], archives);
      if files[|files| - 1] in archives then p + [files[|files| - 1]] else p
  }

  /** Exactly the listed archives that exist are kept. */
  lemma {:induction false} PresentMembers(files: seq<string>, archives: map<string, seq<Line>>)
    ensures forall x :: x in Present(files, archives) <==> x in files && x in archives
  {
    if files != [] {
      var init := files[..|files| - 1];
      PresentMembers(init, archives);
      assert files == init + [files[|files| - 1]];
    }
  }

  lemma {:induction false} PresentAppend(a: seq<string>, b: seq<string>, archives: map<string, seq<Line>>)
    ensures Present(a + b, archives) == Present(a, archives) + Present(b, archives)
  {
    if b == [] {
      assert a + b == a;
    } else {
      assert (a + b)[..|a + b| - 1] == a + b[..|b| - 1];
      PresentAppend(a, b[..|b| - 1], archives);
    }
  }

  /** The archives `process_directory` processes: the existing ones in order,
      only the first `SampleLimit` of them unless the whole directory is asked for. */
  function Selected(files: seq<string>, archives: map<string, seq<Line>>, processAll: bool): seq<string> {
    var p := Present(files, archives);
    if processAll || |p| <= SampleLimit then p else p[..SampleLimit]
  }

  /** In the limited mode at most `SampleLimit` archives are processed; a
      missing archive is never processed, and every existing one is when the
      whole directory is asked for. */
  lemma SelectedBounds(files: seq<string>, archives: map<string, seq<Line>>, processAll: bool, x: string)
    ensures !processAll ==> |Selected(files, archives, processAll)| <= SampleLimit
    ensures x in Selected(files, archives, processAll) ==> x in files && x in archives
    ensures processAll ==> (x in Selected(files, archives, processAll) <==> x in files && x in archives)
  {
    PresentMembers(files, archives);
  }

  /** What the loop has done after a prefix of the archives: the batches of
      the archives processed so far, or the fault that ended it. */
  datatype Progress = Progress(batches: seq<seq<Record>>, fault: Option<Fault>)

  /** Processing `names` in order until the first fault; a name missing from
      `archives` is skipped, as the loop skips it. */
  function Harvest(names: seq<string>, archives: map<string, seq<Line>>): Progress {
    if names == [] then Progress([], None)
    else
      var p := Harvest(names[..|names| - 1], archives);
      var name := names[|names| - 1];
      if p.fault.Some? || name !in archives then p
      else
        match FullTextRecords(archives[name])
        case Err(f) => Progress(p.batches, Some(f))
        case Ok(b) => Progress(p.batches + [b], None)
  }

  /** The batches are the `process_file` results of the archives in order, up
      to the first archive whose result is a fault. */
  lemma {:induction false} HarvestSpec(names: seq<string>, archives: map<string, seq<Line>>)
    requires forall i :: 0 <= i < |names| ==> names[i] in archives
    ensures var p := Harvest(names, archives);
      && |p.batches| <= |names|
      && (p.fault.None? ==> |p.batches| == |names|)
      && (forall i :: 0 <= i < |p.batches| ==> Ok(p.batches[i]) == FullTextRecords(archives[names[i]]))
      && (p.fault.Some? ==> |p.batches| < |names| && Err(p.fault.value) == FullTextRecords(archives[names[|p.batches|]]))
  {
    if names != [] {
      var init := names[..|names| - 1];
      HarvestSpec(init, archives);
      assert forall i :: 0 <= i < |init| ==> init[i] == names[i];
    }
  }

  /** Every archive of `done` exists and `process_file` gives `batches[k]` for
      the `k`-th of them. */
  ghost predicate Decoded(done: seq<string>, archives: map<string, seq<Line>>, batches: seq<seq<Record>>) {
    && |batches| == |done|
    && forall k :: 0 <= k < |done| ==> done[k] in archives && FullTextRecords(archives[done[k]]) == Ok(batches[k])
  }

  /** When every archive decodes, the run gathers exactly their batches and
      no fault. */
  lemma {:induction false} HarvestDecoded(done: seq<string>, archives: map<string, seq<Line>>, batches: seq<seq<Record>>)
    requires Decoded(done, archives, batches)
    ensures Harvest(done, archives) == Progress(batches, None)
  {
    if done != [] {
      var n := |done| - 1;
      assert Decoded(done[..n], archives, batches[..n]) by {
        forall k | 0 <= k < n
          ensures done[..n][k] in archives && FullTextRecords(archives[done[..n][k]]) == Ok(batches[..n][k])
        {
          assert done[..n][k] == done[k] && batches[..n][k] == batches[k];
        }
      }
      HarvestDecoded(done[..n], archives, batches[..n]);
      assert batches[..n] + [batches[n]] == batches;
    }
  }

  lemma HarvestFault(done: seq<string>, name: string, archives: map<string, seq<Line>>, batches: seq<seq<Record>>, f: Fault)
    requires name in archives && FullTextRecords(archives[name]) == Err(f)
    requires Harvest(done, archives) == Progress(batches, None)
    ensures Harvest(done + [name], archives) == Progress(batches, Some(f))
  {
    assert (done + [name])[..|done|] == done;
  }

  /** A fault ends the run: later archives change nothing. */
  lemma {:induction false} HarvestStopsAtFault(s: seq<string>, t: seq<string>, archives: map<string, seq<Line>>)
    requires Harvest(s, archives).fault.Some?
    ensures Harvest(s + t, archives) == Harvest(s, archives)
  {
    if t != [] {
      assert (s + t)[..|s + t| - 1] == s + t[..|t| - 1];
      HarvestStopsAtFault(s, t[..|t| - 1], archives);
    } else {
      assert s + t == s;
    }
  }

  /** Every record the run gathers is projected and carries full text. */
  lemma {:induction false} HarvestKept(names: seq<string>, archives: map<string, seq<Line>>)
    ensures forall r :: r in Flatten(Harvest(names, archives).batches) ==> IsProjected(r) && HasFullText(r)
  {
    if names != [] {
      var init, name := names[..|names| - 1], names[|names| - 1];
      var p := Harvest(init, archives);
      HarvestKept(init, archives);
      if p.fault.None? && name in archives && FullTextRecords(archives[name]).Ok? {
        var b := FullTextRecords(archives[name]).value;
        FullTextRecordsSpec(archives[name]);
        assert (p.batches + [b])[..|p.batches|] == p.batches;
        forall r | r in b ensures IsProjected(r) && HasFullText(r) {
          var j :| 0 <= j < |b| && b[j] == r;
        }
      }
    }
  }

  /** The checkpoint writes of a run that processed `batches` and, unless a
      fault stopped it, flushed the leftover records. */
  function Flushed(h: Progress): seq<Write> {
    CheckpointWrites(h.batches) + (if h.fault.None? then FinalWrites(h.batches) else [])
  }

  lemma {:induction false} SelectedAfter(files: seq<string>, archives: map<string, seq<Line>>, processAll: bool, i: nat)
    requires i <= |files|
    requires processAll || |Present(files[..i], archives)| <= SampleLimit
    ensures |Present(files[..i], archives)| <= |Selected(files, archives, processAll)|
    ensures Selected(files, archives, processAll)[..|Present(files[..i], archives)|] == Present(files[..i], archives)
    ensures i == |files| || (!processAll && |Present(files[..i], archives)| == SampleLimit) ==>
      Selected(files, archives, processAll) == Present(files[..i], archives)
  {
    assert files == files[..i] + files[i..];
    PresentAppend(files[..i], files[i..], archives);
  }

  /** A fault in the archive just taken ends the run with the batches
      gathered before it, whatever the later archives hold. */
  lemma FaultEndsRun(files: seq<string>, archives: map<string, seq<Line>>, processAll: bool, i: nat,
                     done: seq<string>, name: string, batches: seq<seq<Record>>, f: Fault)
    requires i <= |files|
    requires Present(files[..i], archives) == done + [name]
    requires processAll || |done| < SampleLimit
    requires name in archives && FullTextRecords(archives[name]) == Err(f)
    requires Harvest(done, archives) == Progress(batches, None)
    ensures Harvest(Selected(files, archives, processAll), archives) == Progress(batches, Some(f))
  {
    HarvestFault(done, name, archives, batches, f);
    SelectedAfter(files, archives, processAll, i);
    var sel := Selected(files, archives, processAll);
    var k := |done| + 1;
    assert sel[..k] == done + [name];
    assert sel == sel[..k] + sel[k..];
    HarvestStopsAtFault(done + [name], sel[k..], archives);
  }

  lemma PresentStep(files: seq<string>, i: nat, archives: map<string, seq<Line>>)
    requires i < |files|
    ensures Present(files[..i + 1], archives) ==
      Present(files[..i], archives) + if files[i] in archives then [files[i]] else []
  {
    assert files[..i + 1] == files[..i] + [files[i]];
    PresentAppend(files[..i], [files[i]], archives);
    assert [files[i]][..0] == [];
  }

  /** In the limited mode no numbered checkpoint is written: the run writes
      at most the final checkpoint. */
  lemma LimitedWrites(files: seq<string>, archives: map<string, seq<Line>>, processAll: bool)
    requires !processAll
    ensures var h := Harvest(Selected(files, archives, processAll), archives);
      && CheckpointWrites(h.batches) == []
      && Flushed(h) == if h.fault.None? then FinalWrites(h.batches) else []
  {
    var sel := Selected(files, archives, processAll);
    forall x | x in sel ensures x in archives {
      SelectedBounds(files, archives, processAll, x);
    }
    SelectedBounds(files, archives, processAll, "");
    HarvestSpec(sel, archives);
  }

  /** The state of the loop of `process_directory` after looking at
      `files[..i]`: `done` are the archives processed so far (the existing
      ones, at most `SampleLimit` unless `processAll`), and `batches` their
      records, none of them a fault. */
  ghost predicate Walked(files: seq<string>, archives: map<string, seq<Line>>, processAll: bool, i: nat,
                         done: seq<string>, batches: seq<seq<Record>>) {
    && i <= |files|
    && done == Present(files[..i], archives)
    && (!processAll ==> |done| <= SampleLimit)
    && Decoded(done, archives, batches)
  }

  lemma WalkedStart(files: seq<string>, archives: map<string, seq<Line>>, processAll: bool)
    ensures Walked(files, archives, processAll, 0, [], [])
  {
    assert files[..0] == [];
  }

  /** A missing archive is skipped and does not count. */
  lemma WalkedSkip(files: seq<string>, archives: map<string, seq<Line>>, processAll: bool, i: nat,
                   done: seq<string>, batches: seq<seq<Record>>)
    requires Walked(files, archives, processAll, i, done, batches)
    requires i < |files| && files[i] !in archives
    ensures Walked(files, archives, processAll, i + 1, done, batches)
  {
    PresentStep(files, i, archives);
  }

  /** An existing archive whose records decode is processed and counted. */
  lemma WalkedTake(files: seq<string>, archives: map<string, seq<Line>>, processAll: bool, i: nat,
                   done: seq<string>, batches: seq<seq<Record>>, b: seq<Record>)
    requires Walked(files, archives, processAll, i, done, batches)
    requires i < |files| && files[i] in archives && (processAll || |done| < SampleLimit)
    requires FullTextRecords(archives[files[i]]) == Ok(b)
    ensures Walked(files, archives, processAll, i + 1, done + [files[i]], batches + [b])
  {
    PresentStep(files, i, archives);
    var grownDone, grownBatches := done + [files[i]], batches + [b];
    forall k | 0 <= k < |grownDone|
      ensures grownDone[k] in archives && FullTextRecords(archives[grownDone[k]]) == Ok(grownBatches[k])
    {
      if k < |done| {
        assert grownDone[k] == done[k] && grownBatches[k] == batches[k];
      }
    }
  }

  /** The state of the loop of `process_directory` after looking at
      `files[..i]`: the archives walked (`Walked`), `fileCounter` of them
      processed, and the checkpoints written and records pending for them
      (`Batched`). */
  ghost predicate Looping(files: seq<string>, archives: map<string, seq<Line>>, processAll: bool, i: nat,
                          done: seq<string>, batches: seq<seq<Record>>, fileCounter: nat,
                          writes: seq<Write>, pending: seq<Record>, c: nat) {
    && Walked(files, archives, processAll, i, done, batches)
    && fileCounter == |batches|
    && Batched(batches, writes, pending, c)
  }

  lemma LoopStart(files: seq<string>, archives: map<string, seq<Line>>, processAll: bool)
    ensures Looping(files, archives, processAll, 0, [], [], 0, [], [], 0)
  {
    WalkedStart(files, archives, processAll);
    BatchedStart();
  }

  /** A missing archive is skipped: only the position moves. */
  lemma LoopSkip(files: seq<string>, archives: map<string, seq<Line>>, processAll: bool, i: nat,
                 done: seq<string>, batches: seq<seq<Record>>, fileCounter: nat,
                 writes: seq<Write>, pending: seq<Record>, c: nat)
    requires Looping(files, archives, processAll, i, done, batches, fileCounter, writes, pending, c)
    requires i < |files| && files[i] !in archives
    ensures Looping(files, archives, processAll, i + 1, done, batches, fileCounter, writes, pending, c)
  {
    WalkedSkip(files, archives, processAll, i, done, batches);
  }

  /** A processed archive is counted and its records join the pending ones;
      when the count reaches a multiple of 30 they are flushed to the next
      numbered checkpoint, even when there are none. */
  lemma LoopTake(files: seq<string>, archives: map<string, seq<Line>>, processAll: bool, i: nat,
                 done: seq<string>, batches: seq<seq<Record>>, fileCounter: nat,
                 writes: seq<Write>, pending: seq<Record>, c: nat, b: seq<Record>)
    requires Looping(files, archives, processAll, i, done, batches, fileCounter, writes, pending, c)
    requires i < |files| && files[i] in archives && (processAll || fileCounter < SampleLimit)
    requires FullTextRecords(archives[files[i]]) == Ok(b)
    ensures (fileCounter + 1) % 30 == 0 ==>
      Looping(files, archives, processAll, i + 1, done + [files[i]], batches + [b], fileCounter + 1,
              writes + Save(pending + b, Checkpoint(c + 1)), [], c + 1)
    ensures (fileCounter + 1) % 30 != 0 ==>
      Looping(files, archives, processAll, i + 1, done + [files[i]], batches + [b], fileCounter + 1,
              writes, pending + b, c)
  {
    WalkedTake(files, archives, processAll, i, done, batches, b);
    BatchedAppend(batches, writes, pending, c, b);
  }

  /** A fault in an archive ends the loop with the checkpoints written so far. */
  lemma LoopFault(files: seq<string>, archives: map<string, seq<Line>>, processAll: bool, i: nat,
                  done: seq<string>, batches: seq<seq<Record>>, fileCounter: nat,
                  writes: seq<Write>, pending: seq<Record>, c: nat, f: Fault)
    requires Looping(files, archives, processAll, i, done, batches, fileCounter, writes, pending, c)
    requires i < |files| && files[i] in archives && (processAll || fileCounter < SampleLimit)
    requires FullTextRecords(archives[files[i]]) == Err(f)
    ensures var h := Harvest(Selected(files, archives, processAll), archives);
      writes == Flushed(h) && Some(f) == h.fault
  {
    PresentStep(files, i, archives);
    HarvestDecoded(done, archives, batches);
    FaultEndsRun(files, archives, processAll, i + 1, done, files[i], batches, f);
    BatchedFinish(batches, writes, pending, c);
    assert writes + [] == writes;
  }

  /** One pass of the loop body over `files[i]`, by the outcome of
      `process_file`: a missing archive is skipped, a fault ends the run, and
      otherwise the archive is counted and its records are flushed to the next
      numbered checkpoint exactly when the count reaches a multiple of 30. */
  lemma LoopStep(files: seq<string>, archives: map<string, seq<Line>>, processAll: bool, i: nat,
                 done: seq<string>, batches: seq<seq<Record>>, fileCounter: nat,
                 writes: seq<Write>, pending: seq<Record>, c: nat)
    requires Looping(files, archives, processAll, i, done, batches, fileCounter, writes, pending, c)
    requires i < |files| && (processAll || fileCounter < SampleLimit)
    ensures files[i] !in archives ==>
      Looping(files, archives, processAll, i + 1, done, batches, fileCounter, writes, pending, c)
    ensures files[i] in archives && FullTextRecords(archives[files[i]]).Err? ==>
      var h := Harvest(Selected(files, archives, processAll), archives);
      writes == Flushed(h) && h.fault == Some(FullTextRecords(archives[files[i]]).fault)
    ensures files[i] in archives && FullTextRecords(archives[files[i]]).Ok? ==>
      var b := FullTextRecords(archives[files[i]]).value;
      && ((fileCounter + 1) % 30 == 0 ==>
            Looping(files, archives, processAll, i + 1, done + [files[i]], batches + [b], fileCounter + 1,
                    writes + Save(pending + b, Checkpoint(c + 1)), [], c + 1))
      && ((fileCounter + 1) % 30 != 0 ==>
            Looping(files, archives, processAll, i + 1, done + [files[i]], batches + [b], fileCounter + 1,
                    writes, pending + b, c))
  {
    if files[i] !in archives {
      LoopSkip(files, archives, processAll, i, done, batches, fileCounter, writes, pending, c);
    } else {
      match FullTextRecords(archives[files[i]])
      case Err(f) =>
        LoopFault(files, archives, processAll, i, done, batches, fileCounter, writes, pending, c, f);
      case Ok(b) =>
        LoopTake(files, archives, processAll, i, done, batches, fileCounter, writes, pending, c, b);
    }
  }

  /** When the loop ends, the archives it processed are the selected ones and
      flushing the pending records completes the writes. */
  lemma LoopDone(files: seq<string>, archives: map<string, seq<Line>>, processAll: bool, i: nat,
                 done: seq<string>, batches: seq<seq<Record>>, fileCounter: nat,
                 writes: seq<Write>, pending: seq<Record>, c: nat)
    requires Looping(files, archives, processAll, i, done, batches, fileCounter, writes, pending, c)
    requires i == |files| || (!processAll && fileCounter >= SampleLimit)
    ensures var h := Harvest(Selected(files, archives, processAll), archives);
      && h.fault.None?
      && writes + (if pending != [] then Save(pending, FinalCheckpoint) else []) == Flushed(h)
  {
    SelectedAfter(files, archives, processAll, i);
    HarvestDecoded(done, archives, batches);
    BatchedFinish(batches, writes, pending, c);
  }

  /** One pass of the loop body of `process_directory` over `files[i]`, once
      the limit check at its head has passed: a missing archive is skipped, a
      fault from `process_file` ends the run, and otherwise the archive is
      counted and the pending records go to the next numbered checkpoint when
      the count reaches a multiple of 30. `stop` is the `elif` break of the
      limited mode. */
  method Visit(files: seq<string>, archives: map<string, seq<Line>>, processAll: bool, i: nat,
               ghost done: seq<string>, ghost batches: seq<seq<Record>>, fileCounter: nat,
               writes: seq<Write>, allData: seq<Record>, checkpointCounter: nat)
    returns (stop: bool, fault: Option<Fault>, ghost nextDone: seq<string>, ghost nextBatches: seq<seq<Record>>,
             nextCount: nat, nextWrites: seq<Write>, nextData: seq<Record>, nextCheckpoint: nat)
    requires Looping(files, archives, processAll, i, done, batches, fileCounter, writes, allData, checkpointCounter)
    requires i < |files| && (processAll || fileCounter < SampleLimit)
    ensures fault.Some? ==>
      var h := Harvest(Selected(files, archives, processAll), archives);
      nextWrites == Flushed(h) && fault == h.fault
    ensures fault.None? ==>
      Looping(files, archives, processAll, i + 1, nextDone, nextBatches, nextCount, nextWrites, nextData, nextCheckpoint)
    ensures fault.None? && stop ==> !processAll && nextCount >= SampleLimit
  {
    LoopStep(files, archives, processAll, i, done, batches, fileCounter, writes, allData, checkpointCounter);
    stop, fault := false, None;
    nextDone, nextBatches, nextCount, nextWrites, nextData, nextCheckpoint :=
      done, batches, fileCounter, writes, allData, checkpointCounter;
    var name := files[i];
    if name !in archives {
      return;
    }
    var batch := ProcessFile(archives[name]);
    if batch.Err? {
      fault := Some(batch.fault);
      return;
    }
    nextData := allData + batch.value;
    nextCount := fileCounter + 1;
    nextDone, nextBatches := done + [name], batches + [batch.value];
    if nextCount % 30 == 0 {
      nextCheckpoint := checkpointCounter + 1;
      nextWrites := writes + Save(nextData, Checkpoint(nextCheckpoint));
      nextData := [];
    } else if !processAll && nextCount == SampleLimit {
      stop := true;
    }
  }

  /** The loop of `process_directory` over the ordered archives `files`:
      process each existing one, flush a numbered checkpoint after every
      30 processed archives, stop after `SampleLimit` of them unless
      `processAll`, and flush the leftover records to the final checkpoint.
      A fault stops the loop before the final checkpoint. */
  method ProcessArchives(files: seq<string>, archives: map<string, seq<Line>>, processAll: bool)
    returns (writes: seq<Write>, fault: Option<Fault>)
    ensures var h := Harvest(Selected(files, archives, processAll), archives);
      writes == Flushed(h) && fault == h.fault
  {
    writes, fault := [], None;
    var allData: seq<Record> := [];
    var checkpointCounter: nat := 0;
    var fileCounter: nat := 0;
    ghost var done: seq<string> := [];
    ghost var batches: seq<seq<Record>> := [];
    var i := 0;
    LoopStart(files, archives, processAll);
    while i < |files|
      invariant Looping(files, archives, processAll, i, done, batches, fileCounter, writes, allData, checkpointCounter)
    {
      if !processAll && fileCounter >= SampleLimit {
        break;
      }
      var stop, failed;
      stop, failed, done, batches, fileCounter, writes, allData, checkpointCounter :=
        Visit(files, archives, processAll, i, done, batches, fileCounter, writes, allData, checkpointCounter);
      if failed.Some? {
        fault := failed;
        return;
      }
      i := i + 1;
      if stop {
        break;
      }
    }
    LoopDone(files, archives, processAll, i, done, batches, fileCounter, writes, allData, checkpointCounter);
    if allData != [] {
      writes := writes + Save(allData, FinalCheckpoint);
    }
  }

  /** `process_directory`: order the archives, process them, then combine
      the checkpoint directory. `before` is the checkpoint directory at the
      start and `walk` gives the files `os.walk` meets in a directory: all of
      them, once each, in an order of its choosing. When the checkpoint
      directory held no `.parquet` file and no fault stops the run, the output
      holds exactly the records processed. */
  method ProcessDirectory(listing: seq<string>, archives: map<string, seq<Line>>, processAll: bool,
                          before: map<string, Table>, walk: map<string, Table> -> seq<seq<Entry>>)
    returns (writes: seq<Write>, output: Option<Table>, fault: Option<Fault>)
    requires forall dir :: WalkOf(dir, walk(dir))
    ensures OrderFiles(listing).Err? ==> writes == [] && output == None && fault == Some(OrderFiles(listing).fault)
    ensures OrderFiles(listing).Ok? ==>
      var h := Harvest(Selected(OrderFiles(listing).value, archives, processAll), archives);
      && writes == Flushed(h)
      && (h.fault.Some? ==> output == None && fault == h.fault)
      && (h.fault.None? ==> (output, fault) == CombineResult(Discovered(walk(Apply(before, writes)))))
    ensures OrderFiles(listing).Ok? && NoTableFiles(before) ==>
      var h := Harvest(Selected(OrderFiles(listing).value, archives, processAll), archives);
      h.fault.None? ==> fault.None? && Delivers(output, Flatten(h.batches))
  {
    output := None;
    var ordered := OrderFiles(listing);
    if ordered.Err? {
      writes, fault := [], Some(ordered.fault);
      return;
    }
    writes, fault := ProcessArchives(ordered.value, archives, processAll);
    if fault.Some? {
      return;
    }
    output, fault := CombineCheckpoints(walk(Apply(before, writes)));
    if NoTableFiles(before) {
      var h := Harvest(Selected(ordered.value, archives, processAll), archives);
      HarvestKept(Selected(ordered.value, archives, processAll), archives);
      CombineRun(h.batches, before, walk(Apply(before, writes)));
    }
  }
}
