/** The checkpointed assembler `create_alpaca_dataset`, lines 115-189: it skips rows up
    to the checkpointed id, turns each remaining row into a record, buffers the records,
    and flushes a full buffer to the append-only output while recording the current
    row's id as the new checkpoint. The output file and the checkpoint file are values
    the run starts from and ends with. */
module Assembler {
  import opened Text
  import opened Archive
  import opened ThreadWalker
  import opened Records

  /** The two files the run touches: the output as its sequence of records, and the
      checkpoint file as its contents, `None` when it does not exist. */
  datatype Disk = Disk(output: seq<Record>, checkpoint: Option<string>)

  /** How a run ends: the files as it leaves them, how many records it produced
      (`processed_comments`), and whether it reached the end of the input rather than
      hanging in a thread walk that never returns. */
  datatype RunOutcome = RunOutcome(disk: Disk, processed: nat, finished: bool)

  /** Lines 121-125: the stripped contents of the checkpoint file, if there is one. */
  function LastProcessedId(checkpoint: Option<string>): (r: Option<string>)
    ensures r.None? <==> checkpoint.None?
    ensures r.Some? ==> |r.value| <= |checkpoint.value|
    ensures (r.Some? && (checkpoint.value != [] ==> !IsSpace(checkpoint.value[0]) && !IsSpace(Last(checkpoint.value))))
      ==> r.value == checkpoint.value
  {
    match checkpoint
    case None => None
    case Some(contents) => Some(Strip(contents))
  }

  /** Lines 126-140: the rows the loop processes, which are all of them without a
      checkpoint, and otherwise those after the first row carrying its id. */
  function Pending(rows: seq<Row>, lastId: Option<string>): (r: seq<Row>)
    ensures |r| <= |rows|
    decreases |rows|
  {
    match lastId
    case None => rows
    case Some(id) =>
      if rows == [] then []
      else if rows[0].id == id then rows[1..]
      else Pending(rows[1..], lastId)
  }

  /** Turning one row into its record, as `Records.RecordFor` does for a given archive. */
  type Build = Row -> Outcome<Record>

  /** The archive's `Records.RecordFor`, as a value. */
  function BuildFor(a: Archive): Build
  {
    row => RecordFor(a, row)
  }

  /** The records `build` makes of `rows`, one per row and in row order, up to the
      first row whose record never comes. */
  function Produced(build: Build, rows: seq<Row>): (r: seq<Record>)
    ensures |r| <= |rows|
  {
    if rows == [] then []
    else
      match build(rows[0])
      case Hangs => []
      case Returns(rec) => [rec] + Produced(build, rows[1..])
  }

  /** How many of the first `h` records are written to the output by the time the
      `h`-th is buffered: once the buffer holds `bufferSize` records (line 170) they are
      all written, so every record is written at once when `bufferSize <= 1`, and
      otherwise the largest multiple of `bufferSize` not above `h` are. */
  function Flushed(h: nat, bufferSize: int): (f: nat)
    ensures f <= h
    ensures bufferSize >= 1 ==> h - f < bufferSize
    decreases h
  {
    if bufferSize <= 1 then h
    else if h < bufferSize then 0
    else bufferSize + Flushed(h - bufferSize, bufferSize)
  }

  /** What the loop does with one more record: the buffer, which holds the records
      after the flushed ones, is written out exactly when the new record fills it. */
  lemma {:induction false} FlushedNext(h: nat, bufferSize: int)
    ensures Flushed(h + 1, bufferSize) == if h + 1 - Flushed(h, bufferSize) >= bufferSize then h + 1 else Flushed(h, bufferSize)
    decreases h
  {
    if bufferSize > 1 && h + 1 >= bufferSize {
      if h < bufferSize {
        assert h + 1 == bufferSize;
        assert Flushed(h + 1 - bufferSize, bufferSize) == 0;
      } else {
        FlushedNext(h - bufferSize, bufferSize);
        assert h + 1 - bufferSize == (h - bufferSize) + 1;
      }
    }
  }

  /** The files a run leaves: the old output followed by the produced records (only
      the flushed ones when the run hangs, since the buffer is then never written),
      and a checkpoint naming the row of the last full-buffer flush (lines 170-177), if
      there was one; the end-of-input write (lines 183-187) leaves the checkpoint
      unchanged. */
  function Run(a: Archive, rows: seq<Row>, disk: Disk, bufferSize: int): (r: RunOutcome)
    ensures r.processed <= |Pending(rows, LastProcessedId(disk.checkpoint))|
    ensures r.finished <==> r.processed == |Pending(rows, LastProcessedId(disk.checkpoint))|
    ensures |disk.output| <= |r.disk.output|
  {
    RunWith(BuildFor(a), rows, disk, bufferSize)
  }

  /** `Run`, for any way of turning rows into records. */
  function RunWith(build: Build, rows: seq<Row>, disk: Disk, bufferSize: int): (r: RunOutcome)
    ensures r.processed <= |Pending(rows, LastProcessedId(disk.checkpoint))|
    ensures r.finished <==> r.processed == |Pending(rows, LastProcessedId(disk.checkpoint))|
    ensures |disk.output| <= |r.disk.output|
  {
    var pending := Pending(rows, LastProcessedId(disk.checkpoint));
    var produced := Produced(build, pending);
    var finished := |produced| == |pending|;
    var flushed := Flushed(|produced|, bufferSize);
    var output := disk.output + if finished then produced else produced[..flushed];
    var checkpoint := if flushed == 0 then disk.checkpoint else Some(pending[flushed - 1].id);
    RunOutcome(Disk(output, checkpoint), |produced|, finished)
  }

  /** `create_alpaca_dataset` over `rows`, lines 121-187. */
  method CreateAlpacaDataset(a: Archive, rows: seq<Row>, disk: Disk, bufferSize: int) returns (r: RunOutcome)
    ensures r == Run(a, rows, disk, bufferSize)
  {
    var lastId := LastProcessedId(disk.checkpoint);
    ghost var pending := Pending(rows, lastId);
    ghost var build := BuildFor(a);
    var starting := lastId.None?;
    var output := disk.output;
    var checkpoint := disk.checkpoint;
    var buffer: seq<Record> := [];
    var processed: nat := 0;
    ghost var start := 0;
    ghost var produced: seq<Record> := [];
    StoredAtStart(disk, pending, bufferSize);
    for i := 0 to |rows|
      invariant Resumed(rows, lastId, i, starting, start)
      invariant |produced| == (if starting then i - start else 0)
      invariant Yielded(build, pending, produced)
      invariant processed == |produced|
      invariant Stored(disk, pending, produced, bufferSize, Disk(output, checkpoint), buffer)
    {
      var row := rows[i];
      if !starting && row.id == lastId.value {
        ResumeAtMatch(rows, lastId, i, start);
        starting := true;
        start := i + 1;
        continue;
      }
      if !starting {
        SkipRow(rows, lastId, i, start);
        continue;
      }
      NextPending(rows, lastId, i, start);
      var next := ProcessRow(a, row);
      assert build(row) == next;
      if next.Hangs? {
        ProducedUnique(build, pending, produced);
        RunThatHangs(build, rows, disk, bufferSize, produced, Disk(output, checkpoint), buffer);
        return RunOutcome(Disk(output, checkpoint), processed, false);
      }
      var record := next.value;
      YieldedMore(build, pending, produced, record);
      ghost var before, held, made := Disk(output, checkpoint), buffer, produced;
      produced := produced + [record];
      buffer := buffer + [record];
      processed := processed + 1;
      if |buffer| >= bufferSize {
        output := output + buffer;
        buffer := [];
        checkpoint := Some(row.id);
        StoredAfterFlush(disk, pending, made, bufferSize, before, held, record);
      } else {
        StoredWithoutFlush(disk, pending, made, bufferSize, before, held, record);
      }
    }
    ResumedAtEnd(rows, lastId, starting, start);
    ProducedUnique(build, pending, produced);
    RunThatFinishes(build, rows, disk, bufferSize, produced, Disk(output, checkpoint), buffer);
    if buffer != [] {
      output := output + buffer;
    } else {
      assert output + buffer == output;
    }
    return RunOutcome(Disk(output, checkpoint), processed, true);
  }

  /** Where the loop of lines 132-140 stands after `i` rows: before the resume point
      the rows still to come decide what is pending; after it, the pending rows are
      those from `start` on. */
  ghost predicate Resumed(rows: seq<Row>, lastId: Option<string>, i: int, starting: bool, start: int)
  {
    && 0 <= i <= |rows|
    && if starting then 0 <= start <= i && Pending(rows, lastId) == rows[start..]
       else lastId.Some? && Pending(rows, lastId) == Pending(rows[i..], lastId)
  }

  lemma ResumeAtMatch(rows: seq<Row>, lastId: Option<string>, i: int, start: int)
    requires Resumed(rows, lastId, i, false, start) && i < |rows| && rows[i].id == lastId.value
    ensures Resumed(rows, lastId, i + 1, true, i + 1)
  {
    assert rows[i..][1..] == rows[i + 1..];
  }

  lemma SkipRow(rows: seq<Row>, lastId: Option<string>, i: int, start: int)
    requires Resumed(rows, lastId, i, false, start) && i < |rows| && rows[i].id != lastId.value
    ensures Resumed(rows, lastId, i + 1, false, start)
  {
    assert rows[i..][1..] == rows[i + 1..];
  }

  lemma NextPending(rows: seq<Row>, lastId: Option<string>, i: int, start: int)
    requires Resumed(rows, lastId, i, true, start) && i < |rows|
    ensures Resumed(rows, lastId, i + 1, true, start)
    ensures i - start < |Pending(rows, lastId)| && Pending(rows, lastId)[i - start] == rows[i]
  {
  }

  lemma ResumedAtEnd(rows: seq<Row>, lastId: Option<string>, starting: bool, start: int)
    requires Resumed(rows, lastId, |rows|, starting, start)
    ensures |Pending(rows, lastId)| == if starting then |rows| - start else 0
  {
    if !starting {
      assert rows[|rows|..] == [];
    }
  }

  /** `produced` holds the records of the first rows of `pending`. */
  ghost predicate Yielded(build: Build, pending: seq<Row>, produced: seq<Record>)
  {
    && |produced| <= |pending|
    && forall k :: 0 <= k < |produced| ==> build(pending[k]) == Returns(produced[k])
  }

  lemma YieldedMore(build: Build, pending: seq<Row>, produced: seq<Record>, record: Record)
    requires Yielded(build, pending, produced) && |produced| < |pending|
    requires build(pending[|produced|]) == Returns(record)
    ensures Yielded(build, pending, produced + [record])
  {
  }

  /** What the output file, the checkpoint file and the buffer hold once `produced`,
      the records of the first rows of `pending`, have been appended one by one. */
  ghost predicate Stored(disk: Disk, pending: seq<Row>, produced: seq<Record>, bufferSize: int, now: Disk, buffer: seq<Record>)
    requires |produced| <= |pending|
  {
    var flushed := Flushed(|produced|, bufferSize);
    && now.output + buffer == disk.output + produced
    && |buffer| == |produced| - flushed
    && now.checkpoint == if flushed == 0 then disk.checkpoint else Some(pending[flushed - 1].id)
  }

  lemma StoredAtStart(disk: Disk, pending: seq<Row>, bufferSize: int)
    ensures Stored(disk, pending, [], bufferSize, Disk(disk.output, disk.checkpoint), [])
  {
    assert disk.output + [] == disk.output;
  }

  /** Lines 167-168 and 170-177 keep `Stored` when the new record fills the buffer:
      the buffer is appended to the output and the checkpoint set to the id of the
      record's row. */
  lemma StoredAfterFlush(disk: Disk, pending: seq<Row>, produced: seq<Record>, bufferSize: int, now: Disk, buffer: seq<Record>, record: Record)
    requires |produced| < |pending|
    requires Stored(disk, pending, produced, bufferSize, now, buffer)
    requires |buffer + [record]| >= bufferSize
    ensures Stored(disk, pending, produced + [record], bufferSize, Disk(now.output + (buffer + [record]), Some(pending[|produced|].id)), [])
  {
    FlushedNext(|produced|, bufferSize);
    StoredAppend(disk, produced, now, buffer, record);
    assert now.output + (buffer + [record]) + [] == now.output + (buffer + [record]);
  }

  /** Lines 167-168 keep `Stored` when the buffer still has room: the record joins it. */
  lemma StoredWithoutFlush(disk: Disk, pending: seq<Row>, produced: seq<Record>, bufferSize: int, now: Disk, buffer: seq<Record>, record: Record)
    requires |produced| < |pending|
    requires Stored(disk, pending, produced, bufferSize, now, buffer)
    requires |buffer + [record]| < bufferSize
    ensures Stored(disk, pending, produced + [record], bufferSize, now, buffer + [record])
  {
    FlushedNext(|produced|, bufferSize);
    StoredAppend(disk, produced, now, buffer, record);
  }

  /** Appending a record to the buffer keeps output-then-buffer equal to the old output
      followed by the records produced. */
  lemma StoredAppend(disk: Disk, produced: seq<Record>, now: Disk, buffer: seq<Record>, record: Record)
    requires now.output + buffer == disk.output + produced
    ensures now.output + (buffer + [record]) == disk.output + (produced + [record])
  {
    assert now.output + (buffer + [record]) == (now.output + buffer) + [record];
  }

  /** Lines 170-177: during the loop the output, the buffer aside, is the old output
      followed by exactly the records the full-buffer flushes wrote. */
  lemma StoredFlushed(disk: Disk, pending: seq<Row>, produced: seq<Record>, bufferSize: int, now: Disk, buffer: seq<Record>)
    requires |produced| <= |pending|
    requires Stored(disk, pending, produced, bufferSize, now, buffer)
    ensures now.output == disk.output + produced[..Flushed(|produced|, bufferSize)]
  {
    var f := Flushed(|produced|, bufferSize);
    assert disk.output + produced == (disk.output + produced[..f]) + produced[f..];
    assert |now.output| == |disk.output + produced[..f]|;
    assert now.output == (now.output + buffer)[..|now.output|];
  }

  /** A run that hangs leaves the files as they were at the last full-buffer flush. */
  lemma RunThatHangs(build: Build, rows: seq<Row>, disk: Disk, bufferSize: int, produced: seq<Record>, now: Disk, buffer: seq<Record>)
    requires var pending := Pending(rows, LastProcessedId(disk.checkpoint));
      && produced == Produced(build, pending) && |produced| < |pending|
      && Stored(disk, pending, produced, bufferSize, now, buffer)
    ensures RunWith(build, rows, disk, bufferSize) == RunOutcome(now, |produced|, false)
  {
    StoredFlushed(disk, Pending(rows, LastProcessedId(disk.checkpoint)), produced, bufferSize, now, buffer);
  }

  /** A run that reaches the end of its rows appends what is left in the buffer. */
  lemma RunThatFinishes(build: Build, rows: seq<Row>, disk: Disk, bufferSize: int, produced: seq<Record>, now: Disk, buffer: seq<Record>)
    requires var pending := Pending(rows, LastProcessedId(disk.checkpoint));
      && produced == Produced(build, pending) && |produced| == |pending|
      && Stored(disk, pending, produced, bufferSize, now, buffer)
    ensures RunWith(build, rows, disk, bufferSize) == RunOutcome(Disk(now.output + buffer, now.checkpoint), |produced|, true)
  {
    var pending := Pending(rows, LastProcessedId(disk.checkpoint));
    var flushed := Flushed(|produced|, bufferSize);
    var checkpoint := if flushed == 0 then disk.checkpoint else Some(pending[flushed - 1].id);
    assert checkpoint == now.checkpoint;
    assert RunWith(build, rows, disk, bufferSize) == RunOutcome(Disk(disk.output + produced, checkpoint), |produced|, true);
  }

  /** The three facts `Produced` promises determine it. */
  lemma {:induction false} ProducedUnique(build: Build, rows: seq<Row>, r: seq<Record>)
    requires Yielded(build, rows, r)
    requires |r| < |rows| ==> build(rows[|r|]).Hangs?
    ensures r == Produced(build, rows)
    decreases |rows|
  {
    if rows != [] && r != [] {
      assert build(rows[0]) == Returns(r[0]);
      assert forall i :: 0 <= i < |r| - 1 ==> build(rows[1..][i]) == Returns(r[1..][i]) by {
        forall i | 0 <= i < |r| - 1
          ensures build(rows[1..][i]) == Returns(r[1..][i])
        {
          assert rows[1..][i] == rows[i + 1] && r[1..][i] == r[i + 1];
        }
      }
      assert |r| - 1 < |rows| - 1 ==> rows[1..][|r| - 1] == rows[|r|];
      ProducedUnique(build, rows[1..], r[1..]);
      assert r == [r[0]] + r[1..];
    }
  }

  /** The resume rule of lines 126-140 without a checkpoint, and with one whose id no
      row carries. */
  lemma {:induction false} PendingCases(rows: seq<Row>, lastId: Option<string>)
    ensures lastId.None? ==> Pending(rows, lastId) == rows
    ensures lastId.Some? && (forall j :: 0 <= j < |rows| ==> rows[j].id != lastId.value) ==> Pending(rows, lastId) == []
    decreases |rows|
  {
    if lastId.Some? && rows != [] && rows[0].id != lastId.value {
      PendingCases(rows[1..], lastId);
      assert forall j :: 0 <= j < |rows| - 1 ==> rows[1..][j] == rows[j + 1];
    }
  }

  /** With a checkpoint, processing starts right after the first row carrying its id. */
  lemma {:induction false} PendingAfterFirstMatch(rows: seq<Row>, id: string, k: nat)
    requires k < |rows| && rows[k].id == id
    requires forall j :: 0 <= j < k ==> rows[j].id != id
    ensures Pending(rows, Some(id)) == rows[k + 1..]
    decreases k
  {
    if k > 0 {
      assert forall j :: 0 <= j < k - 1 ==> rows[1..][j] == rows[j + 1];
      PendingAfterFirstMatch(rows[1..], id, k - 1);
      assert rows[1..][k..] == rows[k + 1..];
    }
  }

  /** The pending rows are always the tail of the input. */
  lemma {:induction false} PendingIsSuffix(rows: seq<Row>, lastId: Option<string>)
    ensures Pending(rows, lastId) == rows[|rows| - |Pending(rows, lastId)|..]
    decreases |rows|
  {
    if lastId.Some? && rows != [] && rows[0].id != lastId.value {
      PendingIsSuffix(rows[1..], lastId);
      assert rows[1..][|rows| - 1 - |Pending(rows, lastId)|..] == rows[|rows| - |Pending(rows, lastId)|..];
    }
  }

  /** `Produced` holds the records of the first rows, up to one whose record never
      comes. */
  lemma {:induction false} ProducedYields(build: Build, rows: seq<Row>)
    ensures Yielded(build, rows, Produced(build, rows))
    ensures |Produced(build, rows)| < |rows| ==> build(rows[|Produced(build, rows)|]).Hangs?
    decreases |rows|
  {
    if rows != [] && build(rows[0]).Returns? {
      var tail := Produced(build, rows[1..]);
      ProducedYields(build, rows[1..]);
      assert Produced(build, rows) == [build(rows[0]).value] + tail;
      forall k | 1 <= k <= |tail|
        ensures build(rows[k]) == Returns(Produced(build, rows)[k])
      {
        assert rows[k] == rows[1..][k - 1];
      }
      if |tail| < |rows| - 1 {
        assert rows[1..][|tail|] == rows[|tail| + 1];
      }
    }
  }

  /** What a run writes: the records of the pending rows, one per row and in row order,
      every one of them when it reaches the end of its rows, and otherwise those of the
      last full-buffer flush, fewer than a buffer short of what it produced before the row it
      hangs on. */
  lemma RunWrites(a: Archive, rows: seq<Row>, disk: Disk, bufferSize: int)
    ensures var r := Run(a, rows, disk, bufferSize);
      var pending := Pending(rows, LastProcessedId(disk.checkpoint));
      var written := |r.disk.output| - |disk.output|;
      && 0 <= written <= r.processed <= |pending|
      && r.disk.output[..|disk.output|] == disk.output
      && (forall k :: 0 <= k < written ==> RecordFor(a, pending[k]) == Returns(r.disk.output[|disk.output| + k]))
      && (r.finished ==> written == r.processed == |pending|)
      && (!r.finished ==> RecordFor(a, pending[r.processed]).Hangs? && written == Flushed(r.processed, bufferSize))
      && (!r.finished && bufferSize >= 1 ==> r.processed - written < bufferSize)
  {
    var build := BuildFor(a);
    var r := Run(a, rows, disk, bufferSize);
    var pending := Pending(rows, LastProcessedId(disk.checkpoint));
    var produced := Produced(build, pending);
    ProducedYields(build, pending);
    var f := Flushed(|produced|, bufferSize);
    var out := if r.finished then produced else produced[..f];
    assert r.disk.output == disk.output + out;
    assert r.disk.output[..|disk.output|] == disk.output;
    forall k | 0 <= k < |out|
      ensures RecordFor(a, pending[k]) == Returns(r.disk.output[|disk.output| + k])
    {
      assert r.disk.output[|disk.output| + k] == produced[k];
      assert build(pending[k]) == Returns(produced[k]);
    }
    if !r.finished {
      assert build(pending[|produced|]).Hangs?;
    }
  }

  /** The checkpoint `r` leaves is the one the run found until the first full-buffer
      flush (lines 170-177), and after that the id of the last record written by such a
      flush; the end-of-input write (lines 183-187) leaves the checkpoint unchanged, so
      the records it writes come after the checkpointed one. */
  ghost predicate CheckpointIsLastFlushed(disk: Disk, bufferSize: int, r: RunOutcome)
  {
    var f := Flushed(r.processed, bufferSize);
    && (f == 0 ==> r.disk.checkpoint == disk.checkpoint)
    && (f > 0 ==> |disk.output| + f <= |r.disk.output| && r.disk.checkpoint == Some(r.disk.output[|disk.output| + f - 1].messageId))
  }

  /** Lines 170-177: each full-buffer flush names the last record it writes in the
      checkpoint; the end-of-input write of lines 183-187 does not touch it. */
  lemma RunCheckpoint(a: Archive, rows: seq<Row>, disk: Disk, bufferSize: int)
    ensures CheckpointIsLastFlushed(disk, bufferSize, Run(a, rows, disk, bufferSize))
  {
    BuildKeepsIds(a);
    CheckpointWith(BuildFor(a), rows, disk, bufferSize);
  }

  /** `RunCheckpoint`, for any way of turning rows into records that keeps the row id. */
  lemma CheckpointWith(build: Build, rows: seq<Row>, disk: Disk, bufferSize: int)
    requires forall row, rec :: build(row) == Returns(rec) ==> rec.messageId == row.id
    ensures CheckpointIsLastFlushed(disk, bufferSize, RunWith(build, rows, disk, bufferSize))
  {
    var r := RunWith(build, rows, disk, bufferSize);
    var pending := Pending(rows, LastProcessedId(disk.checkpoint));
    var produced := Produced(build, pending);
    var f := Flushed(|produced|, bufferSize);
    if f > 0 {
      ProducedYields(build, pending);
      var out := if r.finished then produced else produced[..f];
      assert r.disk.output == disk.output + out;
      assert r.disk.output[|disk.output| + f - 1] == produced[f - 1];
      assert build(pending[f - 1]) == Returns(produced[f - 1]);
    }
  }

  /** Every record carries the id of the row it was made from. */
  lemma BuildKeepsIds(a: Archive)
    ensures forall row, rec :: BuildFor(a)(row) == Returns(rec) ==> rec.messageId == row.id
  {
    forall row, rec | BuildFor(a)(row) == Returns(rec)
      ensures rec.messageId == row.id
    {
      assert RecordFor(a, row) == Returns(rec);
    }
  }

  /** Resuming after a run that flushed: when row ids are distinct and free of
      surrounding whitespace, the next run processes exactly the rows after the last
      flushed one, so nothing flushed before it is produced again, while the records
      written only by the end-of-input write of lines 183-187, which leaves the
      checkpoint unchanged, are produced once more. */
  lemma ResumeAfterRun(a: Archive, rows: seq<Row>, disk: Disk, bufferSize: int)
    requires forall j, k :: 0 <= j < k < |rows| ==> rows[j].id != rows[k].id
    requires forall j :: 0 <= j < |rows| ==> Strip(rows[j].id) == rows[j].id
    ensures var r := Run(a, rows, disk, bufferSize);
      var f := Flushed(r.processed, bufferSize);
      f > 0 ==>
        Pending(rows, LastProcessedId(r.disk.checkpoint)) == Pending(rows, LastProcessedId(disk.checkpoint))[f..]
  {
    var pending := Pending(rows, LastProcessedId(disk.checkpoint));
    var f := Flushed(|Produced(BuildFor(a), pending)|, bufferSize);
    if f > 0 {
      ResumeAt(rows, LastProcessedId(disk.checkpoint), f);
    }
  }

  /** A checkpoint naming the `f`-th pending row makes the pending rows those after it. */
  lemma ResumeAt(rows: seq<Row>, lastId: Option<string>, f: nat)
    requires forall j, k :: 0 <= j < k < |rows| ==> rows[j].id != rows[k].id
    requires forall j :: 0 <= j < |rows| ==> Strip(rows[j].id) == rows[j].id
    requires 0 < f <= |Pending(rows, lastId)|
    ensures Pending(rows, LastProcessedId(Some(Pending(rows, lastId)[f - 1].id))) == Pending(rows, lastId)[f..]
  {
    var pending := Pending(rows, lastId);
    PendingIsSuffix(rows, lastId);
    var k := |rows| - |pending| + f - 1;
    assert pending[f - 1] == rows[k];
    PendingAfterFirstMatch(rows, rows[k].id, k);
    assert rows[k + 1..] == pending[f..];
  }
}
