/** The storage pipeline as functions of its abstract state: the buffered
    readings and the committed rows. Each operation of the Storage class is
    proved equal to one of these functions; the lemmas state what the
    operations promise. Database calls that may fail are given as fault
    parameters chosen by the environment. */
module Pipeline {
  import opened Telemetry
  import opened SensorLog

  /** The buffer contents, oldest first, and the rows of sensor_log. */
  datatype State = State(buffer: seq<Reading>, log: seq<Row>)

  /** What an operation returns and the state it leaves. */
  datatype Step = Step(outcome: Outcome, post: State)

  /** How the database answers one Flush: whether Begin succeeds, the index
      of the first insert that fails (if any), and whether Commit succeeds. */
  datatype FlushFaults = FlushFaults(beginOk: bool, failingInsert: Option<nat>, commitOk: bool)

  /** How the database answers one Fetch that reaches the store: whether
      Begin and Query succeed, the index at which rows.Next stops early on a
      driver error (the code never consults rows.Err), and the index of the
      first row whose Scan fails. */
  datatype FetchFaults = FetchFaults(
    beginOk: bool,
    queryOk: bool,
    rowsEndAt: Option<nat>,
    failingScan: Option<nat>)

  predicate InsertFailsWithin(f: FlushFaults, n: nat)
  {
    f.failingInsert.Some? && f.failingInsert.value < n
  }

  /** Every database call of a Flush succeeds. */
  predicate FlushClean(f: FlushFaults)
  {
    f.beginOk && f.failingInsert.None? && f.commitOk
  }

  /** Every database call of a Fetch succeeds. */
  predicate FetchClean(f: FetchFaults)
  {
    f.beginOk && f.queryOk && f.rowsEndAt.None? && f.failingScan.None?
  }

  /** The buffer plus the committed rows, as one logical stream of rows. */
  function Stream(s: State): (rows: seq<Row>)
  {
    s.log + Projected(s.buffer)
  }

  // ---------------------------------------------------------------- Flush

  /** Flush: begin a transaction, insert every buffered reading in order
      (rolling back and returning at the first failing insert), truncate the
      buffer, then commit. The buffer is emptied before the commit is tried. */
  function FlushSpec(s: State, f: FlushFaults): (r: Step)
    ensures |r.post.buffer| <= |s.buffer|
    ensures r.post.log == s.log || r.post.log == s.log + Projected(s.buffer)
  {
    if !f.beginOk then Step(Fail(BeginFailed), s)
    else if InsertFailsWithin(f, |s.buffer|) then Step(Fail(InsertFailed(f.failingInsert.value)), s)
    else if !f.commitOk then Step(Fail(CommitFailed), State([], s.log))
    else Step(Pass, State([], s.log + Projected(s.buffer)))
  }

  /** A Flush succeeds exactly when Begin, every insert of the batch and
      Commit succeed; it then appends the batch to the log in buffer order
      and empties the buffer. */
  lemma FlushCommitsBatch(s: State, f: FlushFaults)
    ensures FlushSpec(s, f).outcome == Pass <==>
      f.beginOk && !InsertFailsWithin(f, |s.buffer|) && f.commitOk
    ensures FlushSpec(s, f).outcome == Pass ==>
      FlushSpec(s, f).post == State([], s.log + Projected(s.buffer))
  {
  }

  /** A Flush that fails at Begin or at an insert changes nothing: the
      transaction is rolled back before the buffer is truncated. */
  lemma FlushRollsBack(s: State, f: FlushFaults)
    requires FlushSpec(s, f).outcome == Fail(BeginFailed)
      || (FlushSpec(s, f).outcome.Fail? && FlushSpec(s, f).outcome.error.InsertFailed?)
    ensures FlushSpec(s, f).post == s
    ensures FlushSpec(s, f).outcome.error.InsertFailed? ==> FlushSpec(s, f).outcome.error.index < |s.buffer|
  {
  }

  /** A Flush whose Commit fails has already truncated the buffer: the log
      is unchanged, the buffer is empty, and a non-empty batch is lost. */
  lemma FlushCommitFailureDropsBatch(s: State, f: FlushFaults)
    requires FlushSpec(s, f).outcome == Fail(CommitFailed)
    ensures FlushSpec(s, f).post == State([], s.log)
    ensures s.buffer != [] ==> Stream(FlushSpec(s, f).post) != Stream(s)
  {
  }

  /** A Flush of an empty buffer leaves the state as it is, whatever the
      database answers; so a second Flush after a successful one is a no-op. */
  lemma FlushTwiceIsNoOp(s: State, f: FlushFaults, g: FlushFaults)
    requires FlushSpec(s, f).outcome == Pass
    ensures FlushSpec(FlushSpec(s, f).post, g).post == FlushSpec(s, f).post
    ensures s.buffer == [] ==> FlushSpec(s, g).post == s
  {
  }

  /** After a successful Flush every flushed reading can be read back: the
      query for as many rows as were flushed returns their rows, newest
      first, and each scans back to the reading without its latency. */
  lemma FlushedReadingsAreQueryable(s: State, f: FlushFaults)
    requires FlushSpec(s, f).outcome == Pass
    ensures QueryRecent(FlushSpec(s, f).post.log, |s.buffer|) == Reverse(Projected(s.buffer))
    ensures forall i :: 0 <= i < |s.buffer| ==>
      FromRow(QueryRecent(FlushSpec(s, f).post.log, |s.buffer|)[i]) == s.buffer[|s.buffer| - 1 - i].(elapsed := 0)
  {
    var batch := Projected(s.buffer);
    assert FlushSpec(s, f).post.log == s.log + batch;
    QueryAfterAppend(s.log, batch);
    var back := Reverse(batch);
    forall i | 0 <= i < |s.buffer|
      ensures FromRow(back[i]) == s.buffer[|s.buffer| - 1 - i].(elapsed := 0)
    {
      var k := |s.buffer| - 1 - i;
      assert back[i] == batch[k] == Project(s.buffer[k]);
      RowRoundTrip(s.buffer[k], back[i]);
    }
  }

  // ------------------------------------------------------------------ Add

  /** Add: refuse when the buffer is at capacity; otherwise append, and when
      that fills the buffer, flush it and return the Flush's error. */
  function AddSpec(s: State, cap: nat, x: Reading, f: FlushFaults): (r: Step)
    requires |s.buffer| <= cap
    ensures |r.post.buffer| <= cap
    ensures r.outcome == Fail(BufferFull) <==> |s.buffer| == cap
    ensures r.outcome == Pass ==> |r.post.buffer| < cap
  {
    if |s.buffer| == cap then Step(Fail(BufferFull), s)
    else
      var appended := State(s.buffer + [x], s.log);
      if |appended.buffer| == cap then FlushSpec(appended, f)
      else Step(Pass, appended)
  }

  /** Add on a full buffer reports BufferFull and changes nothing. */
  lemma AddRefusesWhenFull(s: State, cap: nat, x: Reading, f: FlushFaults)
    requires |s.buffer| == cap
    ensures AddSpec(s, cap, x, f) == Step(Fail(BufferFull), s)
  {
  }

  /** Add that leaves room appends the reading at the end, leaves the log
      alone and succeeds. */
  lemma AddAppends(s: State, cap: nat, x: Reading, f: FlushFaults)
    requires |s.buffer| + 1 < cap
    ensures AddSpec(s, cap, x, f) == Step(Pass, State(s.buffer + [x], s.log))
  {
  }

  /** When the reading fills the buffer and the flush fails, the error is
      returned with the reading already appended: the buffer stays full after
      a failure at Begin or at an insert, and is empty after a failed Commit. */
  lemma AddFlushFailure(s: State, cap: nat, x: Reading, f: FlushFaults)
    requires |s.buffer| + 1 == cap
    requires AddSpec(s, cap, x, f).outcome.Fail?
    ensures AddSpec(s, cap, x, f).outcome != Fail(CommitFailed) ==>
      AddSpec(s, cap, x, f).post == State(s.buffer + [x], s.log) &&
      |AddSpec(s, cap, x, f).post.buffer| == cap
    ensures AddSpec(s, cap, x, f).outcome == Fail(CommitFailed) ==>
      AddSpec(s, cap, x, f).post == State([], s.log)
  {
  }

  /** A successful Add loses nothing and reorders nothing: the logical stream
      grows by exactly the added reading. The log is only ever appended to. */
  lemma AddConserves(s: State, cap: nat, x: Reading, f: FlushFaults)
    requires |s.buffer| <= cap
    ensures s.log <= AddSpec(s, cap, x, f).post.log
    ensures AddSpec(s, cap, x, f).outcome == Pass ==>
      Stream(AddSpec(s, cap, x, f).post) == Stream(s) + [Project(x)]
  {
  }

  // ---------------------------------------------------------------- Fetch

  /** The rows a query delivers before rows.Next stops. */
  function Delivered(rows: seq<Row>, endAt: Option<nat>): (d: seq<Row>)
    ensures d <= rows
    ensures endAt.None? ==> d == rows
  {
    if endAt.Some? && endAt.value < |rows| then rows[..endAt.value] else rows
  }

  /** Fetch(last): when the buffer holds at least `last` readings, the
      buffer from index `last` on; otherwise the newest `last - |buffer|`
      rows of the log, newest first, scanned back into readings, followed by
      the whole buffer. */
  function FetchSpec(buffer: seq<Reading>, log: seq<Row>, last: nat, f: FetchFaults): (r: Result<seq<Reading>>)
    ensures r.Failure? ==> |buffer| < last
    ensures r.Ok? && |buffer| < last ==>
      |buffer| <= |r.value| <= last && r.value[|r.value| - |buffer|..] == buffer
  {
    if last <= |buffer| then Ok(buffer[last..])
    else if !f.beginOk then Failure(BeginFailed)
    else if !f.queryOk then Failure(QueryFailed)
    else
      var rows := Delivered(QueryRecent(log, last - |buffer|), f.rowsEndAt);
      if f.failingScan.Some? && f.failingScan.value < |rows| then Failure(ScanFailed(f.failingScan.value))
      else Ok(Restored(rows) + buffer)
  }

  /** When the buffer alone covers the request, Fetch never touches the
      store and returns the buffer from index `last` on: |buffer| - last
      readings, not the newest `last`. Fetch(|buffer|) is empty, Fetch(0) is
      the whole buffer, and a small request can return more than it asked. */
  lemma FetchFromBufferIsSuffixFromLast(buffer: seq<Reading>, log: seq<Row>, last: nat, f: FetchFaults)
    requires last <= |buffer|
    ensures FetchSpec(buffer, log, last, f) == Ok(buffer[last..])
    ensures |FetchSpec(buffer, log, last, f).value| == |buffer| - last
    ensures FetchSpec(buffer, log, |buffer|, f) == Ok([])
    ensures FetchSpec(buffer, log, 0, f) == Ok(buffer)
    ensures 2 * last < |buffer| ==> |FetchSpec(buffer, log, last, f).value| > last
  {
    assert buffer[|buffer|..] == [];
    assert buffer[0..] == buffer;
  }

  /** When the buffer is shorter than the request and the database answers,
      Fetch returns min(last - |buffer|, |log|) rows of the log, newest first,
      each with a zero latency, followed by the buffer in insertion order. */
  lemma FetchMergesNewestFirst(buffer: seq<Reading>, log: seq<Row>, last: nat, f: FetchFaults)
    requires |buffer| < last && FetchClean(f)
    ensures FetchSpec(buffer, log, last, f).Ok?
    ensures var v, m := FetchSpec(buffer, log, last, f).value, Min(last - |buffer|, |log|);
      |v| == m + |buffer| && |v| <= last &&
      v[m..] == buffer &&
      forall i :: 0 <= i < m ==> v[i] == FromRow(log[|log| - 1 - i]) && v[i].elapsed == 0
  {
  }

  /** On a chronological log the part of a Fetch result taken from the store
      runs from the newest row to older ones, so the result is not in time
      order as a whole once it holds two store rows. */
  lemma FetchStorePartDescends(buffer: seq<Reading>, log: seq<Row>, last: nat, f: FetchFaults)
    requires |buffer| < last && FetchClean(f) && Chronological(log)
    ensures var v, m := FetchSpec(buffer, log, last, f).value, Min(last - |buffer|, |log|);
      forall i, j :: 0 <= i < j < m ==> v[i].timestamp > v[j].timestamp
  {
  }

  /** rows.Next stopping early on a driver error is not reported: Fetch
      succeeds with only the rows delivered before it stopped, followed by
      the buffer. */
  lemma FetchTruncatesSilently(buffer: seq<Reading>, log: seq<Row>, last: nat, f: FetchFaults, j: nat)
    requires |buffer| < last && f.beginOk && f.queryOk && f.failingScan.None?
    requires f.rowsEndAt == Some(j) && j < Min(last - |buffer|, |log|)
    ensures FetchSpec(buffer, log, last, f).Ok?
    ensures |FetchSpec(buffer, log, last, f).value| == j + |buffer| < Min(last - |buffer|, |log|) + |buffer|
  {
  }

  // ---------------------------------------------------------------- serve

  /** Where a run of the serving loop ends: the last Add's outcome, the
      state, and how many readings were handed to Add. */
  datatype Run = Run(outcome: Outcome, post: State, consumed: nat)

  /** The serving loop from reading i on: Add each reading in turn and stop
      at the first error (which ends the process); fs[i] answers the flush
      that Add of xs[i] may trigger. */
  function ServeFrom(s: State, cap: nat, xs: seq<Reading>, fs: seq<FlushFaults>, i: nat): (r: Run)
    requires |s.buffer| <= cap && |fs| == |xs| && i <= |xs|
    ensures |r.post.buffer| <= cap
    ensures i <= r.consumed <= |xs|
    ensures r.outcome == Pass ==> r.consumed == |xs|
    ensures r.outcome.Fail? ==> i < r.consumed
    decreases |xs| - i
  {
    if i == |xs| then Run(Pass, s, i)
    else
      var step := AddSpec(s, cap, xs[i], fs[i]);
      if step.outcome.Fail? then Run(step.outcome, step.post, i + 1)
      else ServeFrom(step.post, cap, xs, fs, i + 1)
  }

  /** The log is only appended to, and a run without error never leaves the
      buffer full unless it received nothing and started full. */
  lemma {:induction false} ServeKeepsRoom(s: State, cap: nat, xs: seq<Reading>, fs: seq<FlushFaults>, i: nat)
    requires |s.buffer| <= cap && |fs| == |xs| && i <= |xs|
    ensures ServeFrom(s, cap, xs, fs, i).outcome == Pass && (|s.buffer| < cap || i < |xs|) ==>
      |ServeFrom(s, cap, xs, fs, i).post.buffer| < cap
    ensures s.log <= ServeFrom(s, cap, xs, fs, i).post.log
    decreases |xs| - i
  {
    if i < |xs| {
      var step := AddSpec(s, cap, xs[i], fs[i]);
      AddConserves(s, cap, xs[i], fs[i]);
      if step.outcome == Pass {
        ServeKeepsRoom(step.post, cap, xs, fs, i + 1);
      }
    }
  }

  /** A run that fails stops right after the first failing Add: the readings
      before it were all added without error, and the run returns that Add's
      outcome and leaves that Add's state. */
  lemma {:induction false} ServeStopsAtFirstFailure(s: State, cap: nat, xs: seq<Reading>, fs: seq<FlushFaults>, i: nat)
    requires |s.buffer| <= cap && |fs| == |xs| && i <= |xs|
    ensures var r := ServeFrom(s, cap, xs, fs, i);
      r.outcome.Fail? ==>
        var p := ServeFrom(s, cap, xs[..r.consumed - 1], fs[..r.consumed - 1], i);
        p.outcome == Pass &&
        AddSpec(p.post, cap, xs[r.consumed - 1], fs[r.consumed - 1]) == Step(r.outcome, r.post)
    decreases |xs| - i
  {
    var r := ServeFrom(s, cap, xs, fs, i);
    if i < |xs| && r.outcome.Fail? {
      var c := r.consumed;
      var step := AddSpec(s, cap, xs[i], fs[i]);
      if step.outcome.Fail? {
        assert c == i + 1;
        assert ServeFrom(s, cap, xs[..c - 1], fs[..c - 1], i) == Run(Pass, s, i);
      } else {
        ServeStopsAtFirstFailure(step.post, cap, xs, fs, i + 1);
        assert i + 1 < c;
        assert xs[..c - 1][i] == xs[i] && fs[..c - 1][i] == fs[i];
        assert ServeFrom(s, cap, xs[..c - 1], fs[..c - 1], i)
          == ServeFrom(step.post, cap, xs[..c - 1], fs[..c - 1], i + 1);
      }
    }
  }

  /** A run that ends without error has put every reading into the logical
      stream, in the order received: nothing lost, nothing reordered. */
  lemma {:induction false} ServeConserves(s: State, cap: nat, xs: seq<Reading>, fs: seq<FlushFaults>, i: nat)
    requires |s.buffer| <= cap && |fs| == |xs| && i <= |xs|
    requires ServeFrom(s, cap, xs, fs, i).outcome == Pass
    ensures Stream(ServeFrom(s, cap, xs, fs, i).post) == Stream(s) + Projected(xs[i..])
    decreases |xs| - i
  {
    if i == |xs| {
      assert xs[i..] == [];
      assert Projected(xs[i..]) == [];
    } else {
      var step := AddSpec(s, cap, xs[i], fs[i]);
      var post := ServeFrom(step.post, cap, xs, fs, i + 1).post;
      assert ServeFrom(s, cap, xs, fs, i).post == post;
      AddConserves(s, cap, xs[i], fs[i]);
      ServeConserves(step.post, cap, xs, fs, i + 1);
      ProjectedCons(xs, i);
      Regroup(Stream(s), Project(xs[i]), Projected(xs[i + 1..]), Stream(step.post), Stream(post));
    }
  }

  lemma ProjectedCons(xs: seq<Reading>, i: nat)
    requires i < |xs|
    ensures Projected(xs[i..]) == [Project(xs[i])] + Projected(xs[i + 1..])
  {
  }

  lemma Regroup(before: seq<Row>, x: Row, rest: seq<Row>, mid: seq<Row>, after: seq<Row>)
    requires mid == before + [x] && after == mid + rest
    ensures after == before + ([x] + rest)
  {
  }

  /** The scenario of a capacity-2 pipeline that receives r1, r2 and r3 with
      every database call succeeding: r1 and r2 are flushed by the second Add,
      r3 stays buffered, and Fetch(3) returns r2 before r1 (store part newest
      first, both with a zero latency) and then r3. */
  lemma CapacityTwoScenario(r1: Reading, r2: Reading, r3: Reading, f: FlushFaults, g: FetchFaults)
    requires FlushClean(f) && FetchClean(g)
    ensures var run := ServeFrom(State([], []), 2, [r1, r2, r3], [f, f, f], 0);
      run.outcome == Pass &&
      run.post == State([r3], [Project(r1), Project(r2)]) &&
      FetchSpec(run.post.buffer, run.post.log, 3, g) ==
        Ok([r2.(elapsed := 0), r1.(elapsed := 0), r3])
  {
    var xs := [r1, r2, r3];
    var s1 := AddSpec(State([], []), 2, r1, f);
    assert s1 == Step(Pass, State([r1], []));
    var s2 := AddSpec(s1.post, 2, r2, f);
    assert Projected([r1, r2]) == [Project(r1), Project(r2)];
    assert s2 == Step(Pass, State([], [Project(r1), Project(r2)]));
    var s3 := AddSpec(s2.post, 2, r3, f);
    assert s3 == Step(Pass, State([r3], [Project(r1), Project(r2)]));
    var fs := [f, f, f];
    assert ServeFrom(s3.post, 2, xs, fs, 3) == Run(Pass, s3.post, 3);
    assert ServeFrom(s2.post, 2, xs, fs, 2) == Run(Pass, s3.post, 3);
    assert ServeFrom(s1.post, 2, xs, fs, 1) == Run(Pass, s3.post, 3);
    var q := QueryRecent([Project(r1), Project(r2)], 2);
    assert q == [Project(r2), Project(r1)];
    RowRoundTrip(r1, Project(r1));
    RowRoundTrip(r2, Project(r2));
    assert Restored(q) == [r2.(elapsed := 0), r1.(elapsed := 0)];
    assert Delivered(q, g.rowsEndAt) == q;
    assert FetchSpec([r3], [Project(r1), Project(r2)], 3, g) == Ok(Restored(q) + [r3]);
    assert Restored(q) + [r3] == [r2.(elapsed := 0), r1.(elapsed := 0), r3];
  }
}
