/** The storage type: a write-back buffer of readings in front of the
    sensor_log table. The buffer is a backing array whose length is the
    slice's capacity, filled up to `len`; the table is the sequence of its
    committed rows. */
module Storage {
  import opened Telemetry
  import opened SensorLog
  import opened Pipeline

  class Storage {
    /** Backing array of the buffer slice; its Length is cap(buffer). */
    var buffer: array<Reading>
    /** len(buffer): the readings buffer[..len] await a Flush. */
    var len: nat
    /** The rows committed to sensor_log, oldest first. */
    var log: seq<Row>
    /** False once Close has released the statement and the connection. */
    var open: bool

    ghost predicate Valid()
      reads this
    {
      len <= buffer.Length
    }

    /** The buffered readings, in insertion order. */
    function Contents(): seq<Reading>
      reads this, buffer
      requires Valid()
    {
      buffer[..len]
    }

    ghost function Abstract(): State
      reads this, buffer
      requires Valid()
    {
      State(Contents(), log)
    }

    /** NewStorage after the connection, schema and statement are ready: an
        empty buffer of capacity `bsize` over the rows already in the table. */
    constructor (bsize: nat, existing: seq<Row>)
      ensures Valid() && fresh(buffer)
      ensures buffer.Length == bsize && Contents() == [] && log == existing && open
    {
      buffer := new Reading[bsize];
      len := 0;
      log := existing;
      open := true;
    }

    /** Writes every buffered reading in one transaction, in insertion order,
        truncating the buffer before the commit. */
    method Flush(f: FlushFaults) returns (outcome: Outcome)
      requires Valid()
      modifies this
      ensures Valid() && buffer == old(buffer) && open == old(open)
      ensures Step(outcome, Abstract()) == FlushSpec(old(Abstract()), f)
    {
      if !f.beginOk {
        return Fail(BeginFailed);
      }
      var pending: seq<Row> := [];
      var i := 0;
      while i < len
        invariant unchanged(this)
        invariant 0 <= i <= len
        invariant pending == Projected(buffer[..i])
        invariant !InsertFailsWithin(f, i)
      {
        if f.failingInsert == Some(i) {
          // the transaction is rolled back: pending rows are discarded
          return Fail(InsertFailed(i));
        }
        ProjectedAppend(buffer[..i], [buffer[i]]);
        assert buffer[..i + 1] == buffer[..i] + [buffer[i]];
        pending := pending + [Project(buffer[i])];
        i := i + 1;
      }
      assert buffer[..len] == Contents();
      len := 0;
      if !f.commitOk {
        return Fail(CommitFailed);
      }
      log := log + pending;
      return Pass;
    }

    /** Appends one reading; refuses when the buffer is full and flushes when
        the reading fills it. */
    method Add(x: Reading, f: FlushFaults) returns (outcome: Outcome)
      requires Valid()
      modifies this, buffer
      ensures Valid() && buffer == old(buffer) && open == old(open)
      ensures Step(outcome, Abstract()) == AddSpec(old(Abstract()), buffer.Length, x, f)
    {
      if len == buffer.Length {
        return Fail(BufferFull);
      }
      buffer[len] := x;
      len := len + 1;
      assert Contents() == old(Contents()) + [x];
      if len == buffer.Length {
        outcome := Flush(f);
        if outcome.Fail? {
          return outcome;
        }
      }
      return Pass;
    }

    /** Returns the buffer from index `last` on when it holds at least `last`
        readings; otherwise the newest `last - len` rows of the table, scanned
        one by one, followed by the whole buffer. Changes nothing. */
    method Fetch(last: nat, f: FetchFaults) returns (r: Result<seq<Reading>>)
      requires Valid()
      ensures r == FetchSpec(Contents(), log, last, f)
    {
      if len >= last {
        return Ok(buffer[last..len]);
      }
      if !f.beginOk {
        return Failure(BeginFailed);
      }
      if !f.queryOk {
        return Failure(QueryFailed);
      }
      var rows := QueryRecent(log, last - len);
      var res: seq<Reading> := [];
      var i := 0;
      while i < |rows| && f.rowsEndAt != Some(i)
        invariant 0 <= i <= |rows|
        invariant f.rowsEndAt.Some? ==> i <= f.rowsEndAt.value
        invariant |res| == i
        invariant forall j :: 0 <= j < i ==> res[j] == FromRow(rows[j])
        invariant f.failingScan.Some? ==> i <= f.failingScan.value
      {
        if f.failingScan == Some(i) {
          return Failure(ScanFailed(i));
        }
        res := res + [FromRow(rows[i])];
        i := i + 1;
      }
      assert rows[..i] == Delivered(rows, f.rowsEndAt);
      assert res == Restored(rows[..i]);
      res := res + buffer[..len];
      return Ok(res);
    }

    /** Flushes the buffer and then, whatever the Flush returned, releases
        the statement and the connection; returns the Flush's result. */
    method Close(f: FlushFaults) returns (outcome: Outcome)
      requires Valid()
      modifies this
      ensures Valid() && buffer == old(buffer) && !open
      ensures Step(outcome, Abstract()) == FlushSpec(old(Abstract()), f)
    {
      outcome := Flush(f);
      open := false;
    }

    /** The serving loop over the readings received, in order: Add each one
        and stop at the first error. Returns the last outcome and how many
        readings were handed to Add. */
    method Serve(xs: seq<Reading>, fs: seq<FlushFaults>) returns (outcome: Outcome, consumed: nat)
      requires Valid() && |fs| == |xs|
      modifies this, buffer
      ensures Valid() && buffer == old(buffer) && open == old(open)
      ensures Run(outcome, Abstract(), consumed) == ServeFrom(old(Abstract()), buffer.Length, xs, fs, 0)
    {
      var i := 0;
      while i < |xs|
        invariant Valid() && buffer == old(buffer) && open == old(open)
        invariant 0 <= i <= |xs|
        invariant ServeFrom(Abstract(), buffer.Length, xs, fs, i) == ServeFrom(old(Abstract()), buffer.Length, xs, fs, 0)
      {
        outcome := Add(xs[i], fs[i]);
        if outcome.Fail? {
          return outcome, i + 1;
        }
        i := i + 1;
      }
      return Pass, i;
    }
  }
}
