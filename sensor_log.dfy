/** The sensor_log table, as the append-only sequence of its rows in the
    order they were committed, and the query that reads its newest rows. */
module SensorLog {
  import opened Telemetry

  /** Rows whose timestamps strictly increase with the order they were
      committed: the order in which the readings are taken. */
  ghost predicate Chronological(log: seq<Row>)
  {
    forall i, j :: 0 <= i < j < |log| ==> log[i].time < log[j].time
  }

  /** `SELECT ... ORDER BY time DESC LIMIT k`: the k newest rows, newest
      first, or every row when there are fewer than k. The order of
      commitment stands for the order of timestamps. */
  function QueryRecent(log: seq<Row>, k: nat): (rows: seq<Row>)
    ensures |rows| == Min(k, |log|)
    ensures forall i :: 0 <= i < |rows| ==> rows[i] == log[|log| - 1 - i]
  {
    Reverse(log[|log| - Min(k, |log|)..])
  }

  /** On a chronological log the query result is ordered by time, newest
      first, and every row it leaves out is older than every row it returns:
      it is what ORDER BY time DESC LIMIT k selects. */
  lemma QueryOrdersByTimeDescending(log: seq<Row>, k: nat)
    requires Chronological(log)
    ensures var rows := QueryRecent(log, k);
      (forall i, j :: 0 <= i < j < |rows| ==> rows[i].time > rows[j].time) &&
      (forall i, j :: 0 <= i < |rows| && 0 <= j < |log| - |rows| ==> log[j].time < rows[i].time)
  {
  }

  /** Right after a batch is committed, the query for as many rows as the
      batch holds returns exactly that batch, newest first. */
  lemma QueryAfterAppend(log: seq<Row>, batch: seq<Row>)
    ensures QueryRecent(log + batch, |batch|) == Reverse(batch)
  {
  }
}
