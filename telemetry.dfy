/** Values that flow through the storage pipeline: a sensor reading, the row
    the SQLite table keeps of it, and the errors the pipeline reports. */
module Telemetry {

  /** The bit pattern of a Go float32. The model never computes with it. */
  type Float32 = bv32

  /** A time.Time, as nanoseconds since the Unix epoch. */
  type Instant = int

  /** A time.Duration, in nanoseconds. */
  type Duration = int

  datatype Option<T> = None | Some(value: T)

  /** One sample (sensorResponse): when it was taken, how long the read took,
      and the three measured quantities. */
  datatype Reading = Reading(
    timestamp: Instant,
    elapsed: Duration,
    temperature: Float32,
    pressure: Float32,
    altitude: Float32)

  /** One row of the sensor_log table: the reading without its latency. */
  datatype Row = Row(time: Instant, temperature: Float32, altitude: Float32, pressure: Float32)

  /** What the pipeline reports when an operation does not succeed. The
      database errors are named after the call that returned them. */
  datatype Error =
    | BufferFull
    | BeginFailed
    | InsertFailed(index: nat)
    | CommitFailed
    | QueryFailed
    | ScanFailed(index: nat)

  /** A Go `error` result: nil, or an error. */
  datatype Outcome = Pass | Fail(error: Error)

  /** A Go `([]T, error)` result. */
  datatype Result<T> = Ok(value: T) | Failure(error: Error)

  function Min(a: int, b: int): (m: int)
  {
    if a <= b then a else b
  }

  /** The arguments of the INSERT statement for one reading. */
  function Project(r: Reading): (row: Row)
  {
    Row(r.timestamp, r.temperature, r.altitude, r.pressure)
  }

  /** A reading scanned back from a row: Elapsed keeps its zero value. */
  function FromRow(row: Row): (r: Reading)
  {
    Reading(row.time, 0, row.temperature, row.pressure, row.altitude)
  }

  /** Storing a reading and scanning it back loses exactly its latency. */
  lemma RowRoundTrip(r: Reading, row: Row)
    ensures FromRow(Project(r)) == r.(elapsed := 0)
    ensures Project(FromRow(row)) == row
    ensures FromRow(row).elapsed == 0
  {
  }

  /** The rows a batch of readings becomes, in the same order. */
  function Projected(rs: seq<Reading>): (rows: seq<Row>)
    ensures |rows| == |rs|
    ensures forall i :: 0 <= i < |rs| ==> rows[i] == Project(rs[i])
  {
    if rs == [] then [] else [Project(rs[0])] + Projected(rs[1..])
  }

  /** The readings a sequence of scanned rows becomes, in the same order. */
  function Restored(rows: seq<Row>): (rs: seq<Reading>)
    ensures |rs| == |rows|
    ensures forall i :: 0 <= i < |rows| ==> rs[i] == FromRow(rows[i])
  {
    if rows == [] then [] else [FromRow(rows[0])] + Restored(rows[1..])
  }

  lemma ProjectedAppend(a: seq<Reading>, b: seq<Reading>)
    ensures Projected(a + b) == Projected(a) + Projected(b)
  {
  }

  /** A sequence read back to front. */
  function Reverse<T>(s: seq<T>): (r: seq<T>)
    ensures |r| == |s|
    ensures forall i :: 0 <= i < |s| ==> r[i] == s[|s| - 1 - i]
  {
    if s == [] then [] else Reverse(s[1..]) + [s[0]]
  }
}
