# bmpmon storage: a verified model of the write-back buffer

bmpmon samples a BMP pressure sensor and logs every reading to SQLite. In
`storage.go`, the `storage` type puts a bounded in-memory buffer in front
of the `sensor_log` table:

- `Add` appends a reading to the buffer. It refuses the reading when the
  buffer is full. When the reading fills the buffer, `Add` flushes it.
- `Flush` writes the whole buffer in one transaction.
- `Fetch(last)` serves the most recent readings. It takes them from the
  buffer alone, or from the newest table rows followed by the buffer.
- `Close` does a final flush and then releases the database handles.
- `serve` feeds readings from a channel into `Add`.

The model has four modules:

- `Telemetry` (`telemetry.dfy`) holds the values:
  - `Reading` is `sensorResponse`. Its three float32 fields are kept as
    `bv32` bit patterns and are never computed with. Its time fields are
    integers of nanoseconds.
  - `Row` is a row of `sensor_log`. `Project` is what an INSERT stores of a
    reading; `FromRow` is what a Scan gives back.
  - The error kinds the pipeline reports.
- `SensorLog` (`sensor_log.dfy`) models the table as the sequence of its
  committed rows. `ORDER BY time DESC LIMIT k` is `QueryRecent`: the last
  k rows in commit order, newest first. A lemma shows that this is what
  the SQL query selects whenever timestamps grow with commit order.
- `Pipeline` (`pipeline.dfy`) gives each operation as a function of the
  abstract state: the buffer contents plus the table rows. Every database
  call that can fail is a fault parameter: Begin, each insert, Commit,
  Query, rows.Next and each Scan. The lemmas state what the operations
  promise.
- `Storage` (`storage.dfy`) has the class `Storage`:
  - `buffer` is a backing array whose `Length` is `cap(s.buffer)`.
  - `len` is `len(s.buffer)`.
  - `log` holds the committed rows.
  - `Add`, `Flush` and `Fetch` are loops and in-place updates. Each is
    proved equal to its `Pipeline` function. `Close` is proved to return
    exactly `Flush`'s result. `Serve` is the serving loop.

## Behaviours worth knowing

The model follows the code as written. In four places the code does
something other than what its names suggest. Each is proved as a lemma:

- **Fetch from the buffer returns a suffix that starts at `last`.**
  `Fetch(last)` reads as "the newest `last` readings". But when the buffer
  holds at least `last` readings, `storage.go:100` returns
  `buffer[last:]`, which is `len - last` readings. So `Fetch(len)` is
  empty, `Fetch(0)` is the whole buffer, and when `2*last < len` the
  result is longer than requested (`FetchFromBufferIsSuffixFromLast`).
- **The store part of Fetch is newest first, the buffer part oldest
  first.** The query orders by `time DESC` (`storage.go:35`). Nothing
  reverses the rows before the buffer is appended in insertion order
  (`storage.go:123`). So the result as a whole is not in time order
  (`FetchMergesNewestFirst`, `FetchStorePartDescends`). With capacity 2
  and readings r1, r2, r3, `Fetch(3)` returns `[r2, r1, r3]`
  (`CapacityTwoScenario`).
- **Flush truncates the buffer before Commit.** `storage.go:142` runs
  before `storage.go:144`. So a failed Commit leaves an empty buffer and an
  unchanged table, and the batch is lost (`FlushCommitFailureDropsBatch`).
  Only a failure at Begin or at an insert leaves the buffer intact
  (`FlushRollsBack`).
- **A driver error during row iteration is silent.** `rows.Next()`
  returning false ends the loop at `storage.go:116`. `rows.Err()` is never
  consulted, so `Fetch` then succeeds with fewer store rows
  (`FetchTruncatesSilently`).

## Model

| member | source | states |
|---|---|---|
| `Telemetry.RowRoundTrip` | storage.go:115-121 | a reading inserted and scanned back equals the original with a zero Elapsed; a scanned row re-inserts as the same row |
| `Telemetry.Projected` | storage.go:134-140 | the inserted rows match the buffered readings one for one, in buffer order |
| `Telemetry.Restored` | storage.go:115-122 | the scanned readings match the returned rows one for one, in row order |
| `SensorLog.QueryRecent` | storage.go:33-37 | the query returns min(k, number of rows) rows; its i-th row is the (i+1)-th newest committed row |
| `SensorLog.QueryOrdersByTimeDescending` | storage.go:33-37 | on a log whose timestamps grow with commit order, the result is strictly time-descending and every row it leaves out is older than every row it returns |
| `SensorLog.QueryAfterAppend` | storage.go:33-37 | right after a batch is committed, querying for the batch size returns the batch reversed |
| `Pipeline.FlushSpec` | storage.go:128-145 | the buffer never grows; the log either stays as it was or gains exactly the projected batch |
| `Pipeline.FlushCommitsBatch` | storage.go:134-144 | Flush succeeds iff Begin, every insert of the batch and Commit succeed; it then appends the batch in buffer order and empties the buffer |
| `Pipeline.FlushRollsBack` | storage.go:129-139 | a failure at Begin or at an insert changes neither buffer nor log; a reported failing insert lies inside the batch |
| `Pipeline.FlushCommitFailureDropsBatch` | storage.go:142-144 | after a failed Commit the buffer is empty and the log is unchanged, so a non-empty batch disappears from the logical stream |
| `Pipeline.FlushTwiceIsNoOp` | storage.go:134-144 | Flush of an empty buffer leaves the state unchanged whatever the database answers, so a second Flush after a successful one changes nothing |
| `Pipeline.FlushedReadingsAreQueryable` | storage.go:134-144 | after a successful Flush, querying for the batch size returns the flushed rows newest first, and each scans back to its reading with a zero Elapsed |
| `Pipeline.AddSpec` | storage.go:83-96 | the buffer stays within capacity; BufferFull is reported iff the buffer was full; after a successful Add the buffer is below capacity |
| `Pipeline.AddRefusesWhenFull` | storage.go:84-86 | Add on a full buffer returns BufferFull and changes neither buffer nor log |
| `Pipeline.AddAppends` | storage.go:88-95 | when the reading does not fill the buffer, it is appended at the end, the log is unchanged and Add succeeds |
| `Pipeline.AddFlushFailure` | storage.go:88-92 | when the reading fills the buffer and the flush fails, the error comes back with the reading already appended; the buffer stays full after a Begin or insert failure and is empty after a Commit failure |
| `Pipeline.AddConserves` | storage.go:88-95 | the log is only appended to; a successful Add extends the logical stream (log then buffer) by exactly the added reading |
| `Pipeline.Delivered` | storage.go:116 | the rows a scan loop sees are a prefix of the query result, and all of it when iteration does not stop early |
| `Pipeline.FetchSpec` | storage.go:98-126 | Fetch fails only when it reaches the store; a store-backed result holds at most `last` readings and ends with the whole buffer |
| `Pipeline.FetchFromBufferIsSuffixFromLast` | storage.go:99-100 | with at least `last` buffered readings, Fetch returns the buffer from index `last` on, which has len - last items; Fetch(len) is empty, Fetch(0) is the whole buffer, and a small `last` can return more than requested |
| `Pipeline.FetchMergesNewestFirst` | storage.go:109-125 | with fewer than `last` buffered readings and no database failure, the result has min(last - len, rows) + len items, at most `last`; the store rows come newest first with a zero Elapsed, followed by the buffer in insertion order |
| `Pipeline.FetchTruncatesSilently` | storage.go:115-125 | when rows.Next stops early after j of the requested rows, Fetch still succeeds, with j store rows plus the buffer, fewer than a complete answer |
| `Pipeline.FetchStorePartDescends` | storage.go:109-123 | on a chronological log, the store part of the result has strictly decreasing timestamps |
| `Pipeline.ServeFrom` | storage.go:163-172 | the serving loop keeps the buffer within capacity; it consumes every reading when no Add fails, and stops right after the first failing Add |
| `Pipeline.ServeKeepsRoom` | storage.go:163-172 | the log is only appended to; a run without error that handled at least one reading, or started below capacity, ends below capacity |
| `Pipeline.ServeStopsAtFirstFailure` | storage.go:163-172 | a failed run stops right after the first failing Add: every earlier Add passed, and the run returns that Add's outcome and leaves that Add's state |
| `Pipeline.ServeConserves` | storage.go:163-172 | a run without error adds every received reading to the logical stream, in arrival order, with nothing lost |
| `Pipeline.CapacityTwoScenario` | storage.go:83-126 | with capacity 2 and r1, r2, r3 received, r1 and r2 reach the table, r3 stays buffered, and Fetch(3) returns r2, r1 (zero Elapsed), then r3 |
| `Storage.Storage.constructor` | storage.go:75-80 | a new storage has an empty buffer of capacity `bsize` over the rows already in the table |
| `Storage.Storage.Flush` | storage.go:128-145 | the insert loop over the buffer gives exactly the outcome and new state of FlushSpec |
| `Storage.Storage.Add` | storage.go:83-96 | the in-place append and triggered flush give exactly the outcome and new state of AddSpec; capacity is unchanged |
| `Storage.Storage.Fetch` | storage.go:98-126 | reads only; the scan loop plus the appended buffer give exactly FetchSpec's result |
| `Storage.Storage.Close` | storage.go:147-158 | returns exactly Flush's outcome with Flush's new state, and always releases the handles |
| `Storage.Storage.Serve` | storage.go:160-174 | the loop of Adds gives exactly ServeFrom's outcome, final state and count of consumed readings |

## Left out

- The SQL and driver layer is not modelled: `sql.Open`, `Ping`, schema
  creation, statement preparation and the error paths of `NewStorage`
  (`storage.go:54-74`). The constructor starts from the rows already in
  the table. A failed `Ping` panics in the source.
- Database answers are fault parameters, not SQLite semantics. An insert
  appends a row. A query returns the newest rows, with commit order
  standing for time order. `SensorLog.QueryOrdersByTimeDescending`
  justifies this only for chronological logs; equal or out-of-order
  timestamps are not modelled.
- A negative `bsize` makes `make([]sensorResponse, 0, bsize)` panic at
  `storage.go:78`. The constructor takes the capacity as a natural number.
- A negative count passed to `Fetch` makes `buffer[last:]` panic in the
  source. The model takes `last` as a natural number.
- In the buffer-only branch, `Fetch` returns a slice that aliases the
  backing array, so later `Add` calls overwrite what the caller holds. The
  model returns a copy, and this aliasing is not captured.
- Concurrency is not modelled. `Fetch` from HTTP handlers runs unguarded
  against `Add` and `Flush` in the serving goroutine; the model is
  sequential. The channel and context of `serve` are also left out: its
  input is a finite sequence.
- When `Add` fails, `serve` calls `log.Fatal` and the process exits
  without the deferred `Close`. The model simply stops.
- The errors returned by `ins.Close` and `sql.Close` in `Close` are
  ignored by the source. The model only records the release.
- After `Close`, a closed database refuses further calls. This is
  expressible through the fault parameters but not enforced.
- Driver error values are reduced to error kinds.
- Float32 values are bit patterns. The float32 to FLOAT to float32 round
  trip is taken as exact.
- `time.Time` loses its monotonic reading and its location when stored.
  The model keeps an instant in nanoseconds.
- sensor.go is not part of this model: sampling, `Peek`, `pool` and the
  sensor's own `Close` are hardware I/O and networking. main.go is not
  part of this model either: HTTP handlers, charts and process wiring.
