# Download-speed sampler of the Cordova download-manager plugin

Besides handing requests to Android's `DownloadManager`, the plugin keeps a
network-throughput sampler in `DownloadManagerPlugin`. A timer body runs
once a second. Each run reads the cumulative received and transmitted byte
counters and the clock. It computes the rate in bytes per millisecond
since the previous run and adds the bytes moved to a running total. A
positive rate is classified into a bucket key:

- below 1024 bytes/ms, the key is logarithmic: `(int)(log2(rate) - 3)`,
  clamped below at 1;
- from 1024 bytes/ms on, the key is linear: `(int)(rate / 512) + 4`, with
  -1 replacing every key from 16 on.

A fixed table maps each key to a threshold. The histogram counts samples
per threshold. `fetchSpeedLog` reports the total in kilobytes and a copy
of the histogram, then clears both, whether or not the report could be
built.

The project has four modules:

- `JavaArith` (java_arith.dfy) holds the Java numeric rules the code
  relies on: 32-bit wrapping `int` addition, the saturating cast from
  `double` to `int` that truncates toward zero, and `long` division,
  which also truncates toward zero.
- `Log2` (log2.dfy) defines exact powers of two and `FloorLog2`, the
  unique k with 2^k <= r < 2^(k+1).
- `Buckets` (buckets.dfy) holds the two classifiers, the table, the
  lookup, the properties of each, and the corrected classifier.
- `SpeedLog` (speed_log.dfy) holds the class `SpeedLogger`, whose fields
  are the plugin's sampling fields. Its methods are the constructor
  (`initialize`), `InitSpeedLogger`, `GetNetworkSpeed`, `Tick` (the timer
  body) and `FetchSpeedLog`.

The ghost field `samples` records the thresholds recorded since the last
report. The invariant `Valid()` states that the histogram counts exactly
those samples.

Environment readings are parameters: `TrafficStats.getTotalRxBytes`,
`getTotalTxBytes`, `System.currentTimeMillis`, and whether building the
JSON report throws. Rates are exact reals, so doubles are modelled without
rounding, NaN or infinities. The timer body classifies a rate only when it
is positive (line 50), so the code never takes the logarithm of 0 or of a
negative rate. `TruncatedLogKey` still gives the cast's results there
(the least int and 0), so it is defined for every input.

Three consequences of the code as written:

- Deltas of the byte counters are used as they are, with no clamping and
  no check for an unavailable counter. A counter that goes down gives a
  negative delta, so `Rate` and `total` may go negative.
- The table lookup is not total: some keys the classifier produces have
  no entry. See Findings.
- A rate of 3000 bytes/ms has key 9, and the table maps key 9 to 2560.
  `Buckets.SampleRates` proves that 3000 lands at 2560.

## Model

| member | source | states |
|---|---|---|
| `JavaArith.AddInt` | src/com/github/emilbayes/downloadmanager/DownloadManagerPlugin.java:73 | the `+ 4` on an int: the result is in int range and congruent to the exact sum mod 2^32, and equal to it when the sum fits |
| `JavaArith.DoubleToInt` | src/com/github/emilbayes/downloadmanager/DownloadManagerPlugin.java:73 | the `(int)` cast: in int range; equal to the value truncated toward zero whenever that fits; the floor for non-negative values below the largest int; saturates at both ends |
| `JavaArith.DivLong` | src/com/github/emilbayes/downloadmanager/DownloadManagerPlugin.java:262 | `long` division by a positive divisor: the remainder has the sign of the dividend and is smaller than the divisor, so the quotient rounds toward zero |
| `JavaArith.DivLongOfNonNegative` | src/com/github/emilbayes/downloadmanager/DownloadManagerPlugin.java:262 | for a non-negative total, the kilobytes reported are the floor of total / 1024 |
| `Log2.FloorLog2` | src/com/github/emilbayes/downloadmanager/DownloadManagerPlugin.java:68 | `Math.log(speed) / Math.log(2)` taken exactly: the result k satisfies 2^k <= r < 2^(k+1) |
| `Log2.FloorLog2Unique` | src/com/github/emilbayes/downloadmanager/DownloadManagerPlugin.java:68 | no other k satisfies that bracket, so FloorLog2 is the mathematical floor of log2 |
| `Log2.CeilLog2` | src/com/github/emilbayes/downloadmanager/DownloadManagerPlugin.java:68 | the ceiling of log2: 2^(c-1) < r <= 2^c (needed for the cast's truncation of negative logarithms) |
| `Buckets.TruncatedLogKey` | src/com/github/emilbayes/downloadmanager/DownloadManagerPlugin.java:68 | `(int)(log2(speed) - 3)`: equals floor(log2 speed) - 3 when that is non-negative and in int range; equals ceil(log2 speed) - 3, saturated, and so is below 1, whenever floor(log2 speed) < 3; 0 for a negative speed (NaN) and the least int for 0 (minus infinity) |
| `Buckets.FirstBucketKey` | src/com/github/emilbayes/downloadmanager/DownloadManagerPlugin.java:66-70 | the key is at least 1 for every input; for 0 < rate < 1024 it is max(1, floor(log2 rate) - 3) and at most 6 |
| `Buckets.SecondBucketKey` | src/com/github/emilbayes/downloadmanager/DownloadManagerPlugin.java:72-75 | for 1024 <= rate < OverflowRate, the key is -1 exactly when rate >= 6144; otherwise it is in 6..15 and its 512-wide band [(key-4)*512, (key-3)*512) contains the rate |
| `Buckets.BucketKey` | src/com/github/emilbayes/downloadmanager/DownloadManagerPlugin.java:51 | the key the timer body selects: in 1..6 for 0 < rate < 1024, and -1 or in 6..15 for 1024 <= rate < OverflowRate (`MissingIndex` and `OverflowIndex` show which of these keys the table lacks) |
| `Buckets.Lookup` | src/com/github/emilbayes/downloadmanager/DownloadManagerPlugin.java:52 | `indexMap.get(key)` is non-null exactly for keys -1 and 1..11 |
| `Buckets.Threshold` | src/com/github/emilbayes/downloadmanager/DownloadManagerPlugin.java:51-52 | the lookup of the selected key: any threshold it yields is a table threshold, and every positive rate below 4096 has one (`ThresholdDefined` gives exactly where it is null) |
| `Buckets.BucketTableShape` | src/com/github/emilbayes/downloadmanager/DownloadManagerPlugin.java:77-90 | the table's keys are exactly -1 and 1..11 |
| `Buckets.BucketTableFormula` | src/com/github/emilbayes/downloadmanager/DownloadManagerPlugin.java:77-90 | the thresholds are 2^(k+4) for keys 1..6, (k-4)*512 for keys 6..11, and 4096 for -1 |
| `Buckets.MissingIndex` | src/com/github/emilbayes/downloadmanager/DownloadManagerPlugin.java:51-52 | for 4096 <= rate < 6144 the key is 12..15, which is not in the table, so the lookup is null |
| `Buckets.OverflowIndex` | src/com/github/emilbayes/downloadmanager/DownloadManagerPlugin.java:73-74 | from OverflowRate = 512 * (2^31 - 4) on, the cast saturates and `+ 4` wraps to a key in IntMin..IntMin+3, so the lookup is null |
| `Buckets.ThresholdDefined` | src/com/github/emilbayes/downloadmanager/DownloadManagerPlugin.java:51-52 | for 0 < rate < OverflowRate, the lookup succeeds if and only if the rate is outside [4096, 6144) |
| `Buckets.ThresholdBracketsRate` | src/com/github/emilbayes/downloadmanager/DownloadManagerPlugin.java:51-52 | the meaning of a threshold t: 32 below 32 bytes/ms; t/2 <= rate < t below 1024; t <= rate < t + 512 below 4096; 4096 from 6144 on |
| `Buckets.SampleRates` | src/com/github/emilbayes/downloadmanager/DownloadManagerPlugin.java:51-52 | rates 40, 100, 600, 3000 and 9000 land at 64, 128, 1024, 2560 and 4096; rate 5000 has no bucket |
| `Buckets.IntendedSecondBucketKey` | src/com/github/emilbayes/downloadmanager/DownloadManagerPlugin.java:72-75 | corrected linear key with the cut at 12: -1 exactly for rates >= 4096, otherwise 6..11 with its band containing the rate |
| `Buckets.IntendedThreshold` | src/com/github/emilbayes/downloadmanager/DownloadManagerPlugin.java:51-52 | with the corrected cut every positive rate has a threshold in the table: 4096 from 4096 on, and a band containing the rate from 1024 to 4096 |
| `Buckets.IntendedAgreesWhereDefined` | src/com/github/emilbayes/downloadmanager/DownloadManagerPlugin.java:51-52 | wherever the code's lookup succeeds, it gives the corrected threshold |
| `SpeedLog.Rate` | src/com/github/emilbayes/downloadmanager/DownloadManagerPlugin.java:300-303 | 0 when no time has elapsed, so nothing divides by zero; otherwise rate * elapsed = bytes; never negative when the bytes are not |
| `SpeedLog.Record` | src/com/github/emilbayes/downloadmanager/DownloadManagerPlugin.java:53-58 | the threshold becomes a key, its count rises by exactly 1 (to 1 when it was absent), and every other count is unchanged |
| `SpeedLog.CopyEntries` | src/com/github/emilbayes/downloadmanager/DownloadManagerPlugin.java:266-268 | copying the entries one by one yields the histogram itself |
| `SpeedLog.SpeedLogger.constructor` | src/com/github/emilbayes/downloadmanager/DownloadManagerPlugin.java:33-43 | the first readings are stored, total and histogram are empty, the table is filled, the timer is posted, and `Valid()` holds |
| `SpeedLog.SpeedLogger.InitSpeedLogger` | src/com/github/emilbayes/downloadmanager/DownloadManagerPlugin.java:77-90 | the twelve puts leave the index map equal to the old map overridden by the bucket table |
| `SpeedLog.SpeedLogger.GetNetworkSpeed` | src/com/github/emilbayes/downloadmanager/DownloadManagerPlugin.java:285-311 | the stored readings become the current ones; the total grows by exactly (rx - lastRx) + (tx - lastTx), including when no time elapsed; the result is `Rate` of those bytes over the elapsed time |
| `SpeedLog.SpeedLogger.CountSample` | src/com/github/emilbayes/downloadmanager/DownloadManagerPlugin.java:53-58 | keeps `Valid()`: the histogram becomes `Record` of the old one at the threshold, and that threshold is appended to the samples since the last report |
| `SpeedLog.SpeedLogger.Tick` | src/com/github/emilbayes/downloadmanager/DownloadManagerPlugin.java:49-61 | keeps `Valid()`; a rate <= 0 leaves the histogram unchanged; a rate with a threshold adds exactly one sample there, and that threshold is the corrected one; a rate without one leaves the histogram unchanged and stops the timer |
| `SpeedLog.SpeedLogger.FetchSpeedLog` | src/com/github/emilbayes/downloadmanager/DownloadManagerPlugin.java:258-283 | reports `DivLong(total, 1024)` and a copy of the histogram, whose counts are exactly the samples since the last report; clears total and histogram on the success and the error path alike |
| `SpeedLog.FetchSpeedLogTwice` | src/com/github/emilbayes/downloadmanager/DownloadManagerPlugin.java:258-283 | two reports with no tick between them: the second is (0, empty) |
| `SpeedLog.TwoSamplesThenReport` | src/com/github/emilbayes/downloadmanager/DownloadManagerPlugin.java:49-58 | after samples of 100 and 600 bytes/ms, the report is 683 kilobytes with one sample each at thresholds 128 and 1024 |

## Findings

| source | as written | input that shows it | evidently intended | confidence | as-written member | corrected member |
|---|---|---|---|---|---|---|
| src/com/github/emilbayes/downloadmanager/DownloadManagerPlugin.java:74 | keys 12..15 pass the `>= 16` test but have no entry in the table (lines 77-89). The null from `indexMap.get(key)` is unboxed at line 52 and throws, before the timer body re-posts itself at line 61 | 5,000,000 bytes in 1000 ms, a rate of 5000 bytes/ms: key 13 | every rate from 4096 on goes to the sentinel -1. Its threshold is 4096 = 8 * 512, which continues the 512-wide bands, so the cut should be at key 12 | high, not executed | `Buckets.MissingIndex` | `Buckets.IntendedThreshold` |
| src/com/github/emilbayes/downloadmanager/DownloadManagerPlugin.java:73 | the cast saturates at the largest int, and `+ 4` then wraps to a negative key other than -1. That key has no table entry either | a rate of 2^40 bytes/ms | such rates go to the sentinel -1 | medium (the rate is far beyond any real link), not executed | `Buckets.OverflowIndex` | `Buckets.IntendedSecondBucketKey` |

`SpeedLogger` keeps the code's classifier, so `Tick` shows the failure: its
outcome is `NullIndex(key)`, the histogram stays unchanged, and `ticking`
becomes false. Wherever the code's lookup succeeds, `Tick` records the
corrected threshold (`Buckets.IntendedAgreesWhereDefined`), so the two
classifiers differ only in the failing bands.

## Left out

- The download-queue operations `enqueue`, `query`, `remove` and
  `addCompletedDownload` are left out. They forward to Android's
  `DownloadManager` and have no logic of their own.
- JSON and cursor handling is left out: `deserialiseRequest`,
  `deserialiseQuery`, `JSONFromCursor`, `longsFromJSON`, `OK`, `ERROR` and
  `createPluginResult`. Histogram keys stay integers instead of strings.
  A failure while building the report is the parameter `reportFails`.
- The `execute` action dispatch is left out; it only routes requests.
- `Handler.postDelayed` scheduling is left out: the 2000 ms warm-up and
  the 1000 ms period. `ticking` records only whether the timer body would
  run again.
- What an uncaught exception does to the process (on Android's main
  thread it ends the app) is left out.
- The race between the timer body and `fetchSpeedLog` is concurrency and
  is left out. Each method runs atomically.
- Floating point is left out. The long-to-double conversion and the
  division by elapsed time are exact, and `Math.log` is the exact
  logarithm. So a double rounding at a bucket boundary is not modelled.
- The `catch` in `getNetworkSpeed` is left out. Nothing inside its `try`
  throws for the readings modelled here.
- The debug log of the byte count in `getNetworkSpeed` (line 299) and the
  stack-trace print in its `catch` (line 308) are output only and are
  left out.
- SpeedLog.SpeedLogger.GetNetworkSpeed: counters, deltas and the total are
  unbounded integers, so 64-bit `long` overflow is not modelled.
- SpeedLog.Record: histogram counts are unbounded, so 32-bit overflow of
  an `Integer` count is not modelled.
