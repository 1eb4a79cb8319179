/**
 * The sampling state of the download-manager plugin: the last cumulative
 * receive and transmit byte counts and the time they were read, the bytes
 * moved since the last report, the speed histogram (threshold -> count)
 * and the index-to-threshold table. The timer body samples the counters
 * once a tick and records the sample's bucket; fetchSpeedLog reports the
 * accumulation and clears it.
 *
 * The environment (TrafficStats counters, the wall clock, whether building
 * the JSON report throws) is passed in as parameters.
 */
module SpeedLog {
  import opened JavaArith
  import opened Buckets

  /** getNetworkSpeed's rate in bytes/ms: zero unless time has elapsed. */
  function Rate(bytes: int, elapsed: int): (speed: real)
    ensures elapsed <= 0 ==> speed == 0.0
    ensures elapsed > 0 ==> speed * elapsed as real == bytes as real
    ensures bytes >= 0 ==> speed >= 0.0
  {
    if elapsed > 0 then bytes as real / elapsed as real else 0.0
  }

  /** How often a threshold occurs in a histogram; an absent key occurs 0 times. */
  function Count(hist: map<int, int>, th: int): int {
    if th in hist then hist[th] else 0
  }

  /** One more sample at threshold `th`: its count goes up by one, starting from 1 when absent. */
  function Record(hist: map<int, int>, th: int): (r: map<int, int>)
    ensures r.Keys == hist.Keys + {th}
    ensures Count(r, th) == Count(hist, th) + 1
    ensures forall k :: k != th ==> Count(r, k) == Count(hist, k)
  {
    hist[th := Count(hist, th) + 1]
  }

  /** A non-empty set has an element to pick. */
  lemma HasElement(s: set<int>)
    requires s != {}
    ensures exists x :: x in s
  {
    if forall x :: x !in s {
      assert false;
    }
  }

  /**
   * The entry-by-entry copy fetchSpeedLog makes of the histogram while
   * building its report: every entry is visited once, in no fixed order.
   */
  method CopyEntries(hist: map<int, int>) returns (copy: map<int, int>)
    ensures copy == hist
  {
    copy := map[];
    var pending := hist.Keys;
    while pending != {}
      invariant pending <= hist.Keys
      invariant forall th :: th in hist ==> (th in copy <==> th !in pending)
      invariant forall th :: th in copy ==> th in hist && copy[th] == hist[th]
      decreases |pending|
    {
      HasElement(pending);
      var th :| th in pending;
      copy := copy[th := hist[th]];
      pending := pending - {th};
    }
    assert forall th :: th in copy <==> th in hist;
    assert forall th :: th in copy ==> copy[th] == hist[th];
  }

  /** What one run of the timer body did. */
  datatype TickOutcome =
    | Idle                    // no positive speed: nothing recorded
    | Recorded(threshold: int)
    | NullIndex(key: int)     // indexMap.get(key) was null and unboxing it threw

  /** What fetchSpeedLog hands to the caller. */
  datatype SpeedLogResult =
    | Reported(totalKB: int, distribution: map<int, int>)
    | ReportFailed

  class SpeedLogger {
    var lastRx: int
    var lastTx: int
    var lastTime: int
    /** Bytes received and sent since the last report. */
    var total: int
    /** The speed histogram: threshold -> number of samples. */
    var hist: map<int, int>
    var indexMap: map<int, int>
    /** Whether the timer body will run again (it re-posts itself at its end). */
    var ticking: bool
    /** The thresholds recorded since the last report, in order. */
    ghost var samples: seq<int>

    /**
     * The table is the fixed one, and the histogram counts exactly the
     * samples recorded since the last report, each at a table threshold.
     */
    ghost predicate Valid()
      reads this
    {
      && indexMap == BucketTable
      && (forall th :: th in samples ==> th in hist)
      && (forall th :: th in hist ==> hist[th] == multiset(samples)[th])
      && (forall i :: 0 <= i < |samples| ==> samples[i] in BucketTable.Values)
    }

    /** initialize: first counter readings, empty histogram, filled table, timer posted. */
    constructor (rx: int, tx: int, now: int)
      ensures Valid()
      ensures lastRx == rx && lastTx == tx && lastTime == now
      ensures total == 0 && hist == map[] && samples == [] && ticking
    {
      lastRx, lastTx, lastTime := rx, tx, now;
      total := 0;
      hist := map[];
      indexMap := map[];
      ticking := true;
      samples := [];
      new;
      InitSpeedLogger();
    }

    /** initSpeedLogger: puts the twelve index -> threshold entries. */
    method InitSpeedLogger()
      modifies this`indexMap
      ensures indexMap == old(indexMap) + BucketTable
    {
      indexMap := indexMap[1 := 32][2 := 64][3 := 128][4 := 256][5 := 512][6 := 1024];
      indexMap := indexMap[7 := 1536][8 := 2048][9 := 2560][10 := 3072][11 := 3584][-1 := 4096];
    }

    /**
     * getNetworkSpeed: takes the new readings, adds the bytes moved since
     * the previous readings to the total and returns them per elapsed
     * millisecond (0 when no time has elapsed).
     */
    method GetNetworkSpeed(rx: int, tx: int, now: int) returns (speed: real)
      modifies this`lastRx, this`lastTx, this`lastTime, this`total
      ensures lastRx == rx && lastTx == tx && lastTime == now
      ensures total == old(total) + (rx - old(lastRx)) + (tx - old(lastTx))
      ensures speed == Rate((rx - old(lastRx)) + (tx - old(lastTx)), now - old(lastTime))
    {
      var usedRx := rx - lastRx;
      var usedTx := tx - lastTx;
      var usedTime := now - lastTime;
      lastRx, lastTx, lastTime := rx, tx, now;
      var totalBytes := usedRx + usedTx;
      speed := 0.0;
      if usedTime > 0 {
        speed := totalBytes as real / usedTime as real;
      }
      total := total + totalBytes;
    }

    /** The timer body's rangeMap update: one more sample at `range`, created at 1 when absent. */
    method CountSample(range: int)
      requires Valid()
      requires range in BucketTable.Values
      modifies this`hist, this`samples
      ensures Valid()
      ensures hist == Record(old(hist), range)
      ensures samples == old(samples) + [range]
    {
      if range in hist {
        hist := hist[range := hist[range] + 1];
      } else {
        hist := hist[range := 1];
      }
      samples := samples + [range];
    }

    /**
     * The timer body: sample the speed; if it is positive, classify it and
     * count one more sample at its threshold. A key the table lacks makes
     * the lookup null; the exception leaves the histogram as it was and
     * the body never re-posts itself.
     */
    method Tick(rx: int, tx: int, now: int) returns (outcome: TickOutcome)
      requires Valid() && ticking
      modifies this
      ensures Valid()
      ensures lastRx == rx && lastTx == tx && lastTime == now
      ensures total == old(total) + (rx - old(lastRx)) + (tx - old(lastTx))
      ensures var speed := Rate((rx - old(lastRx)) + (tx - old(lastTx)), now - old(lastTime));
        if speed <= 0.0 then
          outcome == Idle && hist == old(hist) && samples == old(samples) && ticking
        else if Threshold(speed).None? then
          outcome == NullIndex(BucketKey(speed)) && hist == old(hist) && samples == old(samples) && !ticking
        else
          var th := Threshold(speed).value;
          && outcome == Recorded(th) && th == IntendedThreshold(speed)
          && hist == Record(old(hist), th) && samples == old(samples) + [th] && ticking
    {
      var speed := GetNetworkSpeed(rx, tx, now);
      outcome := Idle;
      if speed > 0.0 {
        var key := BucketKey(speed);
        if key !in indexMap {
          ticking := false;
          return NullIndex(key);
        }
        var range := indexMap[key];
        IntendedAgreesWhereDefined(speed);
        CountSample(range);
        outcome := Recorded(range);
      }
    }

    /**
     * fetchSpeedLog: reports the kilobytes moved (Java long division by
     * 1024) and a copy of the histogram, then clears both, whether or not
     * building the report failed.
     */
    method FetchSpeedLog(reportFails: bool) returns (r: SpeedLogResult)
      requires Valid()
      modifies this`total, this`hist, this`samples
      ensures Valid()
      ensures total == 0 && hist == map[] && samples == []
      ensures r.ReportFailed? <==> reportFails
      ensures r.Reported? ==> r.totalKB == DivLong(old(total), 1024) && r.distribution == old(hist)
      ensures r.Reported? ==> forall th :: th in r.distribution ==> r.distribution[th] == multiset(old(samples))[th]
    {
      var totalKB := DivLong(total, 1024);
      var distribution := CopyEntries(hist);
      if reportFails {
        r := ReportFailed;
      } else {
        r := Reported(totalKB, distribution);
      }
      total := 0;
      hist := map[];
      samples := [];
    }
  }

  /** Two reports with no tick between them: the second is empty. */
  method FetchSpeedLogTwice(logger: SpeedLogger) returns (first: SpeedLogResult, second: SpeedLogResult)
    requires logger.Valid()
    modifies logger
    ensures first.Reported? ==> first.distribution == old(logger.hist)
    ensures second == Reported(0, map[])
  {
    first := logger.FetchSpeedLog(false);
    second := logger.FetchSpeedLog(false);
  }

  /**
   * Samples of 100 and 600 bytes/ms, then a report: one sample each at
   * thresholds 128 and 1024, and 700000 / 1024 = 683 kilobytes.
   */
  method TwoSamplesThenReport() returns (r: SpeedLogResult)
    ensures r == Reported(683, map[128 := 1, 1024 := 1])
  {
    var logger := new SpeedLogger(0, 0, 0);
    SampleRates();
    assert Rate(100_000, 1000) == 100.0;
    var first := logger.Tick(100_000, 0, 1000);
    assert logger.hist == map[128 := 1];
    assert Rate(600_000, 1000) == 600.0;
    var second := logger.Tick(600_000, 100_000, 2000);
    assert logger.hist == map[128 := 1, 1024 := 1];
    assert logger.total == 700_000;
    r := logger.FetchSpeedLog(false);
  }
}
