/**
 * Classification of a throughput sample (bytes per millisecond) into a
 * speed bucket: a logarithmic bucket key below 1024, a linear 512-wide key
 * from 1024 on with -1 as the overflow sentinel, and the fixed table that
 * maps each key to the threshold reported in the histogram.
 */
module Buckets {
  import opened JavaArith
  import opened Log2

  datatype Option<T> = None | Some(value: T)

  function Max(a: int, b: int): int { if a < b then b else a }

  /**
   * `(int) (Math.log(speed) / Math.log(2) - 3)` with an exact logarithm.
   * The log of a negative number is NaN and casts to 0; the log of 0 is
   * -Infinity and saturates to the least int. For a positive speed the
   * cast truncates log2(speed) - 3 toward zero: that is the floor of the
   * logarithm when it is non-negative and the ceiling otherwise.
   */
  function TruncatedLogKey(speed: real): (r: int)
    ensures IsInt(r)
    ensures speed < 0.0 ==> r == 0
    ensures speed == 0.0 ==> r == IntMin
    ensures speed > 0.0 && FloorLog2(speed) < 3 ==> r == SaturateInt(CeilLog2(speed) - 3)
    ensures speed > 0.0 && 3 <= FloorLog2(speed) <= IntMax + 3 ==> r == FloorLog2(speed) - 3
    ensures speed > 0.0 && FloorLog2(speed) < 3 ==> r < 1
  {
    if speed < 0.0 then 0
    else if speed == 0.0 then IntMin
    else
      var k := FloorLog2(speed);
      if k >= 3 then SaturateInt(k - 3) else SaturateInt(CeilLog2(speed) - 3)
  }

  /** getFirstBucketKey: the truncated logarithmic key, clamped below at 1. */
  function FirstBucketKey(speed: real): (key: int)
    ensures 1 <= key
    ensures 0.0 < speed < 1024.0 ==> key == Max(1, FloorLog2(speed) - 3) && key <= 6
  {
    LogBelow1024(speed);
    var result := TruncatedLogKey(speed);
    if result < 1 then 1 else result
  }

  lemma LogBelow1024(speed: real)
    ensures 0.0 < speed < 1024.0 ==> FloorLog2(speed) <= 9
  {
    if 0.0 < speed < 1024.0 {
      var k := FloorLog2(speed);
      assert Pow2(10) == 1024.0;
      if k >= 10 {
        Pow2Monotone(10, k);
      }
    }
  }

  /** The rate from which `(int) (speed / 512) + 4` overflows the int range. */
  const OverflowRate: real := 512.0 * (IntMax - 3) as real

  /**
   * getSecondBucketKey: `(int) (speed / 512) + 4` in Java int arithmetic,
   * with every result from 16 on replaced by the sentinel -1.
   */
  function SecondBucketKey(speed: real): (key: int)
    ensures 1024.0 <= speed < OverflowRate ==>
      && (key == -1 <==> speed >= 6144.0)
      && (key != -1 ==> 6 <= key <= 15 && ((key - 4) * 512) as real <= speed < ((key - 3) * 512) as real)
  {
    var result := AddInt(DoubleToInt(speed / 512.0), 4);
    if result >= 16 then -1 else result
  }

  /** The key the timer body selects: logarithmic below 1024 bytes/ms, linear from there. */
  function BucketKey(speed: real): (key: int)
    ensures 0.0 < speed < 1024.0 ==> 1 <= key <= 6
    ensures 1024.0 <= speed < OverflowRate ==> key == -1 || 6 <= key <= 15
  {
    if speed < 1024.0 then FirstBucketKey(speed) else SecondBucketKey(speed)
  }

  /** The index-to-threshold table that initSpeedLogger fills. */
  const BucketTable: map<int, int> := map[
    1 := 32, 2 := 64, 3 := 128, 4 := 256, 5 := 512, 6 := 1024,
    7 := 1536, 8 := 2048, 9 := 2560, 10 := 3072, 11 := 3584, -1 := 4096]

  /** `indexMap.get(key)`: None where Java yields null. */
  function Lookup(key: int): (r: Option<int>)
    ensures r.Some? <==> key == -1 || 1 <= key <= 11
  {
    if key in BucketTable then Some(BucketTable[key]) else None
  }

  /** The histogram key for a positive sample, or None where the lookup yields null. */
  function Threshold(speed: real): (r: Option<int>)
    ensures r.Some? ==> r.value in BucketTable.Values
    ensures 0.0 < speed < 4096.0 ==> r.Some?
  {
    Lookup(BucketKey(speed))
  }

  /** The table has twelve entries: keys 1..11 and the sentinel -1. */
  lemma BucketTableShape()
    ensures BucketTable.Keys == {-1, 1, 2, 3, 4, 5, 6, 7, 8, 9, 10, 11}
  {
  }

  /**
   * The thresholds follow the two classifiers: 2^(k+4) for the logarithmic
   * keys 1..6, (k - 4) * 512 for the linear keys 6..11, and 8 * 512 for -1.
   */
  lemma BucketTableFormula(k: int)
    requires k in BucketTable
    ensures 1 <= k <= 6 ==> BucketTable[k] as real == Pow2(k + 4)
    ensures 6 <= k <= 11 ==> BucketTable[k] == (k - 4) * 512
    ensures k == -1 ==> BucketTable[k] == 8 * 512
  {
  }

  /** For rates from 4096 up to 6144 the linear key is 12..15, which the table lacks. */
  lemma MissingIndex(speed: real)
    requires 4096.0 <= speed < 6144.0
    ensures 12 <= BucketKey(speed) <= 15
    ensures BucketKey(speed) !in BucketTable
    ensures Threshold(speed) == None
  {
  }

  /**
   * Past OverflowRate the cast saturates and `+ 4` wraps to a negative
   * key that is not the sentinel, so the lookup yields null there too.
   */
  lemma OverflowIndex(speed: real)
    requires speed >= OverflowRate
    ensures IntMin <= BucketKey(speed) <= IntMin + 3
    ensures Threshold(speed) == None
  {
  }

  /**
   * Lookup of the classified key succeeds for every positive rate below
   * OverflowRate except exactly the band 4096 <= rate < 6144.
   */
  lemma ThresholdDefined(speed: real)
    requires 0.0 < speed < OverflowRate
    ensures Threshold(speed).Some? <==> !(4096.0 <= speed < 6144.0)
  {
  }

  /**
   * What a histogram key says about the rate that produced it: below 32
   * bytes/ms the key is 32; below 1024 the rate lies in [t/2, t); below
   * 4096 it lies in [t, t + 512); from 6144 on the key is 4096.
   */
  lemma ThresholdBracketsRate(speed: real)
    requires 0.0 < speed < OverflowRate
    requires !(4096.0 <= speed < 6144.0)
    ensures Threshold(speed).Some?
    ensures speed < 32.0 ==> Threshold(speed).value == 32
    ensures 32.0 <= speed < 1024.0 ==>
      var t := Threshold(speed).value as real; t / 2.0 <= speed < t
    ensures 1024.0 <= speed < 4096.0 ==>
      var t := Threshold(speed).value as real; t <= speed < t + 512.0
    ensures speed >= 6144.0 ==> Threshold(speed).value == 4096
  {
    ThresholdDefined(speed);
    if speed < 1024.0 {
      var k := FloorLog2(speed);
      assert Pow2(5) == 32.0;
      if speed >= 32.0 && k < 5 {
        Pow2Monotone(k + 1, 5);
      }
      if speed < 32.0 && k >= 5 {
        Pow2Monotone(5, k);
      }
      if speed >= 32.0 {
        BucketTableFormula(k - 3);
        Pow2Succ(k);
      }
    }
  }

  /** The worked rates: 40, 100, 600, 3000 and 9000 bytes/ms, and 5000, which has no bucket. */
  lemma SampleRates()
    ensures Threshold(40.0) == Some(64)
    ensures Threshold(100.0) == Some(128)
    ensures Threshold(600.0) == Some(1024)
    ensures Threshold(3000.0) == Some(2560)
    ensures Threshold(9000.0) == Some(4096)
    ensures Threshold(5000.0) == None
  {
  }

  /**
   * The linear key with the overflow cut at 12, the first key the table
   * lacks: every rate from 4096 on goes to the sentinel, whose threshold
   * 4096 = 8 * 512 continues the 512-wide bands.
   */
  function IntendedSecondBucketKey(speed: real): (key: int)
    requires speed >= 1024.0
    ensures key == -1 <==> speed >= 4096.0
    ensures key != -1 ==> 6 <= key <= 11 && ((key - 4) * 512) as real <= speed < ((key - 3) * 512) as real
  {
    var result := (speed / 512.0).Floor + 4;
    if result >= 12 then -1 else result
  }

  /** The classifier with the intended cut: its key is always in the table. */
  function IntendedThreshold(speed: real): (t: int)
    requires speed > 0.0
    ensures t in BucketTable.Values
    ensures speed >= 4096.0 ==> t == 4096
    ensures 1024.0 <= speed < 4096.0 ==> t as real <= speed < t as real + 512.0
  {
    var key := if speed < 1024.0 then FirstBucketKey(speed) else IntendedSecondBucketKey(speed);
    BucketTable[key]
  }

  /** The correction changes nothing where the as-written lookup succeeds. */
  lemma IntendedAgreesWhereDefined(speed: real)
    requires speed > 0.0
    requires Threshold(speed).Some?
    ensures Threshold(speed) == Some(IntendedThreshold(speed))
  {
  }
}
