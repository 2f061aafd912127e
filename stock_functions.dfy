/**
 * The price-series utilities of the stock scanner: the sliding window over the
 * most recent prices, the recursive momentum detector, and the scan of the
 * configuration lines for the API key.
 *
 * Prices are doubles in the scanner; the window never looks at them and the
 * momentum detector only compares neighbours with `<`, so they are modelled as
 * `int` (no NaN).
 */
module StockFunctions {

  // ---------------------------------------------------------------------------
  // Sliding window
  // ---------------------------------------------------------------------------

  /** The most recent `windowSize` prices, or the whole series when it is shorter. */
  function ApplySlidingWindow<T>(prices: seq<T>, windowSize: nat): (window: seq<T>)
    ensures |window| == if windowSize < |prices| then windowSize else |prices|
    ensures window == prices[|prices| - |window|..]
  {
    if windowSize >= |prices| then prices
    else prices[|prices| - windowSize..]
  }

  /** A window at least as long as the series is the series itself. */
  lemma WindowCoversAll<T>(prices: seq<T>, windowSize: nat)
    requires windowSize >= |prices|
    ensures ApplySlidingWindow(prices, windowSize) == prices
  {
  }

  /** Position `i` of the window is the price `windowSize - i` steps from the end. */
  lemma WindowElements<T>(prices: seq<T>, windowSize: nat, i: nat)
    requires windowSize < |prices| && i < windowSize
    ensures ApplySlidingWindow(prices, windowSize)[i] == prices[|prices| - windowSize + i]
  {
  }

  // ---------------------------------------------------------------------------
  // Momentum
  // ---------------------------------------------------------------------------

  /** The trend counter after looking at one more pair: extend the run or restart it at +-1. */
  function NextTrend(trendCount: int, isIncreasing: bool): (r: int)
    ensures r != 0
    ensures r > 0 <==> isIncreasing
  {
    if (isIncreasing && trendCount >= 0) || (!isIncreasing && trendCount <= 0) then
      trendCount + (if isIncreasing then 1 else -1)
    else
      if isIncreasing then 1 else -1
  }

  /**
   * `detectMomentum(prices, index, trendCount)`. The source computes
   * `prices.size() - 1` unsigned: on an empty series it wraps and the function
   * reads out of range, so a non-empty series is required. A true answer over
   * at least one remaining pair means the final pair rose.
   */
  function DetectMomentum(prices: seq<int>, index: nat, trendCount: int): (r: bool)
    requires |prices| > 0
    ensures r && index + 1 < |prices| ==> prices[|prices| - 2] < prices[|prices| - 1]
    decreases |prices| - index
  {
    if index >= |prices| - 1 then
      trendCount >= |prices| - 1
    else
      DetectMomentum(prices, index + 1, NextTrend(trendCount, prices[index] < prices[index + 1]))
  }

  ghost predicate StrictlyIncreasing(prices: seq<int>)
  {
    forall i :: 0 <= i < |prices| - 1 ==> prices[i] < prices[i + 1]
  }

  /**
   * From pair `index` on, with a counter no larger in magnitude than `index`,
   * the detector answers true exactly when the counter equals `index` (every
   * pair so far was increasing) and every remaining pair is increasing.
   */
  lemma {:induction false} MomentumFrom(prices: seq<int>, index: nat, trendCount: int)
    requires |prices| > 0 && index <= |prices| - 1
    requires -(index as int) <= trendCount <= index
    ensures DetectMomentum(prices, index, trendCount) <==>
              trendCount == index &&
              forall i :: index <= i < |prices| - 1 ==> prices[i] < prices[i + 1]
    decreases |prices| - index
  {
    if index < |prices| - 1 {
      var next := NextTrend(trendCount, prices[index] < prices[index + 1]);
      MomentumFrom(prices, index + 1, next);
    }
  }

  /** Called with the default arguments, the detector recognises strictly increasing series. */
  lemma MomentumIffStrictlyIncreasing(prices: seq<int>)
    requires |prices| > 0
    ensures DetectMomentum(prices, 0, 0) <==> StrictlyIncreasing(prices)
  {
    MomentumFrom(prices, 0, 0);
  }

  /** The counter's value after the first `i` pairs, starting from 0. */
  function Trend(prices: seq<int>, i: nat): int
    requires i < |prices|
  {
    if i == 0 then 0 else NextTrend(Trend(prices, i - 1), prices[i - 1] < prices[i])
  }

  /** Number of consecutive pairs ending with pair `i - 1` whose direction is `up`. */
  function RunLength(prices: seq<int>, i: nat, up: bool): nat
    requires i < |prices|
  {
    if i == 0 || (prices[i - 1] < prices[i]) != up then 0 else 1 + RunLength(prices, i - 1, up)
  }

  /** The recursion carries the counter of `Trend` from one call to the next. */
  lemma {:induction false} MomentumCarriesTrend(prices: seq<int>, i: nat)
    requires i < |prices|
    ensures DetectMomentum(prices, 0, 0) == DetectMomentum(prices, i, Trend(prices, i))
  {
    if i > 0 {
      MomentumCarriesTrend(prices, i - 1);
    }
  }

  /**
   * After pair `i - 1` the counter is the length of the current run, positive
   * for a strictly increasing run and negative for a non-increasing one.
   */
  lemma {:induction false} TrendIsSignedRun(prices: seq<int>, i: nat)
    requires 0 < i < |prices|
    ensures prices[i - 1] < prices[i] ==> Trend(prices, i) == RunLength(prices, i, true) > 0
    ensures !(prices[i - 1] < prices[i]) ==> Trend(prices, i) == -(RunLength(prices, i, false) as int) < 0
  {
    if i > 1 {
      TrendIsSignedRun(prices, i - 1);
    }
  }

  /** The window of four over the scanner's integration example shows momentum. */
  lemma WindowedSeriesHasMomentum()
    ensures ApplySlidingWindow([100, 105, 102, 108, 110, 112], 4) == [102, 108, 110, 112]
    ensures DetectMomentum(ApplySlidingWindow([100, 105, 102, 108, 110, 112], 4), 0, 0)
  {
    var w := ApplySlidingWindow([100, 105, 102, 108, 110, 112], 4);
    assert w == [102, 108, 110, 112];
    MomentumIffStrictlyIncreasing(w);
  }

  // ---------------------------------------------------------------------------
  // API key scan
  // ---------------------------------------------------------------------------

  const ApiKeyPrefix: string := "STOCK_API_KEY="

  /** `line.find("STOCK_API_KEY=") == 0`: the line starts with the prefix. */
  predicate IsKeyLine(line: string)
  {
    |ApiKeyPrefix| <= |line| && line[..|ApiKeyPrefix|] == ApiKeyPrefix
  }

  /**
   * The scan inside `loadApiKeyFromConfig` over the lines of the configuration
   * file (an unreadable file reads as no lines): the text after the 14-character
   * prefix on the first line that starts with it, else the empty string.
   */
  method ScanApiKey(lines: seq<string>) returns (apiKey: string)
    ensures (forall j :: 0 <= j < |lines| ==> !IsKeyLine(lines[j])) ==> apiKey == ""
    ensures forall i :: 0 <= i < |lines| && IsKeyLine(lines[i]) &&
                        (forall j :: 0 <= j < i ==> !IsKeyLine(lines[j])) ==>
                        apiKey == lines[i][14..]
  {
    apiKey := "";
    var i := 0;
    while i < |lines|
      invariant 0 <= i <= |lines|
      invariant forall j :: 0 <= j < i ==> !IsKeyLine(lines[j])
      invariant apiKey == ""
    {
      if IsKeyLine(lines[i]) {
        apiKey := lines[i][14..];
        return;
      }
      i := i + 1;
    }
  }
}
