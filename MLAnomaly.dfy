/** The Java `MLAnomalyDetectionService`: a per-IP request history trimmed to
    a trailing window, four statistics over that history, a weighted anomaly
    score, and a block table of IP -> blocked-until instant whose entries
    expire lazily when they are looked up.

    Instants are integer milliseconds; every operation that read the clock
    takes the current instant as the parameter `now`. Java doubles are
    exact `real`s here. */
module MLAnomaly {
  import opened Common

  /** `WINDOW_SIZE` is fed to `Duration.ofMinutes`, so the window is 60 minutes. */
  const WindowSizeMinutes: int := 60
  const WindowMillis: int := WindowSizeMinutes * 60_000
  const AnomalyThreshold: real := 2.0
  const MinRequestsForAnalysis: nat := 5
  const BlockDurationMillis: int := 15 * 60_000

  datatype RequestData = RequestData(timestamp: int, endpoint: string, responseTime: int, statusCode: int)

  /** What `getIPStats` puts in its result map. */
  datatype IPStats = IPStats(
    totalRequests: nat,
    requestRate: real,
    avgResponseTime: real,
    errorRate: real,
    endpointVariety: real,
    isBlocked: bool,
    blockedUntil: Option<int>)

  // ---------------------------------------------------------------------------
  // Sliding window

  /** Java's `removeIf(data -> data.timestamp.isBefore(cutoff))` keeps the rest. */
  function KeepFrom(cutoff: int): RequestData -> bool {
    (d: RequestData) => !(d.timestamp < cutoff)
  }

  function Trim(h: seq<RequestData>, cutoff: int): (r: seq<RequestData>)
    ensures |r| <= |h|
    ensures forall d :: d in r <==> d in h && d.timestamp >= cutoff
  {
    Filter(h, KeepFrom(cutoff))
  }

  /** Trimming removes exactly the entries strictly older than the cutoff (an
      entry stamped exactly at the cutoff survives) and keeps the order. */
  lemma TrimKeepsExactlyRecent(h: seq<RequestData>, cutoff: int)
    ensures forall d :: d in Trim(h, cutoff) <==> d in h && d.timestamp >= cutoff
    ensures forall d :: multiset(Trim(h, cutoff))[d] == if d.timestamp >= cutoff then multiset(h)[d] else 0
    ensures |Trim(h, cutoff)| == CountWhere(h, KeepFrom(cutoff))
    ensures IsSubsequence(Trim(h, cutoff), h)
  {
    FilterIsSubsequence(h, KeepFrom(cutoff));
    FilterMultiset(h, KeepFrom(cutoff));
  }

  function HistoryOf(hist: map<string, seq<RequestData>>, ip: string): seq<RequestData> {
    if ip in hist then hist[ip] else []
  }

  /** The history of `ip` once `recordRequest` has appended a request at `now`
      and trimmed the list. */
  function RecordedHistory(hist: map<string, seq<RequestData>>, ip: string,
                           endpoint: string, responseTime: int, statusCode: int, now: int): seq<RequestData>
  {
    Trim(HistoryOf(hist, ip) + [RequestData(now, endpoint, responseTime, statusCode)], now - WindowMillis)
  }

  /** The recorded history is the old history minus what fell out of the
      window, followed by the new request; every entry is inside the window. */
  lemma {:induction false} RecordedHistoryShape(hist: map<string, seq<RequestData>>, ip: string,
                                               endpoint: string, responseTime: int, statusCode: int, now: int)
    ensures RecordedHistory(hist, ip, endpoint, responseTime, statusCode, now)
         == Trim(HistoryOf(hist, ip), now - WindowMillis) + [RequestData(now, endpoint, responseTime, statusCode)]
    ensures forall d :: d in RecordedHistory(hist, ip, endpoint, responseTime, statusCode, now) ==> d.timestamp >= now - WindowMillis
  {
    var d := RequestData(now, endpoint, responseTime, statusCode);
    FilterAppend(HistoryOf(hist, ip), [d], KeepFrom(now - WindowMillis));
    assert Filter([d], KeepFrom(now - WindowMillis)) == [d] by {
      assert [d][1..] == [];
    }
  }

  // ---------------------------------------------------------------------------
  // Statistics over a history snapshot

  /** Requests per minute over the 60-minute window. */
  function RequestRate(h: seq<RequestData>): (r: real)
    ensures r >= 0.0 && r * 60.0 == |h| as real
  {
    |h| as real / WindowSizeMinutes as real
  }

  function SumResponseTime(h: seq<RequestData>): int {
    if h == [] then 0 else h[0].responseTime + SumResponseTime(h[1..])
  }

  /** `IntStream.average().orElse(0.0)`. */
  function AverageResponseTime(h: seq<RequestData>): (avg: real)
    ensures |h| == 0 ==> avg == 0.0
    ensures |h| > 0 ==> avg * |h| as real == SumResponseTime(h) as real
  {
    if |h| == 0 then 0.0 else SumResponseTime(h) as real / |h| as real
  }

  /** The total latency lies between |h| times the smallest and |h| times the
      largest latency. */
  lemma {:induction false} SumResponseTimeBounds(h: seq<RequestData>, lo: int, hi: int)
    requires forall i :: 0 <= i < |h| ==> lo <= h[i].responseTime <= hi
    ensures |h| * lo <= SumResponseTime(h) <= |h| * hi
  {
    if h != [] {
      SumResponseTimeBounds(h[1..], lo, hi);
    }
  }

  /** The average latency of a non-empty history lies between its smallest
      and its largest latency. */
  lemma AverageResponseTimeBounds(h: seq<RequestData>, lo: int, hi: int)
    requires |h| > 0
    requires forall i :: 0 <= i < |h| ==> lo <= h[i].responseTime <= hi
    ensures lo as real <= AverageResponseTime(h) <= hi as real
  {
    SumResponseTimeBounds(h, lo, hi);
    MeanBetween(AverageResponseTime(h), |h|, SumResponseTime(h), lo, hi);
  }

  lemma MeanBetween(avg: real, n: nat, sum: int, lo: int, hi: int)
    requires n > 0 && avg * n as real == sum as real
    requires n * lo <= sum <= n * hi
    ensures lo as real <= avg <= hi as real
  {
    assert (n * lo) as real == n as real * lo as real;
    assert (n * hi) as real == n as real * hi as real;
    assert (avg - lo as real) * n as real == sum as real - (n * lo) as real >= 0.0;
    assert (hi as real - avg) * n as real == (n * hi) as real - sum as real >= 0.0;
  }

  predicate IsError(d: RequestData) {
    d.statusCode >= 400
  }

  function ErrorCount(h: seq<RequestData>): nat {
    CountWhere(h, IsError)
  }

  /** Fraction of requests answered with a status of 400 or more. */
  function ErrorRate(h: seq<RequestData>): (r: real)
    requires |h| > 0
    ensures r * |h| as real == ErrorCount(h) as real
    ensures 0.0 <= r <= 1.0
    ensures r == 0.0 <==> ErrorCount(h) == 0
  {
    RatioInUnitInterval(ErrorCount(h), |h|);
    ErrorCount(h) as real / |h| as real
  }

  function EndpointOf(d: RequestData): string {
    d.endpoint
  }

  function Endpoints(h: seq<RequestData>): set<string> {
    Image(h, EndpointOf)
  }

  /** Distinct endpoints per request. */
  function EndpointVariety(h: seq<RequestData>): (r: real)
    requires |h| > 0
    ensures r * |h| as real == |Endpoints(h)| as real
    ensures 0.0 < r <= 1.0
  {
    var k := |Endpoints(h)|;
    ImageBounds(h, EndpointOf);
    RatioInUnitInterval(k, |h|);
    k as real / |h| as real
  }

  /** Bounds of the four statistics on a non-empty history, as integer facts
      about the counts behind them. */
  lemma StatisticBounds(h: seq<RequestData>)
    requires |h| > 0
    ensures ErrorCount(h) <= |h|
    ensures 1 <= |Endpoints(h)| <= |h|
    ensures 0.0 <= ErrorRate(h) <= 1.0
    ensures 0.0 < EndpointVariety(h) <= 1.0
    ensures RequestRate(h) * 60.0 == |h| as real
    ensures forall e :: e in Endpoints(h) <==> exists i :: 0 <= i < |h| && h[i].endpoint == e
  {
    ImageBounds(h, EndpointOf);
    EndpointsAreUsed(h);
    RatioInUnitInterval(ErrorCount(h), |h|);
    RatioInUnitInterval(|Endpoints(h)|, |h|);
  }

  lemma RatioInUnitInterval(a: nat, n: nat)
    requires a <= n && n > 0
    ensures (a as real / n as real) * n as real == a as real
    ensures 0.0 <= a as real / n as real <= 1.0
    ensures a > 0 ==> a as real / n as real > 0.0
  {
    var x := a as real / n as real;
    assert x * n as real == a as real;
  }

  lemma {:induction false} EndpointsAreUsed(h: seq<RequestData>)
    ensures forall e :: e in Endpoints(h) <==> exists i :: 0 <= i < |h| && h[i].endpoint == e
  {
    if h != [] {
      EndpointsAreUsed(h[1..]);
      forall e | e in Endpoints(h)
        ensures exists i :: 0 <= i < |h| && h[i].endpoint == e
      {
        assert Endpoints(h) == {h[0].endpoint} + Endpoints(h[1..]);
        if e != h[0].endpoint {
          var j :| 0 <= j < |h[1..]| && h[1..][j].endpoint == e;
          assert h[j + 1].endpoint == e;
        }
      }
      forall e | exists i :: 0 <= i < |h| && h[i].endpoint == e
        ensures e in Endpoints(h)
      {
        var i :| 0 <= i < |h| && h[i].endpoint == e;
        ImageCovers(h, EndpointOf);
        assert h[i] in h;
      }
    }
  }

  function Abs(x: real): real {
    if x < 0.0 then -x else x
  }

  /** `calculateAnomalyScore`: each feature is normalised, compared with its
      baseline (rate 100/min, latency 1000 ms, error rate 0.1, variety 0.3),
      and the absolute deviations are weighted 0.4 / 0.3 / 0.2 / 0.1. */
  function AnomalyScore(requestRate: real, avgResponseTime: real, errorRate: real, endpointVariety: real): (score: real)
    ensures score >= 0.0
    ensures score >= 0.3 * Abs(avgResponseTime / 1000.0 - 1.0)
    ensures score >= 0.4 * Abs(requestRate / 100.0 - 1.0)
    ensures score >= 0.2 * Abs(errorRate - 0.1)
    ensures score >= 0.1 * Abs(endpointVariety - 0.3)
  {
    Abs(requestRate / 100.0 - 1.0) * 0.4
    + Abs(avgResponseTime / 1000.0 - 1.0) * 0.3
    + Abs(errorRate - 0.1) * 0.2
    + Abs(endpointVariety - 0.3) * 0.1
  }

  /** The score `analyzeIPBehavior` computes for a history. */
  function HistoryScore(h: seq<RequestData>): (score: real)
    requires |h| > 0
    ensures score >= 0.0
    ensures score >= 0.3 * Abs(AverageResponseTime(h) / 1000.0 - 1.0)
  {
    AnomalyScore(RequestRate(h), AverageResponseTime(h), ErrorRate(h), EndpointVariety(h))
  }

  /** With the 60-minute window, a history of at most 12000 requests whose
      average latency is at most 3 s scores at most 1.25, so it is never
      blocked by the 2.0 threshold, whatever its error rate and endpoints. */
  lemma QuietTrafficIsNotBlocked(h: seq<RequestData>)
    requires 0 < |h| <= 12000
    requires 0.0 <= AverageResponseTime(h) <= 3000.0
    ensures HistoryScore(h) <= 1.25 < AnomalyThreshold
  {
    StatisticBounds(h);
    var n := |h| as real;
    assert 0.0 < RequestRate(h) / 100.0 <= 2.0;
    assert Abs(RequestRate(h) / 100.0 - 1.0) <= 1.0;
    assert Abs(AverageResponseTime(h) / 1000.0 - 1.0) <= 2.0;
    assert Abs(ErrorRate(h) - 0.1) <= 0.9;
    assert Abs(EndpointVariety(h) - 0.3) <= 0.7;
  }

  /** Conversely, an average latency of 10 s or more alone pushes the score
      over the threshold. */
  lemma SlowResponsesExceedThreshold(h: seq<RequestData>)
    requires |h| > 0
    requires AverageResponseTime(h) >= 10000.0
    ensures HistoryScore(h) > AnomalyThreshold
  {
    assert Abs(AverageResponseTime(h) / 1000.0 - 1.0) >= 9.0;
  }

  // ---------------------------------------------------------------------------
  // Block table

  /** `isIPBlocked` answers true iff an entry exists and `now.isBefore(blockedUntil)`. */
  predicate BlockedAt(blocks: map<string, int>, ip: string, now: int) {
    ip in blocks && now < blocks[ip]
  }

  /** The block table after `isIPBlocked(ip)` at `now`: an expired entry for
      `ip` is removed; nothing else changes. */
  function AfterLookup(blocks: map<string, int>, ip: string, now: int): (r: map<string, int>)
    ensures ip in r <==> BlockedAt(blocks, ip, now)
    ensures BlockedAt(r, ip, now) == BlockedAt(blocks, ip, now)
    ensures ip in r ==> r[ip] == blocks[ip]
    ensures forall k :: k != ip ==> (k in r <==> k in blocks) && (k in r ==> r[k] == blocks[k])
    ensures |r| <= |blocks|
  {
    if ip in blocks && !(now < blocks[ip]) then blocks - {ip} else blocks
  }

  /** A second lookup at the same instant finds nothing more to remove. */
  lemma AfterLookupIdempotent(blocks: map<string, int>, ip: string, now: int)
    ensures AfterLookup(AfterLookup(blocks, ip, now), ip, now) == AfterLookup(blocks, ip, now)
  {
  }

  /** The block table after `blockIP(ip)` at `now`. */
  function WithBlock(blocks: map<string, int>, ip: string, now: int): (r: map<string, int>)
    ensures ip in r && r[ip] == now + BlockDurationMillis
    ensures forall k :: k != ip ==> (k in r <==> k in blocks) && (k in r ==> r[k] == blocks[k])
  {
    blocks[ip := now + BlockDurationMillis]
  }

  /** After a block at `t`, the IP is blocked at exactly the instants before
      `t` + 15 minutes (the expiry instant itself is no longer blocked). */
  lemma BlockExpiry(blocks: map<string, int>, ip: string, t: int, later: int)
    ensures BlockedAt(WithBlock(blocks, ip, t), ip, later) <==> later < t + BlockDurationMillis
  {
  }

  /** Blocking overwrites: a second block at the same instant changes nothing,
      and a later block resets the expiry instead of stacking. */
  lemma BlockIdempotent(blocks: map<string, int>, ip: string, t: int, t2: int)
    ensures WithBlock(WithBlock(blocks, ip, t), ip, t) == WithBlock(blocks, ip, t)
    ensures WithBlock(WithBlock(blocks, ip, t), ip, t2) == WithBlock(blocks, ip, t2)
  {
  }

  /** `analyzeIPBehavior`'s rule: block iff there are at least 5 requests and
      the score is strictly above 2.0. */
  predicate ShouldBlock(h: seq<RequestData>)
    ensures |h| < MinRequestsForAnalysis ==> !ShouldBlock(h)
    ensures |h| >= MinRequestsForAnalysis && AverageResponseTime(h) >= 10000.0 ==> ShouldBlock(h)
  {
    |h| >= MinRequestsForAnalysis && HistoryScore(h) > AnomalyThreshold
  }

  /** The block table after `analyzeIPBehavior`: a fresh 15-minute block for
      `ip` when the rule fires, the table unchanged otherwise. */
  function BlocksAfterAnalysis(blocks: map<string, int>, ip: string, h: seq<RequestData>, now: int): (r: map<string, int>)
    ensures forall k :: k != ip ==> (k in r <==> k in blocks) && (k in r ==> r[k] == blocks[k])
    ensures ShouldBlock(h) ==> ip in r && r[ip] == now + BlockDurationMillis
    ensures !ShouldBlock(h) ==> r == blocks
  {
    if ShouldBlock(h) then WithBlock(blocks, ip, now) else blocks
  }

  /** Fewer than 5 requests in the window never adds or extends a block. */
  lemma FewRequestsNeverBlock(blocks: map<string, int>, ip: string, h: seq<RequestData>, now: int)
    requires |h| < MinRequestsForAnalysis
    ensures BlocksAfterAnalysis(blocks, ip, h, now) == blocks
  {
  }

  /** What `getIPStats` reports for `ip` given the history map and the block
      table before (`blocks0`) and after (`blocks`) the call: nothing, with the
      table untouched, when the history is absent or empty; otherwise the
      history's size and four statistics, whether the IP is blocked at `now`
      and, exactly when it is, its expiry; the lookups remove an expired
      entry. */
  predicate StatsReported(hist: map<string, seq<RequestData>>, blocks0: map<string, int>, blocks: map<string, int>,
                          ip: string, now: int, stats: Option<IPStats>)
  {
    && (stats.None? <==> HistoryOf(hist, ip) == [])
    && (stats.None? ==> blocks == blocks0)
    && (stats.Some? ==>
          var h := hist[ip];
          && stats.value.totalRequests == |h|
          && stats.value.requestRate == RequestRate(h)
          && stats.value.avgResponseTime == AverageResponseTime(h)
          && stats.value.errorRate == ErrorRate(h)
          && stats.value.endpointVariety == EndpointVariety(h)
          && stats.value.isBlocked == BlockedAt(blocks0, ip, now)
          && (stats.value.blockedUntil.Some? <==> stats.value.isBlocked)
          && (stats.value.isBlocked ==> stats.value.blockedUntil.value == blocks0[ip])
          && blocks == AfterLookup(blocks0, ip, now))
  }

  // ---------------------------------------------------------------------------
  // The service

  class MLAnomalyDetectionService {
    var ipRequestHistory: map<string, seq<RequestData>>
    var blockedIPs: map<string, int>

    constructor ()
      ensures ipRequestHistory == map[] && blockedIPs == map[]
    {
      ipRequestHistory := map[];
      blockedIPs := map[];
    }

    /** Answers whether `ip` is blocked at `now`; an expired entry is removed. */
    method IsIPBlocked(ip: string, now: int) returns (blocked: bool)
      modifies this`blockedIPs
      ensures blocked == BlockedAt(old(blockedIPs), ip, now)
      ensures blockedIPs == AfterLookup(old(blockedIPs), ip, now)
    {
      if ip in blockedIPs && now < blockedIPs[ip] {
        return true;
      } else if ip in blockedIPs {
        blockedIPs := blockedIPs - {ip};
        return false;
      }
      return false;
    }

    /** Records a request from `ip` at `now`: a blocked IP is ignored; otherwise
        the request is appended, the IP's history trimmed to the window, and
        the IP blocked when its history is anomalous. */
    method RecordRequest(ip: string, endpoint: string, responseTime: int, statusCode: int, now: int)
      modifies this
      ensures BlockedAt(old(blockedIPs), ip, now) ==>
        ipRequestHistory == old(ipRequestHistory) && blockedIPs == old(blockedIPs)
      ensures !BlockedAt(old(blockedIPs), ip, now) ==>
        var h := RecordedHistory(old(ipRequestHistory), ip, endpoint, responseTime, statusCode, now);
        && ipRequestHistory == old(ipRequestHistory)[ip := h]
        && blockedIPs == BlocksAfterAnalysis(AfterLookup(old(blockedIPs), ip, now), ip, h, now)
    {
      var blocked := IsIPBlocked(ip, now);
      if blocked {
        return;
      }
      var data := RequestData(now, endpoint, responseTime, statusCode);
      ipRequestHistory := ipRequestHistory[ip := HistoryOf(ipRequestHistory, ip) + [data]];
      CleanOldData(ip, now);
      if ShouldAnalyzeIP(ip) {
        AnalyzeIPBehavior(ip, now);
      }
    }

    /** Drops the entries of `ip`'s history that are older than the window. */
    method CleanOldData(ip: string, now: int)
      modifies this`ipRequestHistory
      ensures ipRequestHistory == if ip in old(ipRequestHistory)
                                  then old(ipRequestHistory)[ip := Trim(old(ipRequestHistory)[ip], now - WindowMillis)]
                                  else old(ipRequestHistory)
    {
      if ip in ipRequestHistory {
        var cutoff := now - WindowMillis;
        ipRequestHistory := ipRequestHistory[ip := Trim(ipRequestHistory[ip], cutoff)];
      }
    }

    /** Analysis runs once the IP's history holds at least 5 requests. */
    predicate ShouldAnalyzeIP(ip: string)
      reads this
      ensures ShouldAnalyzeIP(ip) <==> |HistoryOf(ipRequestHistory, ip)| >= MinRequestsForAnalysis
    {
      ip in ipRequestHistory && |ipRequestHistory[ip]| >= MinRequestsForAnalysis
    }

    /** Blocks `ip` when its current history is anomalous. */
    method AnalyzeIPBehavior(ip: string, now: int)
      modifies this`blockedIPs
      ensures blockedIPs == BlocksAfterAnalysis(old(blockedIPs), ip, HistoryOf(ipRequestHistory, ip), now)
    {
      if ip !in ipRequestHistory || |ipRequestHistory[ip]| < MinRequestsForAnalysis {
        return;
      }
      var history := ipRequestHistory[ip];
      var score := AnomalyScore(RequestRate(history), AverageResponseTime(history),
                                ErrorRate(history), EndpointVariety(history));
      if score > AnomalyThreshold {
        BlockIP(ip, now);
      }
    }

    method BlockIP(ip: string, now: int)
      modifies this`blockedIPs
      ensures blockedIPs == WithBlock(old(blockedIPs), ip, now)
    {
      blockedIPs := blockedIPs[ip := now + BlockDurationMillis];
    }

    /** The statistics of `ip`, or None when it has no history; reading the
        block state removes an expired entry. */
    method GetIPStats(ip: string, now: int) returns (stats: Option<IPStats>)
      modifies this`blockedIPs
      ensures StatsReported(ipRequestHistory, old(blockedIPs), blockedIPs, ip, now, stats)
    {
      if ip !in ipRequestHistory || |ipRequestHistory[ip]| == 0 {
        return None;
      }
      var history := ipRequestHistory[ip];
      var isBlocked := IsIPBlocked(ip, now);
      var blockedUntil := None;
      var stillBlocked := IsIPBlocked(ip, now);
      if stillBlocked {
        blockedUntil := Some(blockedIPs[ip]);
      }
      stats := Some(IPStats(|history|, RequestRate(history), AverageResponseTime(history),
                            ErrorRate(history), EndpointVariety(history), isBlocked, blockedUntil));
    }
  }
}
