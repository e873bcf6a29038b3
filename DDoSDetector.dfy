/** The Python `MLDDoSDetector` and its `DDoSMLIntegrator` front end: a
    bounded per-IP buffer of recent requests, per-IP timestamp lists cleaned
    by dropping their leading run of old entries, integer count features,
    the threshold rule applied to an anomaly score, and set-based block and
    false-positive lists.

    Timestamps and `now` (the value `time.time()` would give) are integer
    milliseconds; `window_size` stays in seconds as in the source. The
    IsolationForest score is a parameter `score: Option<real>`, where None
    stands for the exception path of the scoring code. */
module DDoSDetector {
  import opened Common

  const DefaultBlockThreshold: real := 0.8
  const DefaultWindowSize: int := 300
  const DefaultFeaturesWindow: nat := 100
  const DefaultMethod: string := "GET"
  const DefaultUrl: string := "/"
  const DefaultStatusCode: int := 200

  /** One entry of `traffic_data[ip]`. */
  datatype TrafficRecord = TrafficRecord(timestamp: int, bytes: int, httpMethod: string, url: string, statusCode: int)

  /** The integer counts behind the feature vector of `_extract_features_for_ip`
      (each ratio of the source is the count divided by `requests`). */
  datatype Features = Features(
    requests: nat,
    getCount: nat,
    postCount: nat,
    uniqueUrls: nat,
    errorCount: nat,
    count4xx: nat,
    maxBurst: nat)

  datatype Status = Status(blockedIps: set<string>, suspiciousIps: set<string>, monitoringIps: nat, falsePositives: set<string>)

  /** The request dictionary given to `process_request`; None is a missing key. */
  datatype RequestInput = RequestInput(
    ip: Option<string>,
    timestamp: Option<int>,
    bytesSent: Option<int>,
    httpMethod: Option<string>,
    url: Option<string>,
    statusCode: Option<int>)

  // ---------------------------------------------------------------------------
  // The bounded buffer `deque(maxlen=features_window)`

  /** `append` on a deque with a maximum length: the newest element goes at
      the end and, once the deque is full, the oldest ones are dropped. */
  function BoundedAppend<T>(buf: seq<T>, x: T, maxLen: nat): (r: seq<T>)
    ensures |r| == Min(|buf| + 1, maxLen)
  {
    var s := buf + [x];
    if |s| > maxLen then s[|s| - maxLen..] else s
  }

  /** Below capacity the element is appended; at capacity the oldest element
      is dropped and the rest keep their order. */
  lemma BoundedAppendShape<T>(buf: seq<T>, x: T, maxLen: nat)
    ensures |buf| < maxLen ==> BoundedAppend(buf, x, maxLen) == buf + [x]
    ensures 0 < |buf| == maxLen ==> BoundedAppend(buf, x, maxLen) == buf[1..] + [x]
    ensures maxLen == 0 ==> BoundedAppend(buf, x, maxLen) == []
  {
    if 0 < |buf| == maxLen {
      assert (buf + [x])[1..] == buf[1..] + [x];
    }
  }

  // ---------------------------------------------------------------------------
  // Cleaning old timestamps

  /** The length of the leading run of timestamps older than `cutoff`
      (the `while idx` loop of `_clean_old_data`). */
  function LeadingOld(ts: seq<int>, cutoff: int): (k: nat)
    ensures k <= |ts|
    ensures forall i :: 0 <= i < k ==> ts[i] < cutoff
    ensures k < |ts| ==> ts[k] >= cutoff
  {
    if ts == [] || ts[0] >= cutoff then 0 else 1 + LeadingOld(ts[1..], cutoff)
  }

  /** `LeadingOld` is the only length with those properties. */
  lemma LeadingOldUnique(ts: seq<int>, cutoff: int, k: nat)
    requires k <= |ts|
    requires forall i :: 0 <= i < k ==> ts[i] < cutoff
    requires k < |ts| ==> ts[k] >= cutoff
    ensures k == LeadingOld(ts, cutoff)
  {
  }

  /** The `while idx` scan of `_clean_old_data`: the index of the first
      timestamp that is not older than `cutoff`, or the length. */
  method FirstInWindow(timestamps: seq<int>, cutoff: int) returns (idx: nat)
    ensures idx == LeadingOld(timestamps, cutoff)
  {
    idx := 0;
    while idx < |timestamps| && timestamps[idx] < cutoff
      invariant 0 <= idx <= |timestamps|
      invariant forall i :: 0 <= i < idx ==> timestamps[i] < cutoff
    {
      idx := idx + 1;
    }
    LeadingOldUnique(timestamps, cutoff, idx);
  }

  /** What the cleaning loop keeps of one IP's timestamps: a suffix, every
      dropped timestamp is older than the cutoff, and the first kept one is not. */
  function DropOld(ts: seq<int>, cutoff: int): (r: seq<int>)
    ensures |r| <= |ts| && forall i :: 0 <= i < |r| ==> r[i] == ts[|ts| - |r| + i]
    ensures forall i :: 0 <= i < |ts| - |r| ==> ts[i] < cutoff
    ensures r != [] ==> r[0] >= cutoff
  {
    ts[LeadingOld(ts, cutoff)..]
  }

  predicate Sorted(ts: seq<int>) {
    forall i, j :: 0 <= i < j < |ts| ==> ts[i] <= ts[j]
  }

  function AtOrAfter(cutoff: int): int -> bool {
    t => t >= cutoff
  }

  /** Only a leading run is dropped, so old timestamps behind a newer one
      survive; when the timestamps arrive in order, exactly the timestamps
      older than the cutoff are dropped. */
  lemma {:induction false} DropOldOfSorted(ts: seq<int>, cutoff: int)
    requires Sorted(ts)
    ensures DropOld(ts, cutoff) == Filter(ts, AtOrAfter(cutoff))
  {
    if ts != [] {
      if ts[0] >= cutoff {
        FilterAllKept(ts, AtOrAfter(cutoff));
      } else {
        var k := LeadingOld(ts[1..], cutoff);
        assert ts[1 + k..] == ts[1..][k..];
        DropOldOfSorted(ts[1..], cutoff);
      }
    }
  }

  /** The IPs `_clean_old_data` stops tracking: a non-empty list whose every
      timestamp lies in the dropped leading run. */
  function Emptied(ts: map<string, seq<int>>, cutoff: int): set<string> {
    set ip | ip in ts && ts[ip] != [] && DropOld(ts[ip], cutoff) == []
  }

  function CleanedTimestamps(ts: map<string, seq<int>>, cutoff: int): map<string, seq<int>> {
    map ip | ip in ts && ip !in Emptied(ts, cutoff) :: DropOld(ts[ip], cutoff)
  }

  /** After cleaning, every tracked list is a suffix of its old list that
      starts inside the window (or is the untouched empty list), and the
      untracked IPs are exactly the emptied ones. */
  lemma CleanedTimestampsSpec(ts: map<string, seq<int>>, cutoff: int)
    ensures CleanedTimestamps(ts, cutoff).Keys == ts.Keys - Emptied(ts, cutoff)
    ensures forall ip :: ip in CleanedTimestamps(ts, cutoff) ==>
      var r := CleanedTimestamps(ts, cutoff)[ip];
      && (r != [] ==> r[0] >= cutoff)
      && (ts[ip] != [] ==> r != [])
      && r == ts[ip][|ts[ip]| - |r|..]
      && (forall i :: 0 <= i < |ts[ip]| - |r| ==> ts[ip][i] < cutoff)
    ensures forall ip :: ip in Emptied(ts, cutoff) ==>
      ts[ip] != [] && forall i :: 0 <= i < |ts[ip]| ==> ts[ip][i] < cutoff
  {
  }

  /** The timestamp map part-way through `_clean_old_data`: the IPs still
      `pending` are untouched, the others are cleaned. */
  ghost function PartialClean(ts0: map<string, seq<int>>, cutoff: int, pending: set<string>): map<string, seq<int>> {
    map ip | ip in ts0 && (ip in pending || ip !in Emptied(ts0, cutoff)) ::
      if ip in pending then ts0[ip] else DropOld(ts0[ip], cutoff)
  }

  lemma PartialCleanBounds(ts0: map<string, seq<int>>, cutoff: int)
    ensures PartialClean(ts0, cutoff, ts0.Keys) == ts0
    ensures PartialClean(ts0, cutoff, {}) == CleanedTimestamps(ts0, cutoff)
  {
  }

  /** Cleaning one more IP removes it when it is emptied and otherwise
      replaces its list by the list without its leading old run. */
  lemma PartialCleanStep(ts0: map<string, seq<int>>, cutoff: int, pending: set<string>, ip: string)
    requires ip in pending && ip in ts0
    ensures ip in Emptied(ts0, cutoff) ==>
      PartialClean(ts0, cutoff, pending - {ip}) == PartialClean(ts0, cutoff, pending) - {ip}
    ensures ip !in Emptied(ts0, cutoff) ==>
      PartialClean(ts0, cutoff, pending - {ip}) == PartialClean(ts0, cutoff, pending)[ip := DropOld(ts0[ip], cutoff)]
  {
  }

  /** Settling one more pending IP removes it from `m` when it is emptied. */
  lemma RemovedStep<V>(m: map<string, V>, gone: set<string>, pending: set<string>, ip: string)
    requires ip in pending
    ensures ip in gone ==> m - (gone - (pending - {ip})) == (m - (gone - pending)) - {ip}
    ensures ip !in gone ==> m - (gone - (pending - {ip})) == m - (gone - pending)
  {
    if ip in gone {
      assert gone - (pending - {ip}) == (gone - pending) + {ip};
    } else {
      assert gone - (pending - {ip}) == gone - pending;
    }
  }

  /** Once nothing is pending, every emptied IP is removed. */
  lemma RemovedAll<V>(m: map<string, V>, gone: set<string>, pending: set<string>)
    requires pending == {}
    ensures m - (gone - pending) == m - gone
  {
    assert gone - pending == gone;
  }

  /** The effect of cleaning the timestamps of one tracked IP: an IP whose
      whole list is old loses its timestamps, buffer and features; any other
      IP keeps its list without the leading old run. */
  ghost predicate CleanedOne(ts: map<string, seq<int>>, td: map<string, seq<TrafficRecord>>, f: map<string, Features>,
                             ip: string, cutoff: int, ts': map<string, seq<int>>,
                             td': map<string, seq<TrafficRecord>>, f': map<string, Features>)
  {
    ip in ts &&
    var list := ts[ip];
    if list != [] && DropOld(list, cutoff) == [] then
      ts' == ts - {ip} && td' == td - {ip} && f' == f - {ip}
    else
      ts' == ts[ip := DropOld(list, cutoff)] && td' == td && f' == f
  }

  /** Part-way through `_clean_old_data`: the IPs still `pending` are
      untouched, and the emptied IPs already visited are gone from all three
      maps. */
  ghost predicate CleanedExcept(ts0: map<string, seq<int>>, td0: map<string, seq<TrafficRecord>>,
                                f0: map<string, Features>, cutoff: int, pending: set<string>,
                                ts: map<string, seq<int>>, td: map<string, seq<TrafficRecord>>,
                                f: map<string, Features>)
  {
    && pending <= ts0.Keys
    && ts == PartialClean(ts0, cutoff, pending)
    && td == td0 - (Emptied(ts0, cutoff) - pending)
    && f == f0 - (Emptied(ts0, cutoff) - pending)
  }

  lemma CleanedExceptStart(ts0: map<string, seq<int>>, td0: map<string, seq<TrafficRecord>>,
                           f0: map<string, Features>, cutoff: int)
    ensures CleanedExcept(ts0, td0, f0, cutoff, ts0.Keys, ts0, td0, f0)
  {
    PartialCleanBounds(ts0, cutoff);
    assert Emptied(ts0, cutoff) - ts0.Keys == {};
    assert td0 - {} == td0;
    assert f0 - {} == f0;
  }

  lemma PendingTracked(ts0: map<string, seq<int>>, td0: map<string, seq<TrafficRecord>>,
                       f0: map<string, Features>, cutoff: int, pending: set<string>,
                       ts: map<string, seq<int>>, td: map<string, seq<TrafficRecord>>,
                       f: map<string, Features>, ip: string)
    requires CleanedExcept(ts0, td0, f0, cutoff, pending, ts, td, f) && ip in pending
    ensures ip in ts
  {
  }

  lemma CleanedExceptStep(ts0: map<string, seq<int>>, td0: map<string, seq<TrafficRecord>>,
                          f0: map<string, Features>, cutoff: int, pending: set<string>, ip: string,
                          ts: map<string, seq<int>>, td: map<string, seq<TrafficRecord>>, f: map<string, Features>,
                          ts': map<string, seq<int>>, td': map<string, seq<TrafficRecord>>, f': map<string, Features>)
    requires ip in pending
    requires CleanedExcept(ts0, td0, f0, cutoff, pending, ts, td, f)
    requires CleanedOne(ts, td, f, ip, cutoff, ts', td', f')
    ensures CleanedExcept(ts0, td0, f0, cutoff, pending - {ip}, ts', td', f')
  {
    PartialCleanStep(ts0, cutoff, pending, ip);
    RemovedStep(td0, Emptied(ts0, cutoff), pending, ip);
    RemovedStep(f0, Emptied(ts0, cutoff), pending, ip);
  }

  lemma CleanedExceptDone(ts0: map<string, seq<int>>, td0: map<string, seq<TrafficRecord>>,
                          f0: map<string, Features>, cutoff: int, pending: set<string>,
                          ts: map<string, seq<int>>, td: map<string, seq<TrafficRecord>>, f: map<string, Features>)
    requires CleanedExcept(ts0, td0, f0, cutoff, pending, ts, td, f) && pending == {}
    ensures ts == CleanedTimestamps(ts0, cutoff)
    ensures td == td0 - Emptied(ts0, cutoff) && f == f0 - Emptied(ts0, cutoff)
  {
    PartialCleanBounds(ts0, cutoff);
    RemovedAll(td0, Emptied(ts0, cutoff), pending);
    RemovedAll(f0, Emptied(ts0, cutoff), pending);
  }

  /** The invariant of the detector's four per-IP structures (see
      `MLDDoSDetector.Valid`). */
  ghost predicate Consistent(traffic: map<string, seq<TrafficRecord>>, timestamps: map<string, seq<int>>,
                             features: map<string, Features>, featuresWindow: nat)
  {
    && (forall ip {:trigger traffic[ip]} :: ip in traffic ==> |traffic[ip]| <= featuresWindow)
    && (forall ip {:trigger traffic[ip]} :: ip in traffic && traffic[ip] != [] ==> ip in timestamps)
    && timestamps.Keys <= traffic.Keys
    && features.Keys <= timestamps.Keys
    && (forall ip {:trigger timestamps[ip]} :: ip in timestamps ==> timestamps[ip] != [])
  }

  /** The two appends at the start of `record_request`. */
  function AppendTraffic(traffic: map<string, seq<TrafficRecord>>, ip: string, record: TrafficRecord,
                         featuresWindow: nat): map<string, seq<TrafficRecord>>
  {
    traffic[ip := BoundedAppend(TrafficOf(traffic, ip), record, featuresWindow)]
  }

  function AppendTimestamp(timestamps: map<string, seq<int>>, ip: string, t: int): map<string, seq<int>> {
    timestamps[ip := TimestampsOf(timestamps, ip) + [t]]
  }

  /** Features are (re)computed for a buffer of at least `min(5, features_window)`
      and at least 2 requests. */
  predicate Extracted(data: seq<TrafficRecord>, featuresWindow: nat) {
    |data| >= Min(5, featuresWindow) && |data| >= 2
  }

  /** Storing a request keeps the invariant. */
  lemma AppendKeepsConsistent(traffic: map<string, seq<TrafficRecord>>, timestamps: map<string, seq<int>>,
                              features: map<string, Features>, featuresWindow: nat, ip: string, record: TrafficRecord)
    requires Consistent(traffic, timestamps, features, featuresWindow)
    ensures Consistent(AppendTraffic(traffic, ip, record, featuresWindow),
                       AppendTimestamp(timestamps, ip, record.timestamp), features, featuresWindow)
  {
  }

  /** Cleaning keeps the invariant. */
  lemma CleaningKeepsConsistent(traffic: map<string, seq<TrafficRecord>>, timestamps: map<string, seq<int>>,
                                features: map<string, Features>, featuresWindow: nat, cutoff: int)
    requires Consistent(traffic, timestamps, features, featuresWindow)
    ensures var gone := Emptied(timestamps, cutoff);
      Consistent(traffic - gone, CleanedTimestamps(timestamps, cutoff), features - gone, featuresWindow)
  {
  }

  // ---------------------------------------------------------------------------
  // Features

  predicate IsGet(r: TrafficRecord) { r.httpMethod == "GET" }
  predicate IsPost(r: TrafficRecord) { r.httpMethod == "POST" }
  predicate IsErrorStatus(r: TrafficRecord) { r.statusCode >= 400 }
  predicate Is4xx(r: TrafficRecord) { 400 <= r.statusCode < 500 }

  /** The distinct URLs of a buffer; the same set as `Image(data, r => r.url)`,
      written without a lambda to keep the feature proofs cheap. */
  function Urls(data: seq<TrafficRecord>): set<string> {
    if data == [] then {} else {data[0].url} + Urls(data[1..])
  }

  /** A buffer holds every one of its URLs, and at least one and at most as
      many distinct URLs as requests. */
  lemma {:induction false} UrlsBounds(data: seq<TrafficRecord>)
    ensures forall r :: r in data ==> r.url in Urls(data)
    ensures |Urls(data)| <= |data|
    ensures |data| > 0 ==> |Urls(data)| >= 1
  {
    if data != [] {
      UrlsBounds(data[1..]);
      var rest := Urls(data[1..]);
      assert |{data[0].url} + rest| <= 1 + |rest|;
      assert data[0].url in Urls(data);
    }
  }

  function Timestamps(data: seq<TrafficRecord>): (ts: seq<int>)
    ensures |ts| == |data|
    ensures forall i :: 0 <= i < |data| ==> ts[i] == data[i].timestamp
  {
    seq(|data|, i requires 0 <= i < |data| => data[i].timestamp)
  }

  /** Python's `int(ts)` on a timestamp in seconds truncates toward zero. */
  function Bucket(ts: int): (b: int)
    ensures ts >= 0 ==> b * 1000 <= ts < (b + 1) * 1000
    ensures ts < 0 ==> (b - 1) * 1000 < ts <= b * 1000
  {
    if ts >= 0 then ts / 1000 else -((-ts) / 1000)
  }

  /** How many timestamps fall in the one-second bucket `b`. */
  function BucketCount(ts: seq<int>, b: int): (n: nat)
    ensures n <= |ts|
  {
    if ts == [] then 0
    else BucketCount(ts[..|ts| - 1], b) + (if Bucket(ts[|ts| - 1]) == b then 1 else 0)
  }

  /** `m` is the largest number of timestamps sharing a one-second bucket. */
  ghost predicate IsMaxBurst(ts: seq<int>, m: nat) {
    (forall b :: BucketCount(ts, b) <= m) && (exists b :: BucketCount(ts, b) == m)
  }

  lemma {:induction false} BucketCountOfMember(ts: seq<int>, i: nat)
    requires i < |ts|
    ensures BucketCount(ts, Bucket(ts[i])) >= 1
  {
    if i < |ts| - 1 {
      BucketCountOfMember(ts[..|ts| - 1], i);
    }
  }

  /** On a non-empty list the busiest second holds between 1 and n requests. */
  lemma MaxBurstBounds(ts: seq<int>, m: nat)
    requires |ts| > 0 && IsMaxBurst(ts, m)
    ensures 1 <= m <= |ts|
  {
    BucketCountOfMember(ts, 0);
  }

  function MaxNat(a: nat, b: nat): nat {
    if a >= b then a else b
  }

  /** The largest bucket count among the buckets of `ts[i..]`. */
  function BurstFrom(ts: seq<int>, i: nat): nat
    requires i <= |ts|
    decreases |ts| - i
  {
    if i == |ts| then 0 else MaxNat(BucketCount(ts, Bucket(ts[i])), BurstFrom(ts, i + 1))
  }

  /** The `max_burst` feature: the busiest second's count for two or more
      timestamps, and 1 otherwise. */
  function PeakBurst(ts: seq<int>): nat {
    if |ts| > 1 then BurstFrom(ts, 0) else 1
  }

  lemma {:induction false} BurstFromCovers(ts: seq<int>, i: nat, j: nat)
    requires i <= j < |ts|
    ensures BucketCount(ts, Bucket(ts[j])) <= BurstFrom(ts, i)
    decreases j - i
  {
    if i < j {
      BurstFromCovers(ts, i + 1, j);
    }
  }

  lemma {:induction false} BurstFromAttained(ts: seq<int>, i: nat) returns (j: nat)
    requires i < |ts|
    ensures i <= j < |ts| && BurstFrom(ts, i) == BucketCount(ts, Bucket(ts[j]))
    decreases |ts| - i
  {
    if i + 1 == |ts| || BucketCount(ts, Bucket(ts[i])) >= BurstFrom(ts, i + 1) {
      j := i;
    } else {
      j := BurstFromAttained(ts, i + 1);
    }
  }

  /** A bucket with a positive count holds one of the timestamps. */
  lemma {:induction false} BucketCountWitness(ts: seq<int>, b: int) returns (i: nat)
    requires BucketCount(ts, b) > 0
    ensures i < |ts| && Bucket(ts[i]) == b
  {
    var n := |ts| - 1;
    if Bucket(ts[n]) == b {
      i := n;
    } else {
      i := BucketCountWitness(ts[..n], b);
      assert ts[..n][i] == ts[i];
    }
  }

  /** `PeakBurst` is the maximum bucket count. */
  lemma PeakBurstIsMax(ts: seq<int>)
    requires |ts| > 0
    ensures IsMaxBurst(ts, PeakBurst(ts))
  {
    if |ts| > 1 {
      forall b | BucketCount(ts, b) > 0
        ensures BucketCount(ts, b) <= PeakBurst(ts)
      {
        var i := BucketCountWitness(ts, b);
        BurstFromCovers(ts, 0, i);
      }
      var j := BurstFromAttained(ts, 0);
      assert BucketCount(ts, Bucket(ts[j])) == PeakBurst(ts);
    } else {
      assert ts[..0] == [];
      assert BucketCount(ts, Bucket(ts[0])) == 1;
    }
  }

  /** The maximum is unique. */
  lemma MaxBurstUnique(ts: seq<int>, m1: nat, m2: nat)
    requires IsMaxBurst(ts, m1) && IsMaxBurst(ts, m2)
    ensures m1 == m2
  {
    var b1 :| BucketCount(ts, b1) == m1;
    var b2 :| BucketCount(ts, b2) == m2;
  }

  /** The `bucket_counts` loop of `_extract_features_for_ip`: the number of
      timestamps in each one-second bucket that occurs. */
  method CountBuckets(timestamps: seq<int>) returns (counts: map<int, nat>)
    ensures forall b :: b in counts ==> counts[b] == BucketCount(timestamps, b)
    ensures forall b :: b !in counts ==> BucketCount(timestamps, b) == 0
  {
    counts := map[];
    var i := 0;
    while i < |timestamps|
      invariant 0 <= i <= |timestamps|
      invariant forall b :: b in counts ==> counts[b] == BucketCount(timestamps[..i], b)
      invariant forall b :: b !in counts ==> BucketCount(timestamps[..i], b) == 0
    {
      var b := Bucket(timestamps[i]);
      var c := if b in counts then counts[b] else 0;
      assert timestamps[..i + 1][..i] == timestamps[..i];
      counts := counts[b := c + 1];
      i := i + 1;
    }
    assert timestamps[..i] == timestamps;
  }

  /** A non-empty set of buckets has a member, so `:|` can pick one. */
  lemma NonEmptyHasMember(s: set<int>)
    requires s != {}
    ensures exists x :: x in s
  {
    if forall x :: x !in s {
      assert false;
    }
  }

  /** `max(bucket_counts.values())`. */
  method MaxValue(counts: map<int, nat>) returns (m: nat)
    requires |counts| > 0
    ensures forall b :: b in counts ==> counts[b] <= m
    ensures exists b :: b in counts && counts[b] == m
  {
    var keys := counts.Keys;
    assert |keys| == |counts|;
    NonEmptyHasMember(keys);
    var first :| first in keys;
    m := counts[first];
    keys := keys - {first};
    while keys != {}
      invariant keys <= counts.Keys
      invariant forall b :: b in counts && b !in keys ==> counts[b] <= m
      invariant exists b :: b in counts && counts[b] == m
      decreases |keys|
    {
      NonEmptyHasMember(keys);
      var b :| b in keys;
      if counts[b] > m {
        m := counts[b];
      }
      keys := keys - {b};
    }
  }

  /** The largest one-second burst; a list of at most one timestamp gives 1. */
  method MaxBurst(timestamps: seq<int>) returns (m: nat)
    ensures m == PeakBurst(timestamps)
  {
    if |timestamps| > 1 {
      var counts := CountBuckets(timestamps);
      BucketCountOfMember(timestamps, 0);
      assert Bucket(timestamps[0]) in counts;
      m := MaxValue(counts);
      assert IsMaxBurst(timestamps, m);
      PeakBurstIsMax(timestamps);
      MaxBurstUnique(timestamps, m, PeakBurst(timestamps));
    } else {
      m := 1;
    }
  }

  /** The counts `_extract_features_for_ip` derives from an IP's buffer. */
  function CountFeatures(data: seq<TrafficRecord>, maxBurst: nat): (f: Features)
    ensures f.requests == |data| && f.maxBurst == maxBurst
    ensures f.count4xx <= f.errorCount <= f.requests
    ensures f.getCount + f.postCount <= f.requests
    ensures f.uniqueUrls <= f.requests && (|data| > 0 ==> f.uniqueUrls >= 1)
  {
    CountWhereMonotone(data, Is4xx, IsErrorStatus);
    CountWhereDisjoint(data, IsGet, IsPost);
    UrlsBounds(data);
    Features(|data|, CountWhere(data, IsGet), CountWhere(data, IsPost), |Urls(data)|,
             CountWhere(data, IsErrorStatus), CountWhere(data, Is4xx), maxBurst)
  }

  /** The feature row `_extract_features_for_ip` stores for `data`. */
  function FeatureRow(data: seq<TrafficRecord>): (f: Features)
    ensures f.requests == |data|
    ensures |data| > 0 ==> 1 <= f.maxBurst <= |data| && IsMaxBurst(Timestamps(data), f.maxBurst)
  {
    var ts := Timestamps(data);
    if |data| > 0 then
      PeakBurstIsMax(ts);
      MaxBurstBounds(ts, PeakBurst(ts));
      CountFeatures(data, PeakBurst(ts))
    else
      CountFeatures(data, PeakBurst(ts))
  }

  /** The integer bounds of the features of a buffer of at least 2 requests. */
  lemma FeatureBounds(data: seq<TrafficRecord>)
    requires |data| >= 2
    ensures var f := FeatureRow(data);
      && f.requests == |data|
      && f.count4xx <= f.errorCount <= f.requests
      && f.getCount + f.postCount <= f.requests
      && 1 <= f.uniqueUrls <= f.requests
      && 1 <= f.maxBurst <= f.requests
      && IsMaxBurst(Timestamps(data), f.maxBurst)
  {
    CountWhereMonotone(data, Is4xx, IsErrorStatus);
    CountWhereDisjoint(data, IsGet, IsPost);
    UrlsBounds(data);
    PeakBurstIsMax(Timestamps(data));
    MaxBurstBounds(Timestamps(data), PeakBurst(Timestamps(data)));
  }

  // ---------------------------------------------------------------------------
  // The decision rule of `_check_anomaly_realtime`

  /** A score above the threshold; a failed prediction (no score) flags nothing. */
  predicate Flagged(score: Option<real>, threshold: real)
    ensures score.None? ==> !Flagged(score, threshold)
  {
    score.Some? && score.value > threshold
  }

  /** Blocking is nested inside the suspicious branch. */
  predicate Severe(score: Option<real>, threshold: real)
    ensures Severe(score, threshold) ==> Flagged(score, threshold)
  {
    Flagged(score, threshold) && score.value > threshold * 1.5
  }

  /** With a non-negative threshold, blocking is exactly "score above 1.5
      times the threshold", and every blocked IP is also suspicious. */
  lemma SevereRule(score: Option<real>, threshold: real)
    requires threshold >= 0.0
    ensures Severe(score, threshold) <==> score.Some? && score.value > threshold * 1.5
    ensures Severe(score, threshold) ==> Flagged(score, threshold)
  {
  }

  /** The effect of the decision rule on `ip` when it is `evaluated`: it
      becomes suspicious on a flagged score and is blocked (and the request
      refused) on a severe one; otherwise nothing changes and the request is
      allowed. */
  predicate Decided(ip: string, evaluated: bool, score: Option<real>, threshold: real,
                    suspicious0: set<string>, blocked0: set<string>,
                    suspicious: set<string>, blocked: set<string>, allowed: bool)
    ensures Decided(ip, evaluated, score, threshold, suspicious0, blocked0, suspicious, blocked, allowed) ==>
      && suspicious0 <= suspicious && suspicious - suspicious0 <= {ip}
      && blocked0 <= blocked && blocked - blocked0 <= {ip}
      && (!allowed ==> ip in blocked && ip in suspicious)
      && (!evaluated ==> suspicious == suspicious0 && blocked == blocked0 && allowed)
  {
    && suspicious == suspicious0 + (if evaluated && Flagged(score, threshold) then {ip} else {})
    && blocked == blocked0 + (if evaluated && Severe(score, threshold) then {ip} else {})
    && (allowed <==> !(evaluated && Severe(score, threshold)))
  }

  /** The rule never blocks an IP it did not evaluate, so an exempt IP
      stays unblocked. */
  lemma DecidedKeepsExemption(ip: string, evaluated: bool, score: Option<real>, threshold: real,
                              suspicious0: set<string>, blocked0: set<string>,
                              suspicious: set<string>, blocked: set<string>, allowed: bool, exempt: set<string>)
    requires Decided(ip, evaluated, score, threshold, suspicious0, blocked0, suspicious, blocked, allowed)
    requires blocked0 !! exempt && (evaluated ==> ip !in exempt)
    ensures blocked !! exempt
  {
  }

  /** A rule that does not evaluate the IP leaves everything as it was. */
  lemma NothingDecided(ip: string, evaluated: bool, score: Option<real>, threshold: real,
                       suspicious: set<string>, blocked: set<string>)
    requires !evaluated
    ensures Decided(ip, evaluated, score, threshold, suspicious, blocked, suspicious, blocked, true)
  {
    assert suspicious + {} == suspicious;
    assert blocked + {} == blocked;
  }

  /** The tail of `record_request` after storing and cleaning: the buffer of
      `ip` is read (and so exists), its features are recomputed when it holds
      enough requests, and the decision rule runs when the check applies. */
  ghost predicate Analyzed(traffic0: map<string, seq<TrafficRecord>>, features0: map<string, Features>,
                           suspicious0: set<string>, blocked0: set<string>,
                           traffic: map<string, seq<TrafficRecord>>, features: map<string, Features>,
                           suspicious: set<string>, blocked: set<string>, falsePositives: set<string>,
                           ip: string, score: Option<real>, threshold: real, featuresWindow: nat, allowed: bool)
  {
    && traffic == Touch(traffic0, ip)
    && FeaturesUpdated(features0, features, traffic[ip], ip, featuresWindow)
    && Decided(ip, Checked(traffic[ip], features, falsePositives, ip, featuresWindow), score, threshold,
               suspicious0, blocked0, suspicious, blocked, allowed)
  }

  /** A buffer below `min(5, features_window)` is neither described nor checked. */
  lemma AnalyzedSkip(traffic0: map<string, seq<TrafficRecord>>, features0: map<string, Features>,
                     suspicious0: set<string>, blocked0: set<string>, traffic: map<string, seq<TrafficRecord>>,
                     falsePositives: set<string>, ip: string, score: Option<real>, threshold: real, featuresWindow: nat)
    requires traffic == Touch(traffic0, ip) && |traffic[ip]| < Min(5, featuresWindow)
    ensures Analyzed(traffic0, features0, suspicious0, blocked0, traffic, features0, suspicious0, blocked0,
                     falsePositives, ip, score, threshold, featuresWindow, true)
  {
    NothingDecided(ip, Checked(traffic[ip], features0, falsePositives, ip, featuresWindow), score, threshold,
                   suspicious0, blocked0);
  }

  /** Features are extracted, and the check decides when more than 10 IPs have features. */
  lemma AnalyzedExtracted(traffic0: map<string, seq<TrafficRecord>>, features0: map<string, Features>,
                          suspicious0: set<string>, blocked0: set<string>, traffic: map<string, seq<TrafficRecord>>,
                          features: map<string, Features>, suspicious: set<string>, blocked: set<string>,
                          falsePositives: set<string>, ip: string, score: Option<real>, threshold: real,
                          featuresWindow: nat, allowed: bool)
    requires traffic == Touch(traffic0, ip) && |traffic[ip]| >= Min(5, featuresWindow)
    requires |traffic[ip]| < 2 ==> features == features0
    requires |traffic[ip]| >= 2 ==> features == features0[ip := FeatureRow(traffic[ip])]
    requires Decided(ip, ip in features && |features| > 10 && ip !in falsePositives, score, threshold,
                     suspicious0, blocked0, suspicious, blocked, allowed)
    ensures Analyzed(traffic0, features0, suspicious0, blocked0, traffic, features, suspicious, blocked,
                     falsePositives, ip, score, threshold, featuresWindow, allowed)
  {
  }

  /** `record_request` runs the real-time check when the buffer holds at
      least `min(5, features_window)` requests and more than 10 IPs have
      features including this one; the check itself skips false positives. */
  predicate Checked(data: seq<TrafficRecord>, features: map<string, Features>, falsePositives: set<string>,
                    ip: string, featuresWindow: nat)
  {
    |data| >= Min(5, featuresWindow) && ip in features && |features| > 10 && ip !in falsePositives
  }

  /** `features` is `features0` with the row of `ip` recomputed from `data`
      when extraction applies, and `features0` otherwise. */
  predicate FeaturesUpdated(features0: map<string, Features>, features: map<string, Features>,
                            data: seq<TrafficRecord>, ip: string, featuresWindow: nat)
  {
    && (Extracted(data, featuresWindow) ==> features == features0[ip := FeatureRow(data)])
    && (!Extracted(data, featuresWindow) ==> features == features0)
  }

  function TrafficOf(m: map<string, seq<TrafficRecord>>, ip: string): seq<TrafficRecord> {
    if ip in m then m[ip] else []
  }

  function TimestampsOf(m: map<string, seq<int>>, ip: string): seq<int> {
    if ip in m then m[ip] else []
  }

  /** Reading `traffic_data[ip]` on the defaultdict creates an empty entry. */
  function Touch(m: map<string, seq<TrafficRecord>>, ip: string): (r: map<string, seq<TrafficRecord>>)
    ensures r.Keys == m.Keys + {ip}
    ensures forall k :: k in m ==> r[k] == m[k]
    ensures ip !in m ==> r[ip] == []
  {
    if ip in m then m else m[ip := []]
  }

  /** The state `record_request` leaves behind for a request from an IP
      that was not blocked: the request is stored, old data is cleaned (the
      emptied IPs lose their buffers, timestamps and features), the buffer of
      `ip` is read (and so exists), its features are recomputed when it holds
      enough requests, and the decision rule runs when more than 10 IPs have
      features. */
  ghost predicate Recorded(traffic0: map<string, seq<TrafficRecord>>, timestamps0: map<string, seq<int>>,
                           features0: map<string, Features>, suspicious0: set<string>, blocked0: set<string>,
                           traffic: map<string, seq<TrafficRecord>>, timestamps: map<string, seq<int>>,
                           features: map<string, Features>, suspicious: set<string>, blocked: set<string>,
                           falsePositives: set<string>, ip: string, record: TrafficRecord, cutoff: int,
                           score: Option<real>, threshold: real, featuresWindow: nat, allowed: bool)
  {
    var ts1 := AppendTimestamp(timestamps0, ip, record.timestamp);
    var gone := Emptied(ts1, cutoff);
    && timestamps == CleanedTimestamps(ts1, cutoff)
    && Analyzed(AppendTraffic(traffic0, ip, record, featuresWindow) - gone, features0 - gone, suspicious0, blocked0,
                traffic, features, suspicious, blocked, falsePositives, ip, score, threshold, featuresWindow, allowed)
  }

  /** Storing and cleaning, then analysing, compose to `Recorded`. */
  lemma RecordedSteps(traffic0: map<string, seq<TrafficRecord>>, timestamps0: map<string, seq<int>>,
                      features0: map<string, Features>, suspicious0: set<string>, blocked0: set<string>,
                      traffic1: map<string, seq<TrafficRecord>>, features1: map<string, Features>,
                      traffic: map<string, seq<TrafficRecord>>, timestamps: map<string, seq<int>>,
                      features: map<string, Features>, suspicious: set<string>, blocked: set<string>,
                      falsePositives: set<string>, ip: string, record: TrafficRecord, cutoff: int,
                      score: Option<real>, threshold: real, featuresWindow: nat, allowed: bool)
    requires
      var ts1 := AppendTimestamp(timestamps0, ip, record.timestamp);
      && timestamps == CleanedTimestamps(ts1, cutoff)
      && traffic1 == AppendTraffic(traffic0, ip, record, featuresWindow) - Emptied(ts1, cutoff)
      && features1 == features0 - Emptied(ts1, cutoff)
    requires Analyzed(traffic1, features1, suspicious0, blocked0, traffic, features, suspicious, blocked,
                      falsePositives, ip, score, threshold, featuresWindow, allowed)
    ensures Recorded(traffic0, timestamps0, features0, suspicious0, blocked0, traffic, timestamps, features,
                     suspicious, blocked, falsePositives, ip, record, cutoff, score, threshold, featuresWindow, allowed)
  {
  }

  // ---------------------------------------------------------------------------
  // The detector

  class MLDDoSDetector {
    const blockThreshold: real
    const windowSize: int
    const featuresWindow: nat
    var trafficData: map<string, seq<TrafficRecord>>
    var ipTimestamps: map<string, seq<int>>
    var ipFeatures: map<string, Features>
    var blockedIps: set<string>
    var suspiciousIps: set<string>
    var falsePositives: set<string>

    /** Buffers never exceed `features_window`; an IP has features only while
        its timestamps are tracked, and timestamps only while it has a buffer;
        a non-empty buffer belongs to a tracked IP; tracked lists are non-empty. */
    ghost predicate Valid()
      reads this
    {
      Consistent(trafficData, ipTimestamps, ipFeatures, featuresWindow)
    }

    /** No IP marked as a false positive is blocked. */
    ghost predicate NoFalsePositiveBlocked()
      reads this
    {
      blockedIps !! falsePositives
    }

    function Cutoff(now: int): int {
      now - windowSize * 1000
    }

    constructor (blockThreshold: real := DefaultBlockThreshold, windowSize: int := DefaultWindowSize,
                 featuresWindow: nat := DefaultFeaturesWindow)
      ensures Valid() && NoFalsePositiveBlocked()
      ensures this.blockThreshold == blockThreshold && this.windowSize == windowSize
      ensures this.featuresWindow == featuresWindow
      ensures trafficData == map[] && ipTimestamps == map[] && ipFeatures == map[]
      ensures blockedIps == {} && suspiciousIps == {} && falsePositives == {}
    {
      this.blockThreshold := blockThreshold;
      this.windowSize := windowSize;
      this.featuresWindow := featuresWindow;
      trafficData := map[];
      ipTimestamps := map[];
      ipFeatures := map[];
      blockedIps := {};
      suspiciousIps := {};
      falsePositives := {};
    }

    /** Records a request; answers whether it is allowed. */
    method RecordRequest(ip: string, timestamp: int, bytesSent: int, httpMethod: string, url: string,
                         statusCode: int, now: int, score: Option<real>) returns (allowed: bool)
      requires Valid()
      modifies this
      ensures Valid()
      ensures falsePositives == old(falsePositives)
      ensures old(blockedIps) <= blockedIps
      ensures old(NoFalsePositiveBlocked()) ==> NoFalsePositiveBlocked()
      ensures ip in old(blockedIps) ==> !allowed && unchanged(this)
      ensures ip !in old(blockedIps) ==>
        Recorded(old(trafficData), old(ipTimestamps), old(ipFeatures), old(suspiciousIps), old(blockedIps),
                 trafficData, ipTimestamps, ipFeatures, suspiciousIps, blockedIps, falsePositives,
                 ip, TrafficRecord(timestamp, bytesSent, httpMethod, url, statusCode), Cutoff(now),
                 score, blockThreshold, featuresWindow, allowed)
    {
      if ip in blockedIps {
        return false;
      }
      allowed := RecordUnblocked(ip, TrafficRecord(timestamp, bytesSent, httpMethod, url, statusCode), now, score);
    }

    /** `record_request` for an IP that is not blocked. */
    method RecordUnblocked(ip: string, record: TrafficRecord, now: int, score: Option<real>) returns (allowed: bool)
      requires Valid()
      modifies this`trafficData, this`ipTimestamps, this`ipFeatures, this`suspiciousIps, this`blockedIps
      ensures Valid()
      ensures old(blockedIps) <= blockedIps
      ensures old(blockedIps) !! falsePositives ==> blockedIps !! falsePositives
      ensures Recorded(old(trafficData), old(ipTimestamps), old(ipFeatures), old(suspiciousIps), old(blockedIps),
                       trafficData, ipTimestamps, ipFeatures, suspiciousIps, blockedIps, falsePositives,
                       ip, record, Cutoff(now), score, blockThreshold, featuresWindow, allowed)
    {
      ghost var traffic0, timestamps0, features0 := trafficData, ipTimestamps, ipFeatures;
      ghost var suspicious0, blocked0 := suspiciousIps, blockedIps;
      StoreAndClean(ip, record, now);
      ghost var traffic1, features1 := trafficData, ipFeatures;
      allowed := AnalyzeRecorded(ip, score);
      RecordedSteps(traffic0, timestamps0, features0, suspicious0, blocked0, traffic1, features1,
                    trafficData, ipTimestamps, ipFeatures, suspiciousIps, blockedIps, falsePositives,
                    ip, record, Cutoff(now), score, blockThreshold, featuresWindow, allowed);
    }

    /** Stores the request, then cleans old data. */
    method StoreAndClean(ip: string, record: TrafficRecord, now: int)
      requires Valid()
      modifies this`trafficData, this`ipTimestamps, this`ipFeatures
      ensures Valid()
      ensures ipTimestamps == CleanedTimestamps(AppendTimestamp(old(ipTimestamps), ip, record.timestamp), Cutoff(now))
      ensures trafficData == AppendTraffic(old(trafficData), ip, record, featuresWindow)
                             - Emptied(AppendTimestamp(old(ipTimestamps), ip, record.timestamp), Cutoff(now))
      ensures ipFeatures == old(ipFeatures) - Emptied(AppendTimestamp(old(ipTimestamps), ip, record.timestamp), Cutoff(now))
    {
      Store(ip, record);
      CleanOldData(now);
    }

    /** Appends the request to the IP's bounded buffer and its timestamp to
        the IP's timestamp list. */
    method Store(ip: string, record: TrafficRecord)
      requires Valid()
      modifies this`trafficData, this`ipTimestamps
      ensures Valid()
      ensures trafficData == AppendTraffic(old(trafficData), ip, record, featuresWindow)
      ensures ipTimestamps == AppendTimestamp(old(ipTimestamps), ip, record.timestamp)
    {
      AppendKeepsConsistent(trafficData, ipTimestamps, ipFeatures, featuresWindow, ip, record);
      trafficData := AppendTraffic(trafficData, ip, record, featuresWindow);
      ipTimestamps := AppendTimestamp(ipTimestamps, ip, record.timestamp);
    }

    /** The tail of `record_request` once the request is stored and old data
        is cleaned: extract features when the buffer holds enough requests,
        and run the real-time check once more than 10 IPs have features. */
    method AnalyzeRecorded(ip: string, score: Option<real>) returns (allowed: bool)
      requires Valid()
      modifies this`trafficData, this`ipFeatures, this`suspiciousIps, this`blockedIps
      ensures Valid()
      ensures old(blockedIps) !! falsePositives ==> blockedIps !! falsePositives
      ensures Analyzed(old(trafficData), old(ipFeatures), old(suspiciousIps), old(blockedIps),
                       trafficData, ipFeatures, suspiciousIps, blockedIps, falsePositives,
                       ip, score, blockThreshold, featuresWindow, allowed)
    {
      ghost var traffic0, features0, suspicious0, blocked0 := trafficData, ipFeatures, suspiciousIps, blockedIps;
      if ip !in trafficData {
        trafficData := trafficData[ip := []];
      }
      if |trafficData[ip]| < Min(5, featuresWindow) {
        AnalyzedSkip(traffic0, features0, suspicious0, blocked0, trafficData, falsePositives,
                     ip, score, blockThreshold, featuresWindow);
        return true;
      }
      allowed := ExtractAndCheck(ip, score);
      AnalyzedExtracted(traffic0, features0, suspicious0, blocked0, trafficData, ipFeatures, suspiciousIps, blockedIps,
                        falsePositives, ip, score, blockThreshold, featuresWindow, allowed);
    }

    /** Feature extraction for a buffer of at least `min(5, features_window)`
        requests, then the real-time check once more than 10 IPs have features. */
    method ExtractAndCheck(ip: string, score: Option<real>) returns (allowed: bool)
      requires Valid() && ip in trafficData
      modifies this`trafficData, this`ipFeatures, this`suspiciousIps, this`blockedIps
      ensures Valid()
      ensures old(blockedIps) !! falsePositives ==> blockedIps !! falsePositives
      ensures trafficData == old(trafficData)
      ensures |trafficData[ip]| < 2 ==> ipFeatures == old(ipFeatures)
      ensures |trafficData[ip]| >= 2 ==> ipFeatures == old(ipFeatures)[ip := FeatureRow(trafficData[ip])]
      ensures Decided(ip, ip in ipFeatures && |ipFeatures| > 10 && ip !in falsePositives, score, blockThreshold,
                      old(suspiciousIps), old(blockedIps), suspiciousIps, blockedIps, allowed)
    {
      ExtractFeaturesForIp(ip);
      if ip in ipFeatures && |ipFeatures| > 10 {
        allowed := CheckAnomalyRealtime(ip, score);
      } else {
        allowed := true;
        NothingDecided(ip, ip in ipFeatures && |ipFeatures| > 10 && ip !in falsePositives, score, blockThreshold,
                       suspiciousIps, blockedIps);
      }
    }

    /** Stores the feature row of `ip` when its buffer holds at least 2 requests. */
    method ExtractFeaturesForIp(ip: string)
      requires Valid()
      modifies this`trafficData, this`ipFeatures
      ensures Valid()
      ensures trafficData == Touch(old(trafficData), ip)
      ensures |trafficData[ip]| < 2 ==> ipFeatures == old(ipFeatures)
      ensures |trafficData[ip]| >= 2 ==> ipFeatures == old(ipFeatures)[ip := FeatureRow(trafficData[ip])]
    {
      if ip !in trafficData {
        trafficData := trafficData[ip := []];
      }
      if |trafficData[ip]| < 2 {
        return;
      }
      var data := trafficData[ip];
      var maxBurst := MaxBurst(Timestamps(data));
      ipFeatures := ipFeatures[ip := CountFeatures(data, maxBurst)];
    }

    /** For every tracked IP, drops the leading run of timestamps older than
        the window; an IP left with none stops being tracked altogether. */
    method CleanOldData(now: int)
      requires Valid()
      modifies this`ipTimestamps, this`trafficData, this`ipFeatures
      ensures Valid()
      ensures ipTimestamps == CleanedTimestamps(old(ipTimestamps), Cutoff(now))
      ensures trafficData == old(trafficData) - Emptied(old(ipTimestamps), Cutoff(now))
      ensures ipFeatures == old(ipFeatures) - Emptied(old(ipTimestamps), Cutoff(now))
    {
      var cutoff := Cutoff(now);
      ghost var ts0, td0, f0 := ipTimestamps, trafficData, ipFeatures;
      CleaningKeepsConsistent(td0, ts0, f0, featuresWindow, cutoff);
      CleanedExceptStart(ts0, td0, f0, cutoff);
      var ips := ipTimestamps.Keys;
      while ips != {}
        invariant CleanedExcept(ts0, td0, f0, cutoff, ips, ipTimestamps, trafficData, ipFeatures)
        decreases |ips|
      {
        var ip :| ip in ips;
        ghost var ts, td, f := ipTimestamps, trafficData, ipFeatures;
        PendingTracked(ts0, td0, f0, cutoff, ips, ts, td, f, ip);
        CleanIp(ip, cutoff);
        CleanedExceptStep(ts0, td0, f0, cutoff, ips, ip, ts, td, f, ipTimestamps, trafficData, ipFeatures);
        ips := ips - {ip};
      }
      CleanedExceptDone(ts0, td0, f0, cutoff, ips, ipTimestamps, trafficData, ipFeatures);
    }

    /** The loop body of `_clean_old_data` for one tracked IP. */
    method CleanIp(ip: string, cutoff: int)
      requires ip in ipTimestamps
      modifies this`ipTimestamps, this`trafficData, this`ipFeatures
      ensures CleanedOne(old(ipTimestamps), old(trafficData), old(ipFeatures), ip, cutoff,
                         ipTimestamps, trafficData, ipFeatures)
    {
      var timestamps := ipTimestamps[ip];
      if timestamps != [] {
        var idx := FirstInWindow(timestamps, cutoff);
        if idx > 0 {
          ipTimestamps := ipTimestamps[ip := timestamps[idx..]];
          if ipTimestamps[ip] == [] {
            ipTimestamps := ipTimestamps - {ip};
            trafficData := trafficData - {ip};
            ipFeatures := ipFeatures - {ip};
          }
        } else {
          assert ipTimestamps == ipTimestamps[ip := DropOld(timestamps, cutoff)];
        }
      } else {
        assert ipTimestamps == ipTimestamps[ip := DropOld(timestamps, cutoff)];
      }
    }

    /** The real-time decision for `ip` given the anomaly score of its
        feature row (None when scoring raised an exception). */
    method CheckAnomalyRealtime(ip: string, score: Option<real>) returns (allowed: bool)
      modifies this`suspiciousIps, this`blockedIps
      ensures
        var evaluated := ip !in falsePositives && |ipFeatures| >= 10 && ip in ipFeatures;
        Decided(ip, evaluated, score, blockThreshold, old(suspiciousIps), old(blockedIps), suspiciousIps, blockedIps, allowed)
    {
      if ip in falsePositives {
        return true;
      }
      if |ipFeatures| < 10 {
        return true;
      }
      if ip !in ipFeatures || score.None? {
        // the model, the scaler or the lookup of `ip`'s row raised
        return true;
      }
      var anomalyScore := score.value;
      if anomalyScore > blockThreshold {
        suspiciousIps := suspiciousIps + {ip};
        if anomalyScore > blockThreshold * 1.5 {
          var _ := BlockIp(ip);
          return false;
        }
      }
      return true;
    }

    /** Adds `ip` to the block list; answers whether it was newly blocked. */
    method BlockIp(ip: string) returns (added: bool)
      modifies this`blockedIps
      ensures added <==> ip !in old(blockedIps)
      ensures blockedIps == old(blockedIps) + {ip}
    {
      if ip !in blockedIps {
        blockedIps := blockedIps + {ip};
        return true;
      }
      return false;
    }

    /** Removes `ip` from the block list, optionally remembering it as a false
        positive; answers whether it was blocked. */
    method UnblockIp(ip: string, markAsFalsePositive: bool := false) returns (removed: bool)
      modifies this`blockedIps, this`falsePositives
      ensures removed <==> ip in old(blockedIps)
      ensures blockedIps == old(blockedIps) - {ip}
      ensures falsePositives == if removed && markAsFalsePositive then old(falsePositives) + {ip} else old(falsePositives)
      ensures old(NoFalsePositiveBlocked()) ==> NoFalsePositiveBlocked()
    {
      if ip in blockedIps {
        blockedIps := blockedIps - {ip};
        if markAsFalsePositive {
          falsePositives := falsePositives + {ip};
        }
        return true;
      }
      return false;
    }

    function GetStatus(): (status: Status)
      reads this
      ensures status.blockedIps == blockedIps && status.suspiciousIps == suspiciousIps
      ensures status.falsePositives == falsePositives
      ensures status.monitoringIps == |ipFeatures|
    {
      Status(blockedIps, suspiciousIps, |ipFeatures|, falsePositives)
    }
  }

  // ---------------------------------------------------------------------------
  // The integrator

  predicate Complete(request: RequestInput) {
    request.ip.Some? && request.timestamp.Some? && request.bytesSent.Some?
  }

  class DDoSMLIntegrator {
    const detector: MLDDoSDetector
    var requestCount: int

    ghost predicate Valid()
      reads this, detector
    {
      detector.Valid()
    }

    constructor (blockThreshold: real := DefaultBlockThreshold)
      ensures Valid() && fresh(detector) && requestCount == 0
      ensures detector.blockThreshold == blockThreshold
      ensures detector.windowSize == DefaultWindowSize && detector.featuresWindow == DefaultFeaturesWindow
      ensures detector.blockedIps == {} && detector.falsePositives == {}
    {
      detector := new MLDDoSDetector(blockThreshold, DefaultWindowSize, DefaultFeaturesWindow);
      requestCount := 0;
    }

    /** Counts the request, lets an incomplete one through untouched, and
        otherwise hands it to the detector with the source's defaults for
        the optional fields. */
    method ProcessRequest(request: RequestInput, now: int, score: Option<real>) returns (allowed: bool)
      requires Valid()
      modifies this, detector
      ensures Valid()
      ensures requestCount == old(requestCount) + 1
      ensures !Complete(request) ==> allowed && unchanged(detector)
      ensures Complete(request) && request.ip.value in old(detector.blockedIps) ==>
        !allowed && unchanged(detector)
      ensures !allowed ==> Complete(request) && request.ip.value in detector.blockedIps
      ensures old(detector.blockedIps) <= detector.blockedIps
      ensures detector.falsePositives == old(detector.falsePositives)
      ensures old(detector.NoFalsePositiveBlocked()) ==> detector.NoFalsePositiveBlocked()
      ensures Complete(request) && request.ip.value !in old(detector.blockedIps) ==>
        Recorded(old(detector.trafficData), old(detector.ipTimestamps), old(detector.ipFeatures),
                 old(detector.suspiciousIps), old(detector.blockedIps),
                 detector.trafficData, detector.ipTimestamps, detector.ipFeatures, detector.suspiciousIps,
                 detector.blockedIps, detector.falsePositives, request.ip.value,
                 TrafficRecord(request.timestamp.value, request.bytesSent.value,
                               request.httpMethod.GetOr(DefaultMethod), request.url.GetOr(DefaultUrl),
                               request.statusCode.GetOr(DefaultStatusCode)),
                 detector.Cutoff(now), score, detector.blockThreshold, detector.featuresWindow, allowed)
    {
      requestCount := requestCount + 1;
      if !Complete(request) {
        return true;
      }
      allowed := detector.RecordRequest(
        request.ip.value, request.timestamp.value, request.bytesSent.value,
        request.httpMethod.GetOr(DefaultMethod), request.url.GetOr(DefaultUrl),
        request.statusCode.GetOr(DefaultStatusCode), now, score);
    }

    method IsIpBlocked(ip: string) returns (blocked: bool)
      ensures blocked <==> ip in detector.blockedIps
    {
      blocked := ip in detector.blockedIps;
    }

    method UnblockIp(ip: string, markAsFalsePositive: bool := false) returns (removed: bool)
      requires Valid()
      modifies detector`blockedIps, detector`falsePositives
      ensures Valid()
      ensures removed <==> ip in old(detector.blockedIps)
      ensures detector.blockedIps == old(detector.blockedIps) - {ip}
      ensures detector.falsePositives ==
        if removed && markAsFalsePositive then old(detector.falsePositives) + {ip} else old(detector.falsePositives)
      ensures old(detector.NoFalsePositiveBlocked()) ==> detector.NoFalsePositiveBlocked()
    {
      removed := detector.UnblockIp(ip, markAsFalsePositive);
    }

    /** The detector's status, passed through. */
    function GetStatus(): (status: Status)
      reads detector
      ensures status.blockedIps == detector.blockedIps && status.suspiciousIps == detector.suspiciousIps
      ensures status.falsePositives == detector.falsePositives
      ensures status.monitoringIps == |detector.ipFeatures|
    {
      detector.GetStatus()
    }
  }
}
