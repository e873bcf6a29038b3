# DDoS Monitor: per-IP rate tracking and blocking, in Dafny

This project models the per-IP tracking and blocking logic of the DDoS
Monitor, which appears in three places:

- **`MLAnomaly`** (`MLAnomaly.dfy`) models the Java `MLAnomalyDetectionService`. It covers:
  - a per-IP request history trimmed to a trailing window;
  - four statistics over that history;
  - a weighted anomaly score;
  - a block table mapping each IP to its blocked-until instant, whose entries expire lazily when looked up.

  The class `MLAnomalyDetectionService` holds the two mutable maps. The statistics and the score are pure functions over a history snapshot.
- **`PacketMonitor`** (`PacketMonitor.dfy`) models the Java `PacketMonitorService`, the front door that consults the ML service. It keeps:
  - per-IP packet lists and counters;
  - a newest-first list of recent packets trimmed to 60 seconds;
  - the aggregate `Statistics`;
  - its own block map, which the service only ever sweeps.

  The class invariant `Valid` states that:
  - every counter equals the length of its list;
  - `totalPackets` is the sum of the list lengths;
  - `uniqueIPs` is the number of IPs with a list.
- **`DDoSDetector`** (`DDoSDetector.dfy`) models the Python `MLDDoSDetector` and `DDoSMLIntegrator`. It covers:
  - the bounded per-IP buffer (`deque(maxlen=features_window)`);
  - the timestamp cleaner, which drops a leading run of old timestamps;
  - the integer count features, including the busiest one-second bucket;
  - the threshold rule applied to an anomaly score;
  - the set-based block list with its false-positive exemption.
- **`Common`** (`Common.dfy`) holds shared helpers: an `Option`, counting, an order-keeping filter, and the set of images of a sequence.

Time is an explicit integer `now` in milliseconds, passed to every operation that reads the clock. Request timestamps are also whole milliseconds, so finer precision is lost (see "## Left out"). The Python `window_size` stays in seconds, as in the source, so the cutoff is `now - window_size * 1000`. The Python one-second bucket `int(ts)` is truncation toward zero of `ts / 1000`.

Java doubles are exact `real`s. The IsolationForest anomaly score of the Python check is the parameter `score: Option<real>`; `None` stands for an exception raised while scoring.

The Java history window is 60 *minutes*, because `WINDOW_SIZE = 60` is passed to `Duration.ofMinutes`. The comment beside the constant says "1 minute window", but the model follows the code (`WindowSizeMinutes`, `WindowMillis`). The request rate is therefore the history size divided by 60.

Source paths below are relative to the repository root.

## Model

| member | source | states |
|---|---|---|
| MLAnomaly.TrimKeepsExactlyRecent | backend/src/main/java/com/ddosmonitor/service/MLAnomalyDetectionService.java:60-66 | trimming removes exactly the entries strictly older than the cutoff (an entry at the cutoff survives, because `isBefore` is strict): every copy of a recent entry is kept and no copy of an old one, the length is the number of recent entries, and the order of the rest is kept |
| MLAnomaly.Trim | backend/src/main/java/com/ddosmonitor/service/MLAnomalyDetectionService.java:60-66 | the trimmed history holds exactly the entries not older than the cutoff and is no longer than the history |
| MLAnomaly.RequestRate | backend/src/main/java/com/ddosmonitor/service/MLAnomalyDetectionService.java:94-97 | the rate is non-negative and 60 times it is the number of requests in the window |
| MLAnomaly.AverageResponseTime | backend/src/main/java/com/ddosmonitor/service/MLAnomalyDetectionService.java:99-104 | 0 for an empty history (`orElse(0.0)`); otherwise the average times the size is the total latency |
| MLAnomaly.AverageResponseTimeBounds | backend/src/main/java/com/ddosmonitor/service/MLAnomalyDetectionService.java:99-104 | the average latency of a non-empty history lies between its smallest and its largest latency |
| MLAnomaly.ErrorRate | backend/src/main/java/com/ddosmonitor/service/MLAnomalyDetectionService.java:106-111 | the error rate times the size is the number of requests with a status of 400 or more; it lies in [0, 1] and is 0 exactly when there is no such request |
| MLAnomaly.EndpointVariety | backend/src/main/java/com/ddosmonitor/service/MLAnomalyDetectionService.java:113-117 | the endpoint variety times the size is the number of distinct endpoints; it lies in (0, 1] |
| MLAnomaly.RecordedHistoryShape | backend/src/main/java/com/ddosmonitor/service/MLAnomalyDetectionService.java:48-66 | the history after recording is the old history minus what fell out of the 60-minute window, followed by the new request; every entry lies inside the window |
| MLAnomaly.StatisticBounds | backend/src/main/java/com/ddosmonitor/service/MLAnomalyDetectionService.java:94-117 | on a non-empty history: error count <= size, 1 <= distinct endpoints <= size, error rate in [0,1], endpoint variety in (0,1], request rate is size / 60; an endpoint is counted iff some request used it |
| MLAnomaly.EndpointsAreUsed | backend/src/main/java/com/ddosmonitor/service/MLAnomalyDetectionService.java:113-117 | the set of distinct endpoints holds exactly the endpoints that occur in the history |
| MLAnomaly.AnomalyScore | backend/src/main/java/com/ddosmonitor/service/MLAnomalyDetectionService.java:119-138 | the score is non-negative and at least each of its four weighted deviations: 0.4 for the rate against 100/min, 0.3 for latency against 1000 ms, 0.2 for the error rate against 0.1, 0.1 for the variety against 0.3 |
| MLAnomaly.HistoryScore | backend/src/main/java/com/ddosmonitor/service/MLAnomalyDetectionService.java:73-86 | the score of a history is non-negative and at least 0.3 times the deviation of its average latency from 1000 ms |
| MLAnomaly.QuietTrafficIsNotBlocked | backend/src/main/java/com/ddosmonitor/service/MLAnomalyDetectionService.java:119-138 | a history of at most 12000 requests with average latency at most 3 s scores at most 1.25, below the 2.0 threshold, whatever its errors and endpoints |
| MLAnomaly.SlowResponsesExceedThreshold | backend/src/main/java/com/ddosmonitor/service/MLAnomalyDetectionService.java:119-138 | an average latency of 10 s or more alone puts the score over the 2.0 threshold |
| MLAnomaly.AfterLookup | backend/src/main/java/com/ddosmonitor/service/MLAnomalyDetectionService.java:32-41 | after a lookup the entry of the IP survives iff it is still in force (`now < blockedUntil`), with its expiry unchanged; every other entry is untouched and the table never grows |
| MLAnomaly.AfterLookupIdempotent | backend/src/main/java/com/ddosmonitor/service/MLAnomalyDetectionService.java:32-41 | a second lookup at the same instant removes nothing more |
| MLAnomaly.WithBlock | backend/src/main/java/com/ddosmonitor/service/MLAnomalyDetectionService.java:140-143 | after a block the IP has exactly one entry, `now` + 15 minutes, and all other entries are unchanged |
| MLAnomaly.BlockExpiry | backend/src/main/java/com/ddosmonitor/service/MLAnomalyDetectionService.java:32-41 | after a block at `t`, a lookup finds the IP blocked exactly at the instants before `t` + 15 minutes |
| MLAnomaly.BlockIdempotent | backend/src/main/java/com/ddosmonitor/service/MLAnomalyDetectionService.java:140-143 | blocking twice at the same instant equals blocking once; a later block overwrites the earlier expiry instead of extending it |
| MLAnomaly.ShouldBlock | backend/src/main/java/com/ddosmonitor/service/MLAnomalyDetectionService.java:73-92 | a history of fewer than 5 requests is never blocked; one of at least 5 requests with an average latency of 10 s or more always is |
| MLAnomaly.BlocksAfterAnalysis | backend/src/main/java/com/ddosmonitor/service/MLAnomalyDetectionService.java:73-92 | when the rule fires the IP gets a block expiring 15 minutes after `now`; otherwise the table is unchanged; other IPs' entries never change |
| MLAnomaly.FewRequestsNeverBlock | backend/src/main/java/com/ddosmonitor/service/MLAnomalyDetectionService.java:68-77 | a history of fewer than 5 requests leaves the block table as it was |
| MLAnomaly.MLAnomalyDetectionService.constructor | backend/src/main/java/com/ddosmonitor/service/MLAnomalyDetectionService.java:15-16 | both maps start empty |
| MLAnomaly.MLAnomalyDetectionService.IsIPBlocked | backend/src/main/java/com/ddosmonitor/service/MLAnomalyDetectionService.java:32-41 | answers true iff an entry exists with `now < blockedUntil`; an expired entry is removed; an absent IP leaves the map unchanged |
| MLAnomaly.MLAnomalyDetectionService.RecordRequest | backend/src/main/java/com/ddosmonitor/service/MLAnomalyDetectionService.java:43-58 | for a blocked IP, neither map changes. Otherwise: that IP's history becomes its trimmed history plus the new request; other histories are unchanged; the block table is the lazily expired one, plus a 15-minute block when the new history has at least 5 requests and scores above 2.0 |
| MLAnomaly.MLAnomalyDetectionService.CleanOldData | backend/src/main/java/com/ddosmonitor/service/MLAnomalyDetectionService.java:60-66 | only the given IP's history is trimmed to the window; an absent IP changes nothing |
| MLAnomaly.MLAnomalyDetectionService.ShouldAnalyzeIP | backend/src/main/java/com/ddosmonitor/service/MLAnomalyDetectionService.java:68-71 | analysis applies iff the IP's history holds at least 5 requests |
| MLAnomaly.MLAnomalyDetectionService.AnalyzeIPBehavior | backend/src/main/java/com/ddosmonitor/service/MLAnomalyDetectionService.java:73-92 | the IP is blocked for 15 minutes iff its history holds at least 5 requests and scores strictly above 2.0; otherwise the table is unchanged |
| MLAnomaly.MLAnomalyDetectionService.BlockIP | backend/src/main/java/com/ddosmonitor/service/MLAnomalyDetectionService.java:140-143 | the block table gains or overwrites exactly the IP's entry with `now` + 15 minutes |
| MLAnomaly.MLAnomalyDetectionService.GetIPStats | backend/src/main/java/com/ddosmonitor/service/MLAnomalyDetectionService.java:145-165 | the result is absent iff the history is absent or empty, and then the block table is unchanged. Otherwise `totalRequests` is the history length, the four statistics are those of the history, `isBlocked` is whether the IP is blocked at `now`, `blockedUntil` is present iff it is and then holds its expiry, and the lookups drop the IP's expired entry |
| PacketMonitor.SweepExpired | backend/src/main/java/com/ddosmonitor/service/PacketMonitorService.java:62-64 | the sweep keeps exactly the entries whose expiry is not before `now`, with their values, so the map never grows |
| PacketMonitor.TrackPacket | backend/src/main/java/com/ddosmonitor/service/PacketMonitorService.java:44-52 | appending a packet to its IP's list, bumping its counter and the total keeps counters equal to list lengths and the total equal to the sum of the lengths |
| PacketMonitor.PacketMonitorService.constructor | backend/src/main/java/com/ddosmonitor/service/PacketMonitorService.java:15-25 | everything starts empty, the invariant holds, and the ML service is the one given |
| PacketMonitor.PacketMonitorService.RecordPacket | backend/src/main/java/com/ddosmonitor/service/PacketMonitorService.java:27-56 | for an ML-blocked IP, the packet is marked with reason "ML Anomaly Detection" and put first among the recent packets, and nothing else changes. Otherwise the packet goes to the ML service and is appended to its IP's list; the counter rises by one and the total by one; the recent list is newest-first and trimmed; the block map is swept. The per-IP lists only grow, and the invariant is kept |
| PacketMonitor.PacketMonitorService.AcceptPacket | backend/src/main/java/com/ddosmonitor/service/PacketMonitorService.java:36-55 | the non-blocked branch of `recordPacket`, with the full new state of the service and of its ML service |
| PacketMonitor.PacketMonitorService.UpdateTracking | backend/src/main/java/com/ddosmonitor/service/PacketMonitorService.java:44-52 | the packet is appended to its IP's list, the counter becomes the new length, the packet is first among the recent packets, the total rises by one, and `uniqueIPs` is the number of IPs; the invariant is kept |
| PacketMonitor.PacketMonitorService.CleanupOldData | backend/src/main/java/com/ddosmonitor/service/PacketMonitorService.java:58-65 | removes exactly the recent packets older than 60 s, keeping the order of the rest, and exactly the block entries that expired before `now` |
| PacketMonitor.PacketMonitorService.GetRecentPackets | backend/src/main/java/com/ddosmonitor/service/PacketMonitorService.java:67-69 | returns the recent packets, newest first |
| PacketMonitor.PacketMonitorService.GetStatistics | backend/src/main/java/com/ddosmonitor/service/PacketMonitorService.java:90-92 | the total equals the number of packets held per IP, and `uniqueIPs` equals both the number of IPs with a list and the number with a counter |
| PacketMonitor.PacketMonitorService.GetIPStats | backend/src/main/java/com/ddosmonitor/service/PacketMonitorService.java:71-88 | the ML part is exactly what the ML service's `getIPStats` reports (absent iff the ML history is empty; otherwise every statistic, the blocked flag and the expiry), and the ML block table changes only by dropping the IP's expired entry. `packetCount` and `requestCount` are present iff the IP has a packet list, and then both equal its length |
| PacketMonitor.PacketMonitorService.GetBlockedIPs | backend/src/main/java/com/ddosmonitor/service/PacketMonitorService.java:94-104 | exactly one entry per key of the block map, with no duplicates, each holding its expiry and the reason "ML Anomaly Detection" |
| DDoSDetector.BoundedAppend | ml_ddos_detector.py:130-136 | the buffer length after an append is `min(len + 1, features_window)` |
| DDoSDetector.BoundedAppendShape | ml_ddos_detector.py:130-136 | below capacity the record is appended; at capacity the oldest record is dropped and the rest keep their order |
| DDoSDetector.LeadingOld | ml_ddos_detector.py:229-232 | the index where the scan stops: every timestamp before it is older than the cutoff, and the one at it is not |
| DDoSDetector.FirstInWindow | ml_ddos_detector.py:229-232 | the `while idx` loop computes exactly that index |
| DDoSDetector.DropOld | ml_ddos_detector.py:229-236 | what is kept of one IP's list is a suffix of it; every timestamp cut from the front is older than the cutoff, and the first kept one is not |
| DDoSDetector.DropOldOfSorted | ml_ddos_detector.py:229-236 | on timestamps in arrival order, dropping the leading old run removes exactly the timestamps older than the cutoff |
| DDoSDetector.CleanedTimestampsSpec | ml_ddos_detector.py:218-244 | after cleaning, the tracked IPs are the old ones minus those whose every timestamp was old (and an IP is dropped only then). Each list left is a suffix of its old list that starts inside the window, every timestamp cut from its front was older than the cutoff, and a non-empty list stays non-empty |
| DDoSDetector.AppendKeepsConsistent | ml_ddos_detector.py:129-139 | storing a request keeps the invariant: buffers within `features_window`; features only for tracked IPs; tracked IPs have buffers; tracked lists non-empty |
| DDoSDetector.CleaningKeepsConsistent | ml_ddos_detector.py:218-244 | cleaning, together with deleting the emptied IPs' buffers and features, keeps that invariant |
| DDoSDetector.UrlsBounds | ml_ddos_detector.py:183 | every URL of the buffer is among its distinct URLs, of which there are between 1 and n |
| DDoSDetector.Bucket | ml_ddos_detector.py:199 | `int(ts)` truncates toward zero: a non-negative timestamp lies in [1000 b, 1000 (b + 1)), a negative one in (1000 (b - 1), 1000 b] |
| DDoSDetector.MaxBurstBounds | ml_ddos_detector.py:194-202 | the busiest one-second bucket of a non-empty list holds between 1 and n requests |
| DDoSDetector.PeakBurstIsMax | ml_ddos_detector.py:194-202 | `max_burst` is the largest bucket count and is attained by some bucket |
| DDoSDetector.MaxBurstUnique | ml_ddos_detector.py:194-202 | the largest bucket count is unique |
| DDoSDetector.CountBuckets | ml_ddos_detector.py:197-199 | the bucket loop maps each occurring bucket to the number of timestamps in it; absent buckets have none |
| DDoSDetector.MaxValue | ml_ddos_detector.py:200 | `max(bucket_counts.values())` is an upper bound of the counts and one of them |
| DDoSDetector.MaxBurst | ml_ddos_detector.py:194-202 | the computed burst is the largest bucket count for two or more timestamps, and 1 otherwise |
| DDoSDetector.CountFeatures | ml_ddos_detector.py:154-216 | the request count is the buffer length and the given burst is kept; 4xx count <= error count <= requests; GET + POST <= requests; distinct URLs <= requests, and at least 1 for a non-empty buffer |
| DDoSDetector.FeatureRow | ml_ddos_detector.py:154-216 | the row of a non-empty buffer has a `max_burst` between 1 and the buffer length, equal to the busiest one-second bucket |
| DDoSDetector.FeatureBounds | ml_ddos_detector.py:154-216 | for a buffer of at least 2 requests: 4xx count <= error count <= n; GET + POST <= n; 1 <= distinct URLs <= n; 1 <= max burst <= n, and the max burst is the busiest second |
| DDoSDetector.SevereRule | ml_ddos_detector.py:273-280 | with a non-negative threshold, blocking happens exactly for scores above 1.5 times the threshold, and every blocked IP is also suspicious |
| DDoSDetector.Flagged | ml_ddos_detector.py:273-285 | the exception path (no score) flags nothing |
| DDoSDetector.Severe | ml_ddos_detector.py:273-280 | every blocked IP is also made suspicious: blocking is nested inside the suspicious branch |
| DDoSDetector.Decided | ml_ddos_detector.py:246-285 | the rule only adds `ip`, to the suspicious and blocked sets, which never shrink; a refused request's IP is both blocked and suspicious; an IP not evaluated changes nothing and is allowed |
| DDoSDetector.DecidedKeepsExemption | ml_ddos_detector.py:248-249 | the rule never blocks an IP it did not evaluate, so a false positive stays unblocked |
| DDoSDetector.AnalyzedSkip | ml_ddos_detector.py:145-152 | a buffer below `min(5, features_window)` is neither described nor checked, and the request is allowed |
| DDoSDetector.AnalyzedExtracted | ml_ddos_detector.py:145-152 | extraction followed by the check (when the IP has features and more than 10 IPs do) yields the outcome `record_request` promises |
| DDoSDetector.Touch | ml_ddos_detector.py:145 | reading `traffic_data[ip]` on the defaultdict adds `ip` with an empty buffer when absent and changes no other entry |
| DDoSDetector.MLDDoSDetector.constructor | ml_ddos_detector.py:30-61 | all maps and sets start empty, with the given threshold, window and buffer size (by default 0.8, 300 s and 100) |
| DDoSDetector.MLDDoSDetector.RecordRequest | ml_ddos_detector.py:107-152 | a blocked IP is refused with no state change. Otherwise: the request is stored; old data is cleaned; features are recomputed for a buffer of at least `min(5, features_window)` and 2 requests; the rule decides when the IP has features, more than 10 IPs do and the IP is not a false positive. Blocks only grow and never reach a false positive |
| DDoSDetector.MLDDoSDetector.RecordUnblocked | ml_ddos_detector.py:129-152 | the same outcome for an IP that is not blocked |
| DDoSDetector.MLDDoSDetector.StoreAndClean | ml_ddos_detector.py:129-142 | the timestamps are the appended list cleaned; the emptied IPs lose their buffers and features |
| DDoSDetector.MLDDoSDetector.Store | ml_ddos_detector.py:129-139 | the record goes to the IP's bounded buffer and its timestamp to the end of the IP's list |
| DDoSDetector.MLDDoSDetector.AnalyzeRecorded | ml_ddos_detector.py:144-152 | the buffer is read, creating it if absent; features are recomputed when it is large enough; the rule decides when the check applies |
| DDoSDetector.MLDDoSDetector.ExtractAndCheck | ml_ddos_detector.py:145-150 | features are recomputed for 2 or more requests, and the rule decides iff the IP has features, more than 10 IPs do and the IP is not a false positive |
| DDoSDetector.MLDDoSDetector.ExtractFeaturesForIp | ml_ddos_detector.py:154-216 | fewer than 2 requests leave the features unchanged; otherwise the IP's row is the feature row of its buffer |
| DDoSDetector.MLDDoSDetector.CleanOldData | ml_ddos_detector.py:218-244 | every tracked list loses its leading run of timestamps older than the cutoff; an IP left with none loses its timestamps, buffer and features; everything else is untouched |
| DDoSDetector.MLDDoSDetector.CleanIp | ml_ddos_detector.py:225-244 | the effect on one tracked IP: removal from all three maps when every timestamp is old, otherwise only its list is shortened |
| DDoSDetector.MLDDoSDetector.CheckAnomalyRealtime | ml_ddos_detector.py:246-285 | a false positive, fewer than 10 feature rows or an exception lead to allowed with no change. Otherwise the IP becomes suspicious iff the score exceeds the threshold, and it is blocked and refused iff the score also exceeds 1.5 times the threshold |
| DDoSDetector.MLDDoSDetector.BlockIp | ml_ddos_detector.py:287-300 | answers true iff the IP was not blocked; afterwards it is blocked, and nothing else changes |
| DDoSDetector.MLDDoSDetector.UnblockIp | ml_ddos_detector.py:302-325 | answers true iff the IP was blocked; afterwards it is not. The flag defaults to false. `false_positives` gains it only when it was blocked and the flag is set; no false positive becomes blocked |
| DDoSDetector.MLDDoSDetector.GetStatus | ml_ddos_detector.py:374-381 | the blocked, suspicious and false-positive sets, and the number of IPs with features |
| DDoSDetector.DDoSMLIntegrator.constructor | ml_ddos_detector.py:398-402 | a fresh detector with the given threshold (by default 0.8), the default window (300 s) and buffer size (100), and a zero request count |
| DDoSDetector.DDoSMLIntegrator.ProcessRequest | ml_ddos_detector.py:404-449 | the request count always rises by one. A request missing `ip`, `timestamp` or `bytes_sent` is allowed without touching the detector. Any other request gets the outcome of `record_request` with the defaults GET, "/" and 200; a refused request comes from a blocked IP |
| DDoSDetector.DDoSMLIntegrator.IsIpBlocked | ml_ddos_detector.py:451-453 | answers true iff the IP is in the detector's block list |
| DDoSDetector.DDoSMLIntegrator.UnblockIp | ml_ddos_detector.py:455-457 | the detector's `unblock_ip`, with the flag defaulting to false: answers true iff the IP was blocked; it leaves the block list; `false_positives` gains it only when it was blocked and the flag is set; only those two sets change, the invariant is kept, and no false positive becomes blocked |
| DDoSDetector.DDoSMLIntegrator.GetStatus | ml_ddos_detector.py:459-461 | the detector's status |

## Left out

- Floating point: the Java double statistics and score, and the Python anomaly score and threshold, are exact reals. The model does not capture rounding, NaN, or Java's division of an empty history, which no caller reaches.
- Time precision: every instant (Java `Instant`, Python `time.time()` seconds, each `now`) is an integer number of milliseconds. Sub-millisecond ordering is not modelled. This affects the strict window comparisons (`isBefore(cutoff)`, `timestamp < cutoff`) and the Python one-second bucket `int(ts)`, for instants less than a millisecond apart.
- The IsolationForest model and the StandardScaler (fitting, scaling, `score_samples`) are foreign library calls. Their result enters as the parameter `score`, with `None` for the exception path.
- The Python features `req_rate`, `bytes_rate` (with the 0.001 clamp), and the mean and standard deviation of intervals are float numerics. The feature row keeps only the integer counts behind the remaining features.
- Several Python parts are concurrency, timing or I/O and are not modelled:
  - the background thread `_periodic_analysis` (with its own 1.3 factor), `time.sleep` and `shutdown`;
  - `_load_state` / `_save_state` and all logging, including the periodic status log every 1000 requests in `process_request`;
  - the `reason` argument of `_block_ip`, which is only logged.
- Java's `ConcurrentHashMap`, `synchronizedList` and `AtomicInteger` are sequential maps, sequences and integers. Interleavings are not modelled.
- The clock: each Java call reads `Instant.now()` several times, and each Python call reads `time.time()`. The model uses one `now` per call.
- Integer widths: Java `int` counters (`totalPackets`, `AtomicInteger`) and millisecond arithmetic are unbounded integers. 32-bit overflow is not modelled.
- Aliasing: `Packet`, `Statistics` and the returned lists are values.
  - Java mutates the caller's `Packet` object in the blocked branch; the model lists a marked copy.
  - `getStatistics` returns the live `Statistics` object; the model returns a copy.
  - com/ddosmonitor/model/Packet.java is not part of this model; a packet is the record of the fields the service reads.
- The HTTP controllers (AuthController, PacketController), UserService, and the POJOs PacketData, Statistics and BlockedIP (getters and setters only) are not modelled. `Statistics` and `BlockedIP` appear as plain datatypes.
- The `__main__` traffic simulation is not modelled.
- DDoSDetector.MLDDoSDetector.ExtractAndCheck requires the IP to have a buffer. It is a split of `record_request`, which always creates the buffer before calling it; it is not an operation of the source.
- Other splits of source operations are proof structure, not separate operations of the source: RecordUnblocked, StoreAndClean, Store, AnalyzeRecorded, CleanIp, AcceptPacket and UpdateTracking.
- The Python buffer map is a `defaultdict`, so reading an absent IP creates an empty entry. The model reproduces this through `Touch` wherever the core reads the buffer.
