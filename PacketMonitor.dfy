/** The Java `PacketMonitorService`: the front door that consults the ML
    service, keeps per-IP packet lists and counters, a newest-first list of
    recent packets trimmed to 60 seconds, aggregate statistics, and its own
    block map (which nothing in the service ever inserts into; it is only
    swept).

    The concurrent collections of the source are sequential maps and
    sequences here; the current instant is the parameter `now`. */
module PacketMonitor {
  import opened Common
  import MLAnomaly

  const RecentWindowMillis: int := 60_000
  const MLBlockReason: string := "ML Anomaly Detection"

  /** The fields of the source's `Packet` model that the service touches. */
  datatype Packet = Packet(
    sourceIP: string,
    endpoint: string,
    responseTime: int,
    statusCode: int,
    timestamp: int,
    blocked: bool,
    blockReason: Option<string>)

  datatype Statistics = Statistics(totalPackets: int, uniqueIPs: int, blockedIPs: int)

  datatype BlockedIP = BlockedIP(ip: string, blockedUntil: int, reason: string)

  /** What `getIPStats` merges into its result map: the ML statistics when
      the ML service has any, and the packet and request counts when the IP
      has a packet list. */
  datatype IPStats = IPStats(ml: Option<MLAnomaly.IPStats>, packetCount: Option<nat>, requestCount: Option<int>)

  // ---------------------------------------------------------------------------
  // Specification functions

  /** `recentPackets.removeIf(p -> p.getTimestamp().isBefore(cutoff))` keeps the rest. */
  function KeepFrom(cutoff: int): Packet -> bool {
    (p: Packet) => !(p.timestamp < cutoff)
  }

  /** The block map after `removeIf(e -> e.getValue().isBefore(now))`. */
  function SweepExpired(blocks: map<string, int>, now: int): (r: map<string, int>)
    ensures forall ip :: ip in r <==> ip in blocks && blocks[ip] >= now
    ensures forall ip :: ip in r ==> r[ip] == blocks[ip]
    ensures |r| <= |blocks|
  {
    var r := map ip | ip in blocks && !(blocks[ip] < now) :: blocks[ip];
    assert r.Keys <= blocks.Keys;
    SubsetCardinality(r.Keys, blocks.Keys);
    r
  }

  lemma SubsetCardinality<T>(a: set<T>, b: set<T>)
    requires a <= b
    ensures |a| <= |b|
  {
    assert b == a + (b - a);
  }

  function PacketsOf(m: map<string, seq<Packet>>, ip: string): seq<Packet> {
    if ip in m then m[ip] else []
  }

  ghost function Pick(m: map<string, seq<Packet>>): string
    requires |m| > 0
  {
    var k :| k in m; k
  }

  /** The number of packets over all per-IP lists. */
  ghost function TotalLength(m: map<string, seq<Packet>>): nat
    decreases |m|
  {
    if |m| == 0 then 0 else |m[Pick(m)]| + TotalLength(m - {Pick(m)})
  }

  /** The total does not depend on the order in which keys are summed. */
  lemma {:induction false} TotalLengthRemove(m: map<string, seq<Packet>>, k: string)
    requires k in m
    ensures TotalLength(m) == |m[k]| + TotalLength(m - {k})
    decreases |m|
  {
    var j := Pick(m);
    if j != k {
      assert (m - {j}) - {k} == (m - {k}) - {j};
      TotalLengthRemove(m - {j}, k);
      TotalLengthRemove(m - {k}, j);
    }
  }

  /** Replacing one IP's list changes the total by the difference in length. */
  lemma TotalLengthUpdate(m: map<string, seq<Packet>>, k: string, s: seq<Packet>)
    ensures TotalLength(m[k := s]) + |PacketsOf(m, k)| == TotalLength(m) + |s|
  {
    TotalLengthRemove(m[k := s], k);
    RemoveUpdated(m, k, s);
    if k in m {
      TotalLengthRemove(m, k);
    } else {
      RemoveAbsent(m, k);
    }
  }

  lemma RemoveUpdated(m: map<string, seq<Packet>>, k: string, s: seq<Packet>)
    ensures m[k := s] - {k} == m - {k}
  {
  }

  lemma RemoveAbsent(m: map<string, seq<Packet>>, k: string)
    requires k !in m
    ensures m - {k} == m
  {
  }

  /** Every list of `m0` is still present in `m`, possibly longer. */
  ghost predicate Extends(m0: map<string, seq<Packet>>, m: map<string, seq<Packet>>) {
    forall ip :: ip in m0 ==> ip in m && m0[ip] <= m[ip]
  }

  lemma ExtendsItself(m: map<string, seq<Packet>>)
    ensures Extends(m, m)
  {
  }

  /** Appending a packet to its IP's list only extends the per-IP lists. */
  lemma AppendExtends(m: map<string, seq<Packet>>, packet: Packet)
    ensures Extends(m, m[packet.sourceIP := PacketsOf(m, packet.sourceIP) + [packet]])
  {
  }

  /** The per-IP counters and the statistics agree with the per-IP lists. */
  ghost predicate Tracked(packets: map<string, seq<Packet>>, counts: map<string, int>, stats: Statistics) {
    && packets.Keys == counts.Keys
    && (forall ip :: ip in packets ==> counts[ip] == |packets[ip]| > 0)
    && stats.totalPackets == TotalLength(packets)
    && stats.uniqueIPs == |packets|
  }

  /** Appending a packet to its IP's list and bumping that IP's counter and
      the total keeps the counters in agreement with the lists. */
  lemma TrackPacket(packets: map<string, seq<Packet>>, counts: map<string, int>, stats: Statistics,
                    packet: Packet, blocked: int)
    requires Tracked(packets, counts, stats)
    ensures
      var ip := packet.sourceIP;
      var packets' := packets[ip := PacketsOf(packets, ip) + [packet]];
      var counts' := counts[ip := |PacketsOf(packets, ip)| + 1];
      Tracked(packets', counts', Statistics(stats.totalPackets + 1, |packets'|, blocked))
  {
    TotalLengthUpdate(packets, packet.sourceIP, PacketsOf(packets, packet.sourceIP) + [packet]);
  }

  // ---------------------------------------------------------------------------
  // The service

  class PacketMonitorService {
    var ipPackets: map<string, seq<Packet>>
    var requestCounts: map<string, int>
    var blockedIPs: map<string, int>
    var recentPackets: seq<Packet>
    var statistics: Statistics
    const mlService: MLAnomaly.MLAnomalyDetectionService

    /** The counters agree with the lists they count. */
    ghost predicate Valid()
      reads this
    {
      Tracked(ipPackets, requestCounts, statistics)
    }

    constructor (ml: MLAnomaly.MLAnomalyDetectionService)
      ensures Valid()
      ensures mlService == ml
      ensures ipPackets == map[] && requestCounts == map[] && blockedIPs == map[] && recentPackets == []
      ensures statistics == Statistics(0, 0, 0)
    {
      ipPackets := map[];
      requestCounts := map[];
      blockedIPs := map[];
      recentPackets := [];
      statistics := Statistics(0, 0, 0);
      mlService := ml;
    }

    /** Records one packet. A packet from an IP the ML service holds blocked is
        marked and listed as recent, and nothing else changes; any other
        packet is passed to the ML service, counted for its IP and in the
        statistics, listed as recent, and the old data is cleaned up. */
    method RecordPacket(packet: Packet, now: int)
      requires Valid()
      modifies this, mlService
      ensures Valid()
      ensures MLAnomaly.BlockedAt(old(mlService.blockedIPs), packet.sourceIP, now) ==>
        && recentPackets == [packet.(blocked := true, blockReason := Some(MLBlockReason))] + old(recentPackets)
        && ipPackets == old(ipPackets) && requestCounts == old(requestCounts)
        && statistics == old(statistics) && blockedIPs == old(blockedIPs)
        && mlService.ipRequestHistory == old(mlService.ipRequestHistory)
        && mlService.blockedIPs == old(mlService.blockedIPs)
      ensures !MLAnomaly.BlockedAt(old(mlService.blockedIPs), packet.sourceIP, now) ==>
        var ip := packet.sourceIP;
        var h := MLAnomaly.RecordedHistory(old(mlService.ipRequestHistory), ip, packet.endpoint,
                                           packet.responseTime, packet.statusCode, now);
        && ipPackets == old(ipPackets)[ip := PacketsOf(old(ipPackets), ip) + [packet]]
        && requestCounts == old(requestCounts)[ip := |PacketsOf(old(ipPackets), ip)| + 1]
        && statistics == Statistics(old(statistics.totalPackets) + 1, |ipPackets|, |old(blockedIPs)|)
        && recentPackets == Filter([packet] + old(recentPackets), KeepFrom(now - RecentWindowMillis))
        && blockedIPs == SweepExpired(old(blockedIPs), now)
        && mlService.ipRequestHistory == old(mlService.ipRequestHistory)[ip := h]
        && mlService.blockedIPs == MLAnomaly.BlocksAfterAnalysis(
             MLAnomaly.AfterLookup(old(mlService.blockedIPs), ip, now), ip, h, now)
      ensures Extends(old(ipPackets), ipPackets)
      ensures statistics.totalPackets >= old(statistics.totalPackets)
      ensures |blockedIPs| <= |old(blockedIPs)|
    {
      var ip := packet.sourceIP;
      var mlBlocked := mlService.IsIPBlocked(ip, now);
      if mlBlocked {
        recentPackets := [packet.(blocked := true, blockReason := Some(MLBlockReason))] + recentPackets;
        ExtendsItself(ipPackets);
        return;
      }
      MLAnomaly.AfterLookupIdempotent(old(mlService.blockedIPs), ip, now);
      AcceptPacket(packet, now);
    }

    /** The packet of an IP the ML service does not hold blocked: the ML
        service records it, it is tracked, and old data is cleaned up. */
    method AcceptPacket(packet: Packet, now: int)
      requires Valid() && !MLAnomaly.BlockedAt(mlService.blockedIPs, packet.sourceIP, now)
      modifies this`ipPackets, this`requestCounts, this`recentPackets, this`statistics, this`blockedIPs
      modifies mlService
      ensures Valid()
      ensures
        var ip := packet.sourceIP;
        var h := MLAnomaly.RecordedHistory(old(mlService.ipRequestHistory), ip, packet.endpoint,
                                           packet.responseTime, packet.statusCode, now);
        && ipPackets == old(ipPackets)[ip := PacketsOf(old(ipPackets), ip) + [packet]]
        && requestCounts == old(requestCounts)[ip := |PacketsOf(old(ipPackets), ip)| + 1]
        && statistics == Statistics(old(statistics.totalPackets) + 1, |ipPackets|, |old(blockedIPs)|)
        && recentPackets == Filter([packet] + old(recentPackets), KeepFrom(now - RecentWindowMillis))
        && blockedIPs == SweepExpired(old(blockedIPs), now)
        && mlService.ipRequestHistory == old(mlService.ipRequestHistory)[ip := h]
        && mlService.blockedIPs == MLAnomaly.BlocksAfterAnalysis(
             MLAnomaly.AfterLookup(old(mlService.blockedIPs), ip, now), ip, h, now)
      ensures Extends(old(ipPackets), ipPackets)
    {
      mlService.RecordRequest(packet.sourceIP, packet.endpoint, packet.responseTime, packet.statusCode, now);
      UpdateTracking(packet);
      CleanupOldData(now);
      AppendExtends(old(ipPackets), packet);
    }

    /** The bookkeeping of a packet that was let through: its IP's list and
        counter, the recent list (newest first) and the statistics. */
    method UpdateTracking(packet: Packet)
      requires Valid()
      modifies this`ipPackets, this`requestCounts, this`recentPackets, this`statistics
      ensures Valid()
      ensures
        var ip := packet.sourceIP;
        && ipPackets == old(ipPackets)[ip := PacketsOf(old(ipPackets), ip) + [packet]]
        && requestCounts == old(requestCounts)[ip := |PacketsOf(old(ipPackets), ip)| + 1]
        && recentPackets == [packet] + old(recentPackets)
        && statistics == Statistics(old(statistics.totalPackets) + 1, |ipPackets|, |blockedIPs|)
    {
      var ip := packet.sourceIP;
      TrackPacket(ipPackets, requestCounts, statistics, packet, |blockedIPs|);
      var count := if ip in requestCounts then requestCounts[ip] else 0;
      ipPackets := ipPackets[ip := PacketsOf(ipPackets, ip) + [packet]];
      requestCounts := requestCounts[ip := count + 1];
      recentPackets := [packet] + recentPackets;

      statistics := statistics.(totalPackets := statistics.totalPackets + 1);
      statistics := statistics.(uniqueIPs := |ipPackets|);
      statistics := statistics.(blockedIPs := |blockedIPs|);
    }

    /** Drops recent packets older than 60 seconds and block entries that
        expired before `now`, keeping the order of what remains. */
    method CleanupOldData(now: int)
      modifies this`recentPackets, this`blockedIPs
      ensures recentPackets == Filter(old(recentPackets), KeepFrom(now - RecentWindowMillis))
      ensures blockedIPs == SweepExpired(old(blockedIPs), now)
    {
      var cutoff := now - RecentWindowMillis;
      recentPackets := Filter(recentPackets, KeepFrom(cutoff));
      blockedIPs := SweepExpired(blockedIPs, now);
    }

    /** A copy of the recent packets, newest first. */
    method GetRecentPackets() returns (packets: seq<Packet>)
      ensures packets == recentPackets
    {
      packets := recentPackets;
    }

    /** The aggregate statistics: the total is the number of packets held
        per IP, and the unique count the number of IPs that sent one. */
    method GetStatistics() returns (stats: Statistics)
      requires Valid()
      ensures stats.totalPackets == TotalLength(ipPackets)
      ensures stats.uniqueIPs == |ipPackets| == |requestCounts|
      ensures stats.blockedIPs == statistics.blockedIPs
    {
      stats := statistics;
      assert ipPackets.Keys == requestCounts.Keys;
    }

    /** The ML statistics of `ip` merged with its packet and request counts. */
    method GetIPStats(ip: string, now: int) returns (stats: IPStats)
      requires Valid()
      modifies mlService`blockedIPs
      ensures MLAnomaly.StatsReported(mlService.ipRequestHistory, old(mlService.blockedIPs), mlService.blockedIPs,
                                      ip, now, stats.ml)
      ensures stats.packetCount.Some? <==> ip in ipPackets
      ensures stats.requestCount.Some? <==> ip in ipPackets
      ensures ip in ipPackets ==> stats.packetCount.value == |ipPackets[ip]| && stats.requestCount == Some(stats.packetCount.value)
    {
      var mlStats := mlService.GetIPStats(ip, now);
      var packetCount := None;
      var requestCount := None;
      if ip in ipPackets {
        packetCount := Some(|ipPackets[ip]|);
        requestCount := Some(if ip in requestCounts then requestCounts[ip] else 0);
      }
      stats := IPStats(mlStats, packetCount, requestCount);
    }

    /** One entry per block-map entry, each with the ML reason. */
    method GetBlockedIPs() returns (list: seq<BlockedIP>)
      ensures |list| == |blockedIPs|
      ensures forall i :: 0 <= i < |list| ==>
        list[i].ip in blockedIPs && list[i].blockedUntil == blockedIPs[list[i].ip] && list[i].reason == MLBlockReason
      ensures forall i, j :: 0 <= i < j < |list| ==> list[i].ip != list[j].ip
      ensures forall ip :: ip in blockedIPs ==> exists i :: 0 <= i < |list| && list[i].ip == ip
    {
      var blocks := blockedIPs;
      list := [];
      var remaining := blocks.Keys;
      ghost var done: set<string> := {};
      while remaining != {}
        invariant done !! remaining && done + remaining == blocks.Keys
        invariant ListsEntries(list, blocks, done)
        decreases |remaining|
      {
        var ip :| ip in remaining;
        ListsEntriesStep(list, blocks, done, ip);
        MoveOne(done, remaining, blocks.Keys, ip);
        list := list + [BlockedIP(ip, blocks[ip], MLBlockReason)];
        remaining := remaining - {ip};
        done := done + {ip};
      }
      MovedAll(done, remaining, blocks.Keys);
    }
  }

  /** `list` holds one `BlockedIP` for each key in `done`, taken from `blocks`. */
  ghost predicate ListsEntries(list: seq<BlockedIP>, blocks: map<string, int>, done: set<string>) {
    && |list| == |done|
    && (forall i :: 0 <= i < |list| ==>
          list[i].ip in done && list[i].ip in blocks
          && list[i].blockedUntil == blocks[list[i].ip] && list[i].reason == MLBlockReason)
    && (forall i, j :: 0 <= i < j < |list| ==> list[i].ip != list[j].ip)
    && (forall ip :: ip in done ==> exists i :: 0 <= i < |list| && list[i].ip == ip)
  }

  /** Moving `x` from `todo` to `done` keeps the two a partition of `all`. */
  lemma MoveOne(done: set<string>, todo: set<string>, all: set<string>, x: string)
    requires done !! todo && done + todo == all && x in todo
    ensures (done + {x}) !! (todo - {x}) && (done + {x}) + (todo - {x}) == all
  {
  }

  lemma MovedAll(done: set<string>, todo: set<string>, all: set<string>)
    requires done + todo == all && todo == {}
    ensures done == all
  {
  }

  lemma ListsEntriesStep(list: seq<BlockedIP>, blocks: map<string, int>, done: set<string>, ip: string)
    requires ListsEntries(list, blocks, done)
    requires ip in blocks && ip !in done
    ensures ListsEntries(list + [BlockedIP(ip, blocks[ip], MLBlockReason)], blocks, done + {ip})
  {
    var entry := BlockedIP(ip, blocks[ip], MLBlockReason);
    var list' := list + [entry];
    forall i | 0 <= i < |list'|
      ensures list'[i].ip in done + {ip} && list'[i].ip in blocks
      ensures list'[i].blockedUntil == blocks[list'[i].ip] && list'[i].reason == MLBlockReason
    {
      if i < |list| {
        assert list'[i] == list[i];
      }
    }
    forall i, j | 0 <= i < j < |list'|
      ensures list'[i].ip != list'[j].ip
    {
      assert list'[i] == list[i];
      if j < |list| {
        assert list'[j] == list[j];
      } else {
        assert list[i].ip in done;
      }
    }
    forall k | k in done + {ip}
      ensures exists i :: 0 <= i < |list'| && list'[i].ip == k
    {
      if k == ip {
        assert list'[|list|].ip == k;
      } else {
        var i :| 0 <= i < |list| && list[i].ip == k;
        assert list'[i].ip == k;
      }
    }
  }
}
