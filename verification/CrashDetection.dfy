/** The crash detector object, whose incremental counters always equal a recount of its log. */
module CrashDetection {
  import opened Bytes
  import opened Wrappers
  import opened Histograms
  import opened CrashLog

  class CrashDetector {
    /** The hasher and the lower-casing: arbitrary functions, with no injectivity assumed. */
    const hash: seq<Byte> -> string
    const toLower: string -> string

    var crashes: seq<CrashInfo>
    var crashHashes: set<string>
    var protocolStats: map<ProtocolType, Stats>
    var lastCrashCount: nat

    /** Every call of RecordCrash so far, and how many there were at the last CrashCount. */
    ghost var reports: seq<Report>
    ghost var counted: nat

    function Lower(message: Option<string>): Option<string> {
      if message.Some? then Some(toLower(message.value)) else None
    }

    function InfoOf(r: Report): CrashInfo {
      var t := Classify(Lower(r.errorMessage), r.timeMs);
      CrashInfo(r, hash(r.input), t, Severity(t, Lower(r.errorMessage), |r.input|))
    }

    function Infos(rs: seq<Report>): (infos: seq<CrashInfo>)
      ensures |infos| == |rs|
      ensures forall i :: 0 <= i < |rs| ==> infos[i] == InfoOf(rs[i])
    {
      if rs == [] then [] else Infos(rs[..|rs| - 1]) + [InfoOf(rs[|rs| - 1])]
    }

    /** There are statistics for exactly the protocols with crashes in the log, and they are a recount of it. */
    ghost predicate StatsMatch(stats: map<ProtocolType, Stats>, crashes: seq<CrashInfo>) {
      && (forall p :: p in stats <==> Of(crashes, p) != [])
      && (forall p :: p in stats ==> stats[p] == Recount(crashes, p))
    }

    ghost predicate Valid()
      reads this
    {
      && crashes == Infos(FirstReports(hash, reports))
      && crashHashes == Hashes(hash, reports)
      && StatsMatch(protocolStats, crashes)
      && counted <= |reports| && lastCrashCount == |FirstReports(hash, reports[..counted])|
    }

    constructor (hash: seq<Byte> -> string, toLower: string -> string)
      ensures Valid() && reports == []
      ensures this.hash == hash && this.toLower == toLower
    {
      this.hash, this.toLower := hash, toLower;
      crashes, crashHashes, protocolStats, lastCrashCount := [], {}, map[], 0;
      reports, counted := [], 0;
    }

    /** A crash is logged and counted exactly when no report before it had the hash of its input. */
    method RecordCrash(r: Report)
      requires Valid()
      modifies this
      ensures Valid()
      ensures reports == old(reports) + [r] && counted == old(counted) && lastCrashCount == old(lastCrashCount)
      ensures crashes == if Seen(hash, old(reports), r) then old(crashes) else old(crashes) + [InfoOf(r)]
      ensures crashes != old(crashes) ==>
                var crash := crashes[|crashes| - 1];
                var lower := if r.errorMessage.Some? then Some(toLower(r.errorMessage.value)) else None;
                && crash.report == r && crash.inputHash == hash(r.input)
                && crash.crashType == Classify(lower, r.timeMs)
                && crash.severity == Severity(crash.crashType, lower, |r.input|)
    {
      hide StatsMatch, WithOneMore, Hashes, FirstReports, Infos, Seen, Classify, Severity;
      var inputHash := hash(r.input);
      ReportStep(reports, r);
      assert (reports + [r])[..counted] == reports[..counted];
      if inputHash in crashHashes {
        reports := reports + [r];
        return;
      }
      var crashType := Classify(Lower(r.errorMessage), r.timeMs);
      var severity := Severity(crashType, Lower(r.errorMessage), |r.input|);
      var crash := CrashInfo(r, inputHash, crashType, severity);
      StatsMatchStep(protocolStats, crashes, crash);
      crashes := crashes + [crash];
      crashHashes := crashHashes + {inputHash};
      UpdateStats(r.protocol, crash);
      reports := reports + [r];
    }

    /** The bookkeeping at the end of `record_crash`. */
    method UpdateStats(protocol: ProtocolType, crash: CrashInfo)
      modifies this`protocolStats
      ensures protocolStats == old(protocolStats)[protocol := WithOneMore(old(StatsOf(protocol)), |crashHashes|, crash)]
    {
      var stats := if protocol in protocolStats then protocolStats[protocol] else NO_STATS;
      stats := stats.(totalCrashes := stats.totalCrashes + 1);
      stats := stats.(uniqueCrashes := |crashHashes|);
      stats := stats.(crashTypes := Bump(stats.crashTypes, crash.crashType));
      stats := stats.(severityCounts := Bump(stats.severityCounts, crash.severity));
      protocolStats := protocolStats[protocol := stats];
    }

    /** What one more report does to the list of first reports and to the set of hashes. */
    lemma ReportStep(reports: seq<Report>, r: Report)
      ensures var first := FirstReports(hash, reports);
              && FirstReports(hash, reports + [r]) == (if Seen(hash, reports, r) then first else first + [r])
              && Infos(first + [r]) == Infos(first) + [InfoOf(r)]
              && Hashes(hash, reports + [r]) == Hashes(hash, reports) + {hash(r.input)}
              && (hash(r.input) in Hashes(hash, reports) <==> Seen(hash, reports, r))
              && (!Seen(hash, reports, r) ==> |Hashes(hash, reports + [r])| == |first| + 1)
    {
      assert (reports + [r])[..|reports|] == reports;
      HashesSnoc(hash, reports, r);
      HashesOfFirst(hash, reports);
    }

    lemma StatsStep(crashes: seq<CrashInfo>, c: CrashInfo)
      ensures forall p :: Of(crashes + [c], p) != [] <==> Of(crashes, p) != [] || p == c.report.protocol
      ensures forall p :: p != c.report.protocol ==> Recount(crashes + [c], p) == Recount(crashes, p)
      ensures Recount(crashes + [c], c.report.protocol)
           == WithOneMore(Recount(crashes, c.report.protocol), |crashes| + 1, c)
    {
      hide Recount;
      forall p
        ensures Of(crashes + [c], p) != [] <==> Of(crashes, p) != [] || p == c.report.protocol
        ensures p != c.report.protocol ==> Recount(crashes + [c], p) == Recount(crashes, p)
      {
        OfSnoc(crashes, c, p);
        RecountSnoc(crashes, c, p);
      }
      RecountSnoc(crashes, c, c.report.protocol);
    }

    lemma StatsMatchStep(stats: map<ProtocolType, Stats>, crashes: seq<CrashInfo>, c: CrashInfo)
      requires StatsMatch(stats, crashes)
      ensures var p := c.report.protocol;
              var was := if p in stats then stats[p] else NO_STATS;
              StatsMatch(stats[p := WithOneMore(was, |crashes| + 1, c)], crashes + [c])
    {
      hide Recount, Of, LastIndex;
      StatsStep(crashes, c);
      NoStatsYet(crashes, c.report.protocol);
    }

    /** A protocol without crashes counts like one without statistics. */
    lemma NoStatsYet(crashes: seq<CrashInfo>, p: ProtocolType)
      ensures Of(crashes, p) == [] ==> Recount(crashes, p) == NO_STATS.(uniqueCrashes := LastIndex(crashes, p))
    {
    }

    method HasNewCrashes() returns (b: bool)
      requires Valid()
      ensures b <==> LaterFirst(hash, reports, counted)
    {
      MoreFirstReports(hash, reports, counted);
      b := |crashes| > lastCrashCount;
    }

    /** The number of distinct hashes among the reports; it also marks all of them as counted. */
    method CrashCount() returns (count: nat)
      requires Valid()
      modifies this`lastCrashCount, this`counted
      ensures Valid() && counted == |reports|
      ensures count == |Hashes(hash, reports)| == |crashes|
    {
      hide StatsMatch, Hashes, FirstReports;
      HashesOfFirst(hash, reports);
      assert reports[..|reports|] == reports;
      lastCrashCount, counted := |crashes|, |reports|;
      count := |crashes|;
    }

    function StatsOf(p: ProtocolType): Stats
      reads this
    {
      if p in protocolStats then protocolStats[p] else NO_STATS
    }

    method GetHighSeverityCrashes() returns (high: seq<CrashInfo>)
      ensures high == HighSeverity(crashes)
    {
      high := [];
      for i := 0 to |crashes|
        invariant high == HighSeverity(crashes[..i])
      {
        assert crashes[..i + 1][..i] == crashes[..i];
        if Rank(crashes[i].severity) >= Rank(High) {
          high := high + [crashes[i]];
        }
      }
      assert crashes[..|crashes|] == crashes;
    }

    /** The counting loop of the summary, which starts from empty maps. */
    method Breakdowns() returns (
      severities: map<CrashSeverity, nat>, types: map<CrashType, nat>, protocols: map<ProtocolType, nat>)
      ensures severities == Histogram(Severities(crashes)) && types == Histogram(Types(crashes))
      ensures protocols == Histogram(Protocols(crashes))
    {
      severities, types, protocols := map[], map[], map[];
      var log := crashes;
      assert Histogram(Severities([])) == map[] && Histogram(Types([])) == map[] && Histogram(Protocols([])) == map[];
      hide Types, Severities, Protocols, Histogram, Bump;
      for i := 0 to |log|
        invariant severities == Histogram(Severities(log[..i]))
        invariant types == Histogram(Types(log[..i]))
        invariant protocols == Histogram(Protocols(log[..i]))
      {
        var crash := log[i];
        assert log[..i + 1] == log[..i] + [crash];
        BreakdownsSnoc(log[..i], crash);
        severities := Bump(severities, crash.severity);
        types := Bump(types, crash.crashType);
        protocols := Bump(protocols, crash.report.protocol);
      }
      assert log[..|log|] == log;
    }

    method GenerateCrashSummary() returns (s: Summary)
      requires Valid()
      ensures s.totalCrashes == s.uniqueCrashes == |Hashes(hash, reports)|
      ensures s.severities == Histogram(Severities(crashes)) && s.types == Histogram(Types(crashes))
      ensures s.protocols == Histogram(Protocols(crashes))
      ensures s.highSeverity == CountIn(s.severities, High) + CountIn(s.severities, Critical)
    {
      HashesOfFirst(hash, reports);
      HighSeverityCount(crashes);
      HistogramCounts(Severities(crashes), High);
      HistogramCounts(Severities(crashes), Critical);
      hide Histogram, Hashes, FirstReports, Recount, Of, Severities, Types, Protocols;
      var severities, types, protocols := Breakdowns();
      var high := GetHighSeverityCrashes();
      s := Summary(|crashes|, |crashHashes|, severities, types, protocols, |high|);
    }

    /** If only one protocol ever reports, as in a campaign, its unique crashes are its crashes and all there are. */
    lemma OwnCrashesOnly(p: ProtocolType)
      requires Valid() && forall i :: 0 <= i < |reports| ==> reports[i].protocol == p
      ensures StatsOf(p).uniqueCrashes == StatsOf(p).totalCrashes == |crashes| == |Hashes(hash, reports)|
      ensures forall q :: q != p ==> StatsOf(q) == NO_STATS
    {
      hide Recount, Hashes, FirstReports, Classify, Severity, LastIndex, Of;
      HashesOfFirst(hash, reports);
      var first := FirstReports(hash, reports);
      forall i | 0 <= i < |crashes|
        ensures crashes[i].report.protocol == p
      {
        assert first[i] in first && first[i] in reports && crashes[i] == InfoOf(first[i]);
      }
      OnlyOwn(crashes, p);
      NoStatsYet(crashes, p);
      forall q | q != p
        ensures Of(crashes, q) == []
      {
        NoneOther(crashes, p, q);
      }
    }

    /** The counts of the summary are the sums of the counters kept for the protocols. */
    lemma SummaryIsSumOfStats(t: CrashType, s: CrashSeverity)
      requires Valid()
      ensures CountIn(Histogram(Types(crashes)), t)
           == CountIn(StatsOf(DNS).crashTypes, t) + CountIn(StatsOf(MQTT).crashTypes, t)
      ensures CountIn(Histogram(Severities(crashes)), s)
           == CountIn(StatsOf(DNS).severityCounts, s) + CountIn(StatsOf(MQTT).severityCounts, s)
      ensures |crashes| == StatsOf(DNS).totalCrashes + StatsOf(MQTT).totalCrashes
    {
      BreakdownsAddUp(crashes, t, s);
      NoStatsYet(crashes, DNS);
      NoStatsYet(crashes, MQTT);
      hide Recount, Histogram, Of, LastIndex, Hashes, FirstReports, Infos;
    }
  }
}
