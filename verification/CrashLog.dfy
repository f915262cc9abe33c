/** The crash log: deduplicated by input hash, classified, and counted as it grows. */
module CrashLog {
  import opened Bytes
  import opened Wrappers
  import opened Execution
  import opened Histograms

  datatype ProtocolType = DNS | MQTT

  datatype CrashType =
    | ConnectionRefused | ConnectionTimeout | ExecutionTimeout | NetworkError
    | ProtocolViolation | MalformedResponse | ServerCrash | Unknown

  datatype CrashSeverity = Low | Medium | High | Critical

  /** The order derived for `CrashSeverity`. */
  function Rank(s: CrashSeverity): nat {
    match s
    case Low => 0
    case Medium => 1
    case High => 2
    case Critical => 3
  }

  /** One call of `record_crash`, with the identifier and the time that are drawn while it runs. */
  datatype Report = Report(
    input: seq<Byte>, errorMessage: Option<string>, timeMs: nat, protocol: ProtocolType, id: string, timestamp: nat)

  datatype CrashInfo = CrashInfo(report: Report, inputHash: string, crashType: CrashType, severity: CrashSeverity)

  datatype Stats = Stats(
    totalCrashes: nat, uniqueCrashes: nat, crashTypes: map<CrashType, nat>, severityCounts: map<CrashSeverity, nat>)

  const NO_STATS: Stats := Stats(0, 0, map[], map[])

  // ---------------------------------------------------------------- classification

  /** `classify_crash` on a message already in lower case. */
  function Classify(lower: Option<string>, timeMs: nat): CrashType {
    match lower
    case Some(error) =>
      if Contains(error, "connection refused") || Contains(error, "connection reset") then ConnectionRefused
      else if Contains(error, "connection timeout") || Contains(error, "connection timed out") then ConnectionTimeout
      else if Contains(error, "network") || Contains(error, "socket") then NetworkError
      else if Contains(error, "protocol") || Contains(error, "invalid") then ProtocolViolation
      else if Contains(error, "malformed") || Contains(error, "parse") then MalformedResponse
      else Unknown
    case None => if timeMs > 5000 then ExecutionTimeout else ServerCrash
  }

  /** Exactly which messages and times lead to which type of crash; earlier words take precedence. */
  lemma TypesOfCrashes(lower: Option<string>, timeMs: nat)
    ensures var t := Classify(lower, timeMs);
            if lower.None? then t == if timeMs > 5000 then ExecutionTimeout else ServerCrash
            else
              var m := lower.value;
              var refused := Contains(m, "connection refused") || Contains(m, "connection reset");
              var timeout := Contains(m, "connection timeout") || Contains(m, "connection timed out");
              var network := Contains(m, "network") || Contains(m, "socket");
              var violation := Contains(m, "protocol") || Contains(m, "invalid");
              var malformed := Contains(m, "malformed") || Contains(m, "parse");
              && (t == ConnectionRefused <==> refused)
              && (t == ConnectionTimeout <==> !refused && timeout)
              && (t == NetworkError <==> !refused && !timeout && network)
              && (t == ProtocolViolation <==> !refused && !timeout && !network && violation)
              && (t == MalformedResponse <==> !refused && !timeout && !network && !violation && malformed)
              && (t == Unknown <==> !refused && !timeout && !network && !violation && !malformed)
  {
    hide Contains;
  }

  /** The types without a message never occur in a campaign, because a failing execution always has one. */
  lemma CampaignTypes(toLower: string -> string, r: ExecutionResult)
    requires (OverTcp(r) || OverUdp(r)) && !r.success
    ensures var t := Classify(if r.errorMessage.Some? then Some(toLower(r.errorMessage.value)) else None,
                              r.executionTimeMs);
            !t.ExecutionTimeout? && !t.ServerCrash?
  {
    ExecutedShape(r);
    hide Contains;
  }

  predicate MemoryRelated(error: string) {
    Contains(error, "security") || Contains(error, "overflow") || Contains(error, "memory")
  }

  function Severity(crashType: CrashType, lower: Option<string>, inputLength: nat): CrashSeverity {
    match crashType
    case ServerCrash => if inputLength > 10000 then Critical else High
    case MalformedResponse => High
    case ProtocolViolation => if lower.Some? && MemoryRelated(lower.value) then Critical else Medium
    case ConnectionTimeout => Medium
    case ExecutionTimeout => Medium
    case NetworkError => Medium
    case ConnectionRefused => Low
    case Unknown => if inputLength > 50000 then High else Medium
  }

  /**
   * The severity of a crash as it is recorded, from its message, time and size alone: which crashes are critical,
   * and which are at least high. The fallback for a protocol violation without a message is never taken.
   */
  lemma SeverityOfRecorded(lower: Option<string>, timeMs: nat, inputLength: nat)
    ensures var t := Classify(lower, timeMs); var s := Severity(t, lower, inputLength);
            && (t.ProtocolViolation? ==> lower.Some?)
            && (lower.None? ==> (s.Critical? <==> timeMs <= 5000 && inputLength > 10000)
                                && (Rank(s) >= Rank(High) <==> timeMs <= 5000))
            && (lower.Some? ==> (s.Critical? <==>
                                    t.ProtocolViolation? && (Contains(lower.value, "security")
                                                             || Contains(lower.value, "overflow")
                                                             || Contains(lower.value, "memory")))
                                && (Rank(s) >= Rank(High) <==>
                                    s.Critical? || t.MalformedResponse? || (t.Unknown? && inputLength > 50000)))
            && (s.Low? <==> t.ConnectionRefused?)
  {
    hide Contains;
  }

  // ---------------------------------------------------------------- first occurrences

  /** The reports whose hash no earlier report has, in order. */
  function FirstReports(hash: seq<Byte> -> string, reports: seq<Report>): (first: seq<Report>)
    ensures forall r :: r in first ==> r in reports
  {
    if reports == [] then []
    else
      var front, last := reports[..|reports| - 1], reports[|reports| - 1];
      var known := FirstReports(hash, front);
      if Seen(hash, front, last) then known else known + [last]
  }

  function Hashes(hash: seq<Byte> -> string, reports: seq<Report>): set<string> {
    set r | r in reports :: hash(r.input)
  }

  predicate Seen(hash: seq<Byte> -> string, reports: seq<Report>, r: Report) {
    hash(r.input) in Hashes(hash, reports)
  }

  ghost predicate IsFirst(hash: seq<Byte> -> string, reports: seq<Report>, i: nat)
    requires i < |reports|
  {
    forall j :: 0 <= j < i ==> hash(reports[j].input) != hash(reports[i].input)
  }

  lemma SeenIsNotFirst(hash: seq<Byte> -> string, reports: seq<Report>, r: Report)
    ensures Seen(hash, reports, r) <==> !IsFirst(hash, reports + [r], |reports|)
  {
    var longer := reports + [r];
    if Seen(hash, reports, r) {
      var q :| q in reports && hash(q.input) == hash(r.input);
      var i :| 0 <= i < |reports| && reports[i] == q;
      assert longer[i] == q;
    }
    assert forall i :: 0 <= i < |reports| ==> longer[i] == reports[i] && longer[i] in reports;
  }

  /**
   * FirstReports is the order-preserving subsequence of first occurrences: `at` lists, in increasing order, exactly
   * the indices of the reports that are the first with their hash.
   */
  lemma {:induction false} FirstReportsAreFirst(hash: seq<Byte> -> string, reports: seq<Report>) returns (at: seq<nat>)
    ensures |at| == |FirstReports(hash, reports)|
    ensures forall k :: 0 <= k < |at| ==> at[k] < |reports| && reports[at[k]] == FirstReports(hash, reports)[k]
    ensures forall k, l :: 0 <= k < l < |at| ==> at[k] < at[l]
    ensures forall i :: 0 <= i < |reports| ==> (i in at <==> IsFirst(hash, reports, i))
  {
    at := [];
    if reports != [] {
      var n := |reports| - 1;
      var front, last := reports[..n], reports[n];
      at := FirstReportsAreFirst(hash, front);
      assert forall i :: 0 <= i < n ==> (IsFirst(hash, front, i) <==> IsFirst(hash, reports, i));
      assert reports == front + [last];
      SeenIsNotFirst(hash, front, last);
      if !Seen(hash, front, last) {
        at := at + [n];
      }
    }
  }

  lemma HashesSnoc(hash: seq<Byte> -> string, reports: seq<Report>, r: Report)
    ensures Hashes(hash, reports + [r]) == Hashes(hash, reports) + {hash(r.input)}
  {
    assert forall q :: q in reports + [r] <==> q in reports || q == r;
  }

  /** The hashes of all reports are those of the first reports, which are all different. */
  lemma {:induction false} HashesOfFirst(hash: seq<Byte> -> string, reports: seq<Report>)
    ensures Hashes(hash, FirstReports(hash, reports)) == Hashes(hash, reports)
    ensures |Hashes(hash, reports)| == |FirstReports(hash, reports)|
  {
    if reports != [] {
      var front, last := reports[..|reports| - 1], reports[|reports| - 1];
      HashesOfFirst(hash, front);
      assert reports == front + [last];
      HashesSnoc(hash, front, last);
      HashesSnoc(hash, FirstReports(hash, front), last);
      hide Hashes;
    }
  }

  /** Some report from number `n` on is the first with its hash. */
  ghost predicate LaterFirst(hash: seq<Byte> -> string, reports: seq<Report>, n: nat) {
    exists i :: n <= i < |reports| && IsFirst(hash, reports, i)
  }

  lemma LaterFirstSnoc(hash: seq<Byte> -> string, front: seq<Report>, last: Report, n: nat)
    requires n <= |front|
    ensures LaterFirst(hash, front + [last], n) <==> LaterFirst(hash, front, n) || !Seen(hash, front, last)
  {
    SeenIsNotFirst(hash, front, last);
    hide Seen;
    var longer := front + [last];
    assert forall j :: 0 <= j < |front| ==> longer[j] == front[j];
    forall i: nat | i < |front|
      ensures IsFirst(hash, front, i) <==> IsFirst(hash, longer, i)
    {
      if !IsFirst(hash, front, i) {
        var j :| 0 <= j < i && hash(front[j].input) == hash(front[i].input);
        assert longer[j] == front[j];
      }
    }
  }

  /** There are more first reports than there were after `n` reports exactly when a later report is a first. */
  lemma {:induction false} MoreFirstReports(hash: seq<Byte> -> string, reports: seq<Report>, n: nat)
    requires n <= |reports|
    ensures |FirstReports(hash, reports[..n])| <= |FirstReports(hash, reports)|
    ensures |FirstReports(hash, reports[..n])| < |FirstReports(hash, reports)| <==> LaterFirst(hash, reports, n)
  {
    hide Seen;
    if n == |reports| {
      assert reports[..n] == reports;
    } else {
      var front, last := reports[..|reports| - 1], reports[|reports| - 1];
      MoreFirstReports(hash, front, n);
      assert front[..n] == reports[..n] && reports == front + [last];
      LaterFirstSnoc(hash, front, last, n);
      hide LaterFirst;
    }
  }

  // ---------------------------------------------------------------- recounting

  function Of(crashes: seq<CrashInfo>, p: ProtocolType): seq<CrashInfo> {
    if crashes == [] then []
    else
      var front, last := crashes[..|crashes| - 1], crashes[|crashes| - 1];
      Of(front, p) + if last.report.protocol == p then [last] else []
  }

  function Types(crashes: seq<CrashInfo>): seq<CrashType> {
    if crashes == [] then [] else Types(crashes[..|crashes| - 1]) + [crashes[|crashes| - 1].crashType]
  }

  function Severities(crashes: seq<CrashInfo>): (s: seq<CrashSeverity>)
    ensures |s| == |crashes|
  {
    if crashes == [] then [] else Severities(crashes[..|crashes| - 1]) + [crashes[|crashes| - 1].severity]
  }

  function Protocols(crashes: seq<CrashInfo>): seq<ProtocolType> {
    if crashes == [] then [] else Protocols(crashes[..|crashes| - 1]) + [crashes[|crashes| - 1].report.protocol]
  }

  /** One more than the index of the protocol's last crash in the whole log. */
  function LastIndex(crashes: seq<CrashInfo>, p: ProtocolType): (n: nat)
    ensures n <= |crashes|
  {
    if crashes == [] then 0
    else if crashes[|crashes| - 1].report.protocol == p then |crashes|
    else LastIndex(crashes[..|crashes| - 1], p)
  }

  /** The statistics of a protocol, counted from scratch. */
  function Recount(crashes: seq<CrashInfo>, p: ProtocolType): Stats {
    var mine := Of(crashes, p);
    Stats(|mine|, LastIndex(crashes, p), Histogram(Types(mine)), Histogram(Severities(mine)))
  }

  /** Statistics with one more crash, which brings the whole log to `unique` crashes. */
  function WithOneMore(was: Stats, unique: nat, c: CrashInfo): Stats {
    Stats(was.totalCrashes + 1, unique, Bump(was.crashTypes, c.crashType), Bump(was.severityCounts, c.severity))
  }

  lemma ListsSnoc(front: seq<CrashInfo>, last: CrashInfo)
    ensures Types(front + [last]) == Types(front) + [last.crashType]
    ensures Severities(front + [last]) == Severities(front) + [last.severity]
    ensures Protocols(front + [last]) == Protocols(front) + [last.report.protocol]
  {
    assert (front + [last])[..|front|] == front;
  }

  /** Each breakdown of a longer log is one bump away. */
  lemma BreakdownsSnoc(front: seq<CrashInfo>, last: CrashInfo)
    ensures Histogram(Types(front + [last])) == Bump(Histogram(Types(front)), last.crashType)
    ensures Histogram(Severities(front + [last])) == Bump(Histogram(Severities(front)), last.severity)
    ensures Histogram(Protocols(front + [last])) == Bump(Histogram(Protocols(front)), last.report.protocol)
  {
    ListsSnoc(front, last);
    hide Types, Severities, Protocols, Histogram, Bump;
    HistogramSnoc(Types(front), last.crashType);
    HistogramSnoc(Severities(front), last.severity);
    HistogramSnoc(Protocols(front), last.report.protocol);
  }

  lemma OfSnoc(front: seq<CrashInfo>, last: CrashInfo, p: ProtocolType)
    ensures var all, mine := Of(front + [last], p), Of(front, p);
            if last.report.protocol == p
            then all == mine + [last] && Types(all) == Types(mine) + [last.crashType]
                 && Severities(all) == Severities(mine) + [last.severity]
            else all == mine
    ensures LastIndex(front + [last], p) == if last.report.protocol == p then |front| + 1 else LastIndex(front, p)
  {
    assert (front + [last])[..|front|] == front;
    assert (Of(front, p) + [last])[..|Of(front, p)|] == Of(front, p);
  }

  /** A recount after one more crash is the update that `record_crash` makes. */
  lemma RecountSnoc(crashes: seq<CrashInfo>, c: CrashInfo, p: ProtocolType)
    ensures Recount(crashes + [c], p) ==
            if c.report.protocol != p then Recount(crashes, p)
            else WithOneMore(Recount(crashes, p), |crashes| + 1, c)
  {
    OfSnoc(crashes, c, p);
    hide Of, Types, Severities, LastIndex;
    HistogramSnoc(Types(Of(crashes, p)), c.crashType);
    HistogramSnoc(Severities(Of(crashes, p)), c.severity);
  }

  /** All crashes before the last one of a protocol are its own. */
  ghost predicate OwnBeforeLast(crashes: seq<CrashInfo>, p: ProtocolType) {
    forall i :: 0 <= i < LastIndex(crashes, p) ==> crashes[i].report.protocol == p
  }

  /**
   * The unique crashes counted for a protocol, all of which are different, agree with its total number of crashes
   * exactly if no crash of another protocol was logged before its last one.
   */
  lemma UniqueIsTotal(crashes: seq<CrashInfo>, p: ProtocolType)
    ensures Recount(crashes, p).uniqueCrashes == Recount(crashes, p).totalCrashes <==> OwnBeforeLast(crashes, p)
  {
    OwnCount(crashes, p);
    hide Types, Severities, Histogram, OwnBeforeLast;
  }

  lemma {:induction false} OwnCount(crashes: seq<CrashInfo>, p: ProtocolType)
    ensures |Of(crashes, p)| <= LastIndex(crashes, p)
    ensures |Of(crashes, p)| == LastIndex(crashes, p) <==> OwnBeforeLast(crashes, p)
  {
    if crashes != [] {
      var front, last := crashes[..|crashes| - 1], crashes[|crashes| - 1];
      if last.report.protocol == p {
        AllOwn(front, p);
        assert forall i :: 0 <= i < |front| ==> front[i] == crashes[i];
      } else {
        OwnCount(front, p);
        assert forall i :: 0 <= i < LastIndex(front, p) ==> front[i] == crashes[i];
      }
    }
  }

  lemma {:induction false} AllOwn(crashes: seq<CrashInfo>, p: ProtocolType)
    ensures |Of(crashes, p)| <= |crashes|
    ensures |Of(crashes, p)| == |crashes| <==> forall i :: 0 <= i < |crashes| ==> crashes[i].report.protocol == p
  {
    if crashes != [] {
      AllOwn(crashes[..|crashes| - 1], p);
    }
  }

  /** A log with crashes of one protocol only. */
  lemma OnlyOwn(crashes: seq<CrashInfo>, p: ProtocolType)
    requires forall i :: 0 <= i < |crashes| ==> crashes[i].report.protocol == p
    ensures Recount(crashes, p).uniqueCrashes == Recount(crashes, p).totalCrashes == |crashes|
  {
    AllOwn(crashes, p);
    UniqueIsTotal(crashes, p);
    hide Types, Severities, Histogram;
  }

  lemma {:induction false} NoneOther(crashes: seq<CrashInfo>, p: ProtocolType, q: ProtocolType)
    requires p != q && forall i :: 0 <= i < |crashes| ==> crashes[i].report.protocol == p
    ensures Of(crashes, q) == []
  {
    if crashes != [] {
      NoneOther(crashes[..|crashes| - 1], p, q);
    }
  }

  /** A DNS crash before an MQTT crash: two crashes are counted as unique for MQTT, which has one. */
  lemma ForeignCrashCounted(dns: CrashInfo, mqtt: CrashInfo)
    requires dns.report.protocol == DNS && mqtt.report.protocol == MQTT
    ensures Recount([dns, mqtt], MQTT).totalCrashes == 1 && Recount([dns, mqtt], MQTT).uniqueCrashes == 2
  {
    assert [] + [dns] == [dns] && [dns] + [mqtt] == [dns, mqtt];
    RecountSnoc([], dns, MQTT);
    RecountSnoc([dns], mqtt, MQTT);
  }

  /** Types, severities and totals over the whole log are the sums over the two protocols. */
  ghost predicate AddUp(crashes: seq<CrashInfo>, dns: Stats, mqtt: Stats, t: CrashType, s: CrashSeverity) {
    && CountIn(Histogram(Types(crashes)), t) == CountIn(dns.crashTypes, t) + CountIn(mqtt.crashTypes, t)
    && CountIn(Histogram(Severities(crashes)), s) == CountIn(dns.severityCounts, s) + CountIn(mqtt.severityCounts, s)
    && |crashes| == dns.totalCrashes + mqtt.totalCrashes
  }

  lemma AddUpStep(front: seq<CrashInfo>, last: CrashInfo, dns: Stats, mqtt: Stats, t: CrashType, s: CrashSeverity)
    requires AddUp(front, dns, mqtt, t, s)
    ensures AddUp(front + [last], WithOneMore(dns, |front| + 1, last), mqtt, t, s)
    ensures AddUp(front + [last], dns, WithOneMore(mqtt, |front| + 1, last), t, s)
  {
    BreakdownsSnoc(front, last);
    hide Types, Severities, Histogram;
  }

  lemma RecountsStep(front: seq<CrashInfo>, last: CrashInfo, t: CrashType, s: CrashSeverity)
    requires AddUp(front, Recount(front, DNS), Recount(front, MQTT), t, s)
    ensures AddUp(front + [last], Recount(front + [last], DNS), Recount(front + [last], MQTT), t, s)
  {
    hide Recount, AddUp, WithOneMore;
    RecountSnoc(front, last, DNS);
    RecountSnoc(front, last, MQTT);
    AddUpStep(front, last, Recount(front, DNS), Recount(front, MQTT), t, s);
  }

  lemma {:induction false} BreakdownsAddUp(crashes: seq<CrashInfo>, t: CrashType, s: CrashSeverity)
    ensures AddUp(crashes, Recount(crashes, DNS), Recount(crashes, MQTT), t, s)
  {
    if crashes != [] {
      hide Recount, AddUp;
      var front, last := crashes[..|crashes| - 1], crashes[|crashes| - 1];
      BreakdownsAddUp(front, t, s);
      assert crashes == front + [last];
      RecountsStep(front, last, t, s);
    }
  }

  function HighSeverity(crashes: seq<CrashInfo>): seq<CrashInfo> {
    if crashes == [] then []
    else
      var last := crashes[|crashes| - 1];
      HighSeverity(crashes[..|crashes| - 1]) + if Rank(last.severity) >= Rank(High) then [last] else []
  }

  lemma {:induction false} HighSeverityCount(crashes: seq<CrashInfo>)
    ensures |HighSeverity(crashes)| == multiset(Severities(crashes))[High] + multiset(Severities(crashes))[Critical]
  {
    if crashes != [] {
      HighSeverityCount(crashes[..|crashes| - 1]);
    }
  }

  datatype Summary = Summary(
    totalCrashes: nat, uniqueCrashes: nat, severities: map<CrashSeverity, nat>, types: map<CrashType, nat>,
    protocols: map<ProtocolType, nat>, highSeverity: nat)
}
