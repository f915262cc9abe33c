/** The edge collector: hit counts, unique paths and path frequencies of one execution trace. */
module EdgeCoverage {
  import opened Bytes
  import opened Wrappers
  import opened Execution
  import opened Histograms
  import opened CoverageExport

  datatype CoverageStats = CoverageStats(
    totalExecutions: nat, uniquePaths: nat, coveragePercentage: real, newCoverageFound: bool)

  type Path = seq<nat>

  /** All edges of a trace, in the order in which they were hit. */
  function Flatten(trace: seq<Path>): seq<nat> {
    if trace == [] then [] else Flatten(trace[..|trace| - 1]) + trace[|trace| - 1]
  }

  lemma {:induction false} FlattenMember(trace: seq<Path>, e: nat)
    ensures e in Flatten(trace) <==> exists p :: p in trace && e in p
  {
    if trace != [] {
      var front, last := trace[..|trace| - 1], trace[|trace| - 1];
      FlattenMember(front, e);
      assert trace == front + [last];
    }
  }

  ghost function Occurrences(e: nat): Path -> nat { (p: Path) => multiset(p)[e] }

  ghost function Once(): Path -> nat { (p: Path) => 1 }

  lemma {:induction false} FlattenMultiplicity(trace: seq<Path>, e: nat)
    ensures multiset(Flatten(trace))[e] == SeqSum(trace, Occurrences(e))
  {
    if trace != [] {
      FlattenMultiplicity(trace[..|trace| - 1], e);
    }
  }

  lemma {:induction false} CountOnes(trace: seq<Path>)
    ensures SeqSum(trace, Once()) == |trace|
  {
    if trace != [] {
      CountOnes(trace[..|trace| - 1]);
    }
  }

  /**
   * The hit count of an edge is the sum over the distinct paths of the path's frequency times the edge's
   * occurrences in it, and the frequencies add up to the number of executions.
   */
  lemma ViewsAgree(trace: seq<Path>, e: nat)
    ensures CountIn(Histogram(Flatten(trace)), e) == WeightedSum(Histogram(trace), Occurrences(e))
    ensures WeightedSum(Histogram(trace), Once()) == |trace|
  {
    HistogramCounts(Flatten(trace), e);
    FlattenMultiplicity(trace, e);
    SumHistogram(trace, Occurrences(e));
    CountOnes(trace);
    SumHistogram(trace, Once());
  }

  /** How the three views grow with one more path. */
  lemma TraceSnoc(trace: seq<Path>, path: Path)
    ensures Flatten(trace + [path]) == Flatten(trace) + path
    ensures Histogram(trace + [path]) == Bump(Histogram(trace), path)
    ensures (set p | p in trace + [path]) == (set p | p in trace) + {path}
  {
    assert (trace + [path])[..|trace|] == trace;
    HistogramSnoc(trace, path);
  }

  /** The share of covered entries in percent; no entries count as no coverage. */
  function Percentage(covered: nat, total: nat): real {
    if total > 0 then (covered as real / total as real) * 100.0 else 0.0
  }

  /** A percentage is the hundredfold share. */
  lemma PercentageIsShare(covered: nat, total: nat)
    ensures Percentage(covered, total) * total as real == (if total > 0 then 100.0 * covered as real else 0.0)
  {
    if total > 0 {
      assert (covered as real / total as real) * total as real == covered as real;
    }
  }

  lemma FullPercentage(n: nat)
    ensures Percentage(n, n) == if n > 0 then 100.0 else 0.0
  {
    if n > 0 {
      assert n as real / n as real == 1.0;
    }
  }

  function TimeCategory(ms: nat): string {
    if ms <= 10 then "very_fast" else if ms <= 100 then "fast" else if ms <= 1000 then "medium"
    else if ms <= 5000 then "slow" else "very_slow"
  }

  /** Exactly when an execution falls into which time category. */
  lemma TimeCategories(ms: nat)
    ensures TimeCategory(ms) == "very_fast" <==> ms <= 10
    ensures TimeCategory(ms) == "fast" <==> 10 < ms <= 100
    ensures TimeCategory(ms) == "medium" <==> 100 < ms <= 1000
    ensures TimeCategory(ms) == "slow" <==> 1000 < ms <= 5000
    ensures TimeCategory(ms) == "very_slow" <==> 5000 < ms
  {
    assert "fast"[0] == 'f' && "slow"[0] == 's' && "very_fast"[5] == 'f' && "very_slow"[5] == 's';
  }

  /** `classify_error` on a message already in lower case. */
  function ErrorCategory(lower: string): string {
    if Contains(lower, "connection") then "connection_error"
    else if Contains(lower, "timeout") then "timeout_error"
    else if Contains(lower, "parse") || Contains(lower, "invalid") then "parse_error"
    else if Contains(lower, "network") then "network_error"
    else if Contains(lower, "protocol") then "protocol_error"
    else "unknown_error"
  }

  /** Exactly when a message falls into which category: the first of the words that it contains decides. */
  lemma ErrorCategories(m: string)
    ensures ErrorCategory(m) == "connection_error" <==> Contains(m, "connection")
    ensures ErrorCategory(m) == "timeout_error" <==> Contains(m, "timeout") && !Contains(m, "connection")
    ensures ErrorCategory(m) == "parse_error" <==>
            (Contains(m, "parse") || Contains(m, "invalid")) && !Contains(m, "connection") && !Contains(m, "timeout")
    ensures ErrorCategory(m) == "unknown_error" <==>
            forall w :: w in {"connection", "timeout", "parse", "invalid", "network", "protocol"} ==> !Contains(m, w)
    ensures ErrorCategory(m) == "network_error" ==> Contains(m, "network")
    ensures ErrorCategory(m) == "protocol_error" ==> Contains(m, "protocol") && !Contains(m, "network")
  {
    hide Contains;
    assert "connection_error"[0] == 'c' && "timeout_error"[0] == 't' && "unknown_error"[0] == 'u';
    assert "parse_error"[1] == 'a' && "protocol_error"[1] == 'r' && "network_error"[0] == 'n';
  }

  class EdgeCoverageCollector {
    /** The hasher, the lower-casing and the edges of inputs and responses: arbitrary functions. */
    const hashEdge: (string, string) -> nat
    const toLower: string -> string
    const inputEdges: seq<Byte> -> seq<nat>
    const responseEdges: seq<Byte> -> seq<nat>

    var edgeMap: map<nat, nat>
    var uniquePaths: set<Path>
    var pathFrequencies: map<Path, nat>
    var totalExecutions: nat
    var newCoverageFound: bool
    var lastCoverageCount: nat

    /** The edge lists recorded since construction or the last reset. */
    ghost var trace: seq<Path>

    ghost predicate Valid()
      reads this
    {
      && edgeMap == Histogram(Flatten(trace))
      && pathFrequencies == Histogram(trace)
      && uniquePaths == (set p | p in trace)
      && totalExecutions == |trace|
      && (newCoverageFound <==> trace != [])
      && lastCoverageCount == 0
      && [] !in trace
    }

    constructor (hashEdge: (string, string) -> nat, toLower: string -> string,
                 inputEdges: seq<Byte> -> seq<nat>, responseEdges: seq<Byte> -> seq<nat>)
      ensures Valid() && trace == []
      ensures this.hashEdge == hashEdge && this.toLower == toLower
      ensures this.inputEdges == inputEdges && this.responseEdges == responseEdges
    {
      this.hashEdge, this.toLower := hashEdge, toLower;
      this.inputEdges, this.responseEdges := inputEdges, responseEdges;
      edgeMap, uniquePaths, pathFrequencies := map[], {}, map[];
      totalExecutions, newCoverageFound, lastCoverageCount := 0, false, 0;
      trace := [];
    }

    function ExecutionEdges(result: ExecutionResult): (edges: seq<nat>)
      ensures edges != []
    {
      [hashEdge("execution", if result.success then "success" else "failure"),
       hashEdge("execution_time", TimeCategory(result.executionTimeMs))]
      + if result.errorMessage.Some?
        then [hashEdge("error_type", ErrorCategory(toLower(result.errorMessage.value)))]
        else []
    }

    /** The path of one execution. It is never empty, because the outcome itself is an edge. */
    function PathOf(input: seq<Byte>, result: ExecutionResult): (path: Path)
      ensures path != []
    {
      inputEdges(input) + ExecutionEdges(result)
      + if result.responseData.Some? then responseEdges(result.responseData.value) else []
    }

    /** The edges behind those of the input tell outcome and time category apart, as far as the hasher does. */
    lemma PathTellsOutcome(input: seq<Byte>, r: ExecutionResult, s: ExecutionResult)
      requires PathOf(input, r) == PathOf(input, s)
      ensures hashEdge("execution", "success") != hashEdge("execution", "failure") ==> r.success == s.success
      ensures hashEdge("execution_time", TimeCategory(r.executionTimeMs))
           == hashEdge("execution_time", TimeCategory(s.executionTimeMs))
    {
      var n := |inputEdges(input)|;
      assert PathOf(input, r)[n] == ExecutionEdges(r)[0] && PathOf(input, s)[n] == ExecutionEdges(s)[0];
      assert PathOf(input, r)[n + 1] == ExecutionEdges(r)[1] && PathOf(input, s)[n + 1] == ExecutionEdges(s)[1];
    }

    /**
     * Two executions of one input, both with or both without an error message, have the same path exactly if outcome,
     * time category, error category and all edges of the response have the same hashes.
     */
    lemma SamePathIff(input: seq<Byte>, r: ExecutionResult, s: ExecutionResult)
      requires r.errorMessage.Some? <==> s.errorMessage.Some?
      ensures PathOf(input, r) == PathOf(input, s) <==>
              && hashEdge("execution", if r.success then "success" else "failure")
                 == hashEdge("execution", if s.success then "success" else "failure")
              && hashEdge("execution_time", TimeCategory(r.executionTimeMs))
                 == hashEdge("execution_time", TimeCategory(s.executionTimeMs))
              && (r.errorMessage.Some? ==>
                    hashEdge("error_type", ErrorCategory(toLower(r.errorMessage.value)))
                    == hashEdge("error_type", ErrorCategory(toLower(s.errorMessage.value))))
              && (if r.responseData.Some? then responseEdges(r.responseData.value) else [])
                 == (if s.responseData.Some? then responseEdges(s.responseData.value) else [])
    {
      hide TimeCategory, ErrorCategory;
      var p, q, n := PathOf(input, r), PathOf(input, s), |inputEdges(input)|;
      var k := |ExecutionEdges(r)|;
      assert p[n..n + k] == ExecutionEdges(r) && q[n..n + k] == ExecutionEdges(s);
      assert p[n + k..] == if r.responseData.Some? then responseEdges(r.responseData.value) else [];
      assert q[n + k..] == if s.responseData.Some? then responseEdges(s.responseData.value) else [];
      assert ExecutionEdges(r)[0] == p[n] && ExecutionEdges(s)[0] == q[n];
      assert ExecutionEdges(r)[1] == p[n + 1] && ExecutionEdges(s)[1] == q[n + 1];
      assert r.errorMessage.Some? ==> ExecutionEdges(r)[2] == p[n + 2] && ExecutionEdges(s)[2] == q[n + 2];
    }

    /** How often an execution hits an edge: in the input, in the outcome, and in the response. */
    function HitsOf(input: seq<Byte>, result: ExecutionResult, e: nat): nat {
      multiset(inputEdges(input))[e]
      + (if e == hashEdge("execution", if result.success then "success" else "failure") then 1 else 0)
      + (if e == hashEdge("execution_time", TimeCategory(result.executionTimeMs)) then 1 else 0)
      + (if result.errorMessage.Some?
            && e == hashEdge("error_type", ErrorCategory(toLower(result.errorMessage.value))) then 1 else 0)
      + (if result.responseData.Some? then multiset(responseEdges(result.responseData.value))[e] else 0)
    }

    lemma PathHits(input: seq<Byte>, result: ExecutionResult, e: nat)
      ensures multiset(PathOf(input, result))[e] == HitsOf(input, result, e)
    {
      hide TimeCategory, ErrorCategory;
    }

    /** Every edge of an execution is counted as often as the execution hits it, those of the response included. */
    lemma EdgesCounted(trace: seq<Path>, input: seq<Byte>, result: ExecutionResult, e: nat)
      ensures CountIn(Histogram(Flatten(trace + [PathOf(input, result)])), e)
           == CountIn(Histogram(Flatten(trace)), e) + HitsOf(input, result, e)
    {
      var path := PathOf(input, result);
      TraceSnoc(trace, path);
      HistogramCounts(Flatten(trace), e);
      HistogramCounts(Flatten(trace) + path, e);
      PathHits(input, result, e);
    }

    method ExtractEdges(input: seq<Byte>, result: ExecutionResult) returns (edges: seq<nat>)
      ensures edges == PathOf(input, result)
      ensures edges == inputEdges(input)
              + ([hashEdge("execution", if result.success then "success" else "failure"),
                  hashEdge("execution_time", TimeCategory(result.executionTimeMs))]
                 + if result.errorMessage.Some?
                   then [hashEdge("error_type", ErrorCategory(toLower(result.errorMessage.value)))] else [])
              + if result.responseData.Some? then responseEdges(result.responseData.value) else []
    {
      edges := [];
      edges := edges + inputEdges(input);
      var executionEdges := ExtractExecutionEdges(result);
      edges := edges + executionEdges;
      if result.responseData.Some? {
        edges := edges + responseEdges(result.responseData.value);
      }
    }

    method ExtractExecutionEdges(result: ExecutionResult) returns (edges: seq<nat>)
      ensures edges == ExecutionEdges(result)
    {
      edges := [];
      if result.success {
        edges := edges + [hashEdge("execution", "success")];
      } else {
        edges := edges + [hashEdge("execution", "failure")];
      }
      edges := edges + [hashEdge("execution_time", TimeCategory(result.executionTimeMs))];
      if result.errorMessage.Some? {
        edges := edges + [hashEdge("error_type", ErrorCategory(toLower(result.errorMessage.value)))];
      }
    }

    /** The execution counts as new coverage exactly when its path was never recorded before. */
    method RecordExecution(input: seq<Byte>, result: ExecutionResult) returns (ghost isNew: bool)
      requires Valid()
      modifies this
      ensures Valid()
      ensures trace == old(trace) + [PathOf(input, result)]
      ensures isNew <==> PathOf(input, result) !in old(trace)
      ensures forall e :: CountIn(edgeMap, e) == CountIn(old(edgeMap), e) + HitsOf(input, result, e)
      ensures result.responseData.Some? ==> forall e :: e in responseEdges(result.responseData.value) ==> e in edgeMap
    {
      hide Histogram, Flatten, Bump, PathOf, HitsOf, CountIn;
      AllEdgesCounted(trace, input, result);
      totalExecutions := totalExecutions + 1;
      var edges := ExtractEdges(input, result);
      var newEdgesFound;
      edgeMap, newEdgesFound := CountAll(edgeMap, Flatten(trace), edges);
      KnownPathHasKnownEdges(trace, edges);
      TraceSnoc(trace, edges);
      if edges != [] {
        if edges !in uniquePaths {
          newEdgesFound := true;
        }
        uniquePaths := uniquePaths + {edges};
        pathFrequencies := Bump(pathFrequencies, edges);
      }
      isNew := newEdgesFound;
      if newEdgesFound {
        newCoverageFound := true;
      }
      trace := trace + [edges];
    }

    lemma AllEdgesCounted(trace: seq<Path>, input: seq<Byte>, result: ExecutionResult)
      ensures var map1, map2 := Histogram(Flatten(trace)), Histogram(Flatten(trace + [PathOf(input, result)]));
              && (forall e :: CountIn(map2, e) == CountIn(map1, e) + HitsOf(input, result, e))
              && (result.responseData.Some? ==> forall e :: e in responseEdges(result.responseData.value) ==> e in map2)
    {
      hide PathOf, Flatten, Histogram;
      forall e
        ensures CountIn(Histogram(Flatten(trace + [PathOf(input, result)])), e)
             == CountIn(Histogram(Flatten(trace)), e) + HitsOf(input, result, e)
      {
        EdgesCounted(trace, input, result, e);
      }
      if result.responseData.Some? {
        forall e | e in responseEdges(result.responseData.value)
          ensures e in Histogram(Flatten(trace + [PathOf(input, result)]))
        {
          EdgesCounted(trace, input, result, e);
          assert multiset(responseEdges(result.responseData.value))[e] > 0;
        }
      }
    }

    /** An unseen edge makes the path unseen. */
    lemma KnownPathHasKnownEdges(trace: seq<Path>, path: Path)
      ensures path in trace ==> forall e :: e in path ==> e in Flatten(trace)
    {
      forall e | e in path && path in trace
        ensures e in Flatten(trace)
      {
        FlattenMember(trace, e);
      }
    }

    /** In every reachable state the counters of the collector say the same about the recorded trace. */
    lemma CountersAgree(e: nat, p: Path)
      requires Valid()
      ensures CountIn(edgeMap, e) == WeightedSum(pathFrequencies, Occurrences(e))
      ensures WeightedSum(pathFrequencies, Once()) == totalExecutions
      ensures CountIn(pathFrequencies, p) == multiset(trace)[p]
      ensures p in pathFrequencies <==> p in uniquePaths
    {
      ViewsAgree(trace, e);
      HistogramCounts(trace, p);
    }

    function TotalEdges(): nat
      reads this
    {
      |edgeMap|
    }

    function CoveredEdges(): nat
      reads this
    {
      |set e | e in edgeMap && edgeMap[e] > 0|
    }

    /** Every known edge is covered, so the percentage is 0 before the first execution and 100 from then on. */
    method GetCoverageStats() returns (stats: CoverageStats)
      requires Valid()
      ensures stats == CoverageStats(|trace|, |set p | p in trace|, if trace == [] then 0.0 else 100.0, trace != [])
    {
      var total, covered := TotalEdges(), CoveredEdges();
      AllEdgesCovered();
      FullPercentage(total);
      hide Percentage;
      var percentage := Percentage(covered, total);
      stats := CoverageStats(totalExecutions, |uniquePaths|, percentage, newCoverageFound);
    }

    lemma AllEdgesCovered()
      requires Valid()
      ensures CoveredEdges() == TotalEdges()
      ensures TotalEdges() == 0 <==> trace == []
    {
      HistogramPositive(Flatten(trace));
      assert (set e | e in edgeMap && edgeMap[e] > 0) == edgeMap.Keys;
      if trace != [] {
        var path := trace[|trace| - 1];
        assert path in trace;
        FlattenMember(trace, path[0]);
        HistogramCounts(Flatten(trace), path[0]);
      }
    }

    /**
     * Nothing but a reset ever assigns `last_coverage_count`, so "new since the last check" means "ever". If the last
     * check was made after `n` executions, the answer is right exactly if `n` is 0 or some path is new since.
     */
    method HasNewCoverage() returns (b: bool)
      requires Valid()
      ensures b <==> trace != []
      ensures forall n: nat :: n <= |trace| ==> ((b <==> NewSince(trace, n)) <==> n == 0 || NewSince(trace, n))
    {
      if trace != [] {
        assert trace[0] in uniquePaths;
        assert trace[0] !in trace[..0];
      }
      b := |uniquePaths| > lastCoverageCount;
    }

    /** One path recorded, checked and recorded again: nothing is new, but the test that is the answer succeeds. */
    lemma StaleCoverage(p: Path)
      requires Valid() && trace == [p, p]
      ensures !NewSince(trace, 1) && |uniquePaths| > lastCoverageCount
    {
      assert trace[..1] == [p];
      assert p in uniquePaths;
    }

    method Reset()
      modifies this
      ensures Valid() && trace == []
    {
      edgeMap, uniquePaths, pathFrequencies := map[], {}, map[];
      totalExecutions, newCoverageFound, lastCoverageCount := 0, false, 0;
      trace := [];
    }

    /**
     * `order` is the order in which the hash map happens to be iterated. Everything written can be read back, as
     * long as it fits the 64 bits of the source's counters.
     */
    method ExportCoverageData(order: seq<nat>) returns (data: seq<Byte>)
      requires Enumerates(order, edgeMap)
      requires FitsU64(edgeMap, |uniquePaths|, totalExecutions)
      ensures Import(data) == Some(Dump(edgeMap, |uniquePaths|, totalExecutions))
    {
      hide LittleEndian, Entries, Import, Restrict;
      var buffer := new ByteVec([]);
      WriteU64(buffer, |edgeMap|);
      assert buffer.bytes == LittleEndian(|edgeMap|, 8);
      EnumerationSize(order, edgeMap);
      ghost var entries := WriteEntries(buffer, order);
      WriteU64(buffer, |uniquePaths|);
      WriteU64(buffer, totalExecutions);
      data := buffer.bytes;
      RestrictAll(edgeMap, order);
      ImportDump(entries, edgeMap, |uniquePaths|, totalExecutions);
    }

    method WriteEntries(buffer: ByteVec, order: seq<nat>) returns (ghost entries: seq<Byte>)
      requires forall e :: e in order ==> e in edgeMap
      requires forall e :: e in edgeMap ==> e < U64_LIMIT && edgeMap[e] < U64_LIMIT
      modifies buffer
      ensures buffer.bytes == old(buffer.bytes) + entries
      ensures |entries| == 16 * |order| && Entries(entries, |order|) == Restrict(edgeMap, order)
    {
      entries := [];
      for i := 0 to |order|
        invariant |entries| == 16 * i && buffer.bytes == old(buffer.bytes) + entries
        invariant Entries(entries, i) == Restrict(edgeMap, order[..i])
      {
        hide LittleEndian, Entries, Restrict;
        var edge := order[i];
        RestrictSnoc(edgeMap, order[..i], edge);
        assert order[..i + 1] == order[..i] + [edge];
        WriteU64(buffer, edge);
        WriteU64(buffer, edgeMap[edge]);
        entries := EntriesSnoc(old(buffer.bytes), entries, i, edge, edgeMap[edge]);
      }
      assert order[..|order|] == order;
    }

    method WriteU64(buffer: ByteVec, n: nat)
      modifies buffer
      ensures buffer.bytes == old(buffer.bytes) + LittleEndian(n, 8)
    {
      buffer.PutSlice(LittleEndian(n, 8));
    }
  }
}
