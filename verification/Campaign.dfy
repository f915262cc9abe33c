/** The main loop of a fuzzing campaign: a bounded corpus, counters, and the hand-off of failing cases. */
module Campaign {
  import opened Bytes
  import opened Wrappers
  import opened Execution
  import opened EdgeCoverage
  import opened CompositeCoverage
  import opened CrashLog
  import opened CrashDetection
  import opened Repetition

  const CORPUS_LIMIT: nat := 1000
  const INITIAL_CASES: nat := 50

  /** How an iteration or a campaign ends: it comes to its end, or one of the two calls that can panic does. */
  datatype Ending = Completed | MutatorPanicked | CollectorPanicked

  /** One iteration: the case picked, its mutant, and what happened. */
  datatype Step = Step(base: seq<Byte>, mutant: seq<Byte>, result: ExecutionResult)

  predicate IsInteresting(result: ExecutionResult) {
    result.responseData.Some? || (result.errorMessage.Some? && result.errorMessage.value != "UDP timeout")
  }

  /** Over TCP everything that can happen is interesting; over UDP everything but silence. */
  lemma ExecutedInteresting(tcp: TcpOutcome, udp: UdpOutcome)
    ensures IsInteresting(TcpResult(tcp))
    ensures IsInteresting(UdpResult(udp)) <==> !udp.UdpTimedOut?
  {
    var t, u := TcpResult(tcp), UdpResult(udp);
    assert t.errorMessage.Some? ==> t.errorMessage.value[0] != 'U' && "UDP timeout"[0] == 'U';
    assert u.errorMessage.Some? && !udp.UdpTimedOut? ==>
        u.errorMessage.value[0] == 'S' || (u.errorMessage.value[4] == 'e' && "UDP timeout"[4] == 't');
  }

  function InterestingMutants(steps: seq<Step>): seq<seq<Byte>> {
    if steps == [] then []
    else
      var last := steps[|steps| - 1];
      InterestingMutants(steps[..|steps| - 1]) + if IsInteresting(last.result) then [last.mutant] else []
  }

  function Last<T>(s: seq<T>, n: nat): seq<T> {
    if |s| <= n then s else s[|s| - n..]
  }

  /** The corpus after some steps: the latest thousand of the initial cases and the interesting mutants, in order. */
  function Corpus(initial: seq<seq<Byte>>, steps: seq<Step>): (corpus: seq<seq<Byte>>)
    ensures |corpus| <= CORPUS_LIMIT
    ensures initial != [] ==> corpus != []
  {
    Last(initial + InterestingMutants(steps), CORPUS_LIMIT)
  }

  /** Interesting cases join, and the oldest leaves an overfull corpus. */
  function Kept(corpus: seq<seq<Byte>>, mutant: seq<Byte>, result: ExecutionResult): seq<seq<Byte>> {
    if !IsInteresting(result) then corpus
    else if |corpus| >= CORPUS_LIMIT then corpus[1..] + [mutant]
    else corpus + [mutant]
  }

  /** Pushing an interesting mutant and removing the oldest case of an overfull corpus keeps the corpus as described. */
  lemma CorpusStep(initial: seq<seq<Byte>>, steps: seq<Step>, step: Step)
    ensures Corpus(initial, steps + [step]) == Kept(Corpus(initial, steps), step.mutant, step.result)
  {
    assert (steps + [step])[..|steps|] == steps;
    var all := initial + InterestingMutants(steps);
    if IsInteresting(step.result) {
      assert initial + InterestingMutants(steps + [step]) == all + [step.mutant];
    } else {
      assert InterestingMutants(steps) + [] == InterestingMutants(steps);
    }
  }

  /** A case of the corpus is an initial one or an interesting mutant. */
  lemma CorpusMember(initial: seq<seq<Byte>>, steps: seq<Step>, x: seq<Byte>) returns (i: nat)
    requires x in Corpus(initial, steps) && x !in initial
    ensures i < |steps| && steps[i].mutant == x && IsInteresting(steps[i].result)
  {
    i := InterestingMember(steps, x);
  }

  lemma {:induction false} InterestingMember(steps: seq<Step>, x: seq<Byte>) returns (i: nat)
    requires x in InterestingMutants(steps)
    ensures i < |steps| && steps[i].mutant == x && IsInteresting(steps[i].result)
  {
    var n := |steps| - 1;
    if x in InterestingMutants(steps[..n]) {
      i := InterestingMember(steps[..n], x);
    } else {
      i := n;
    }
  }

  /**
   * `at` lists, in increasing order, the steps whose result has a response, or an error other than the UDP timeout:
   * their mutants are the interesting ones.
   */
  lemma {:induction false} InterestingAt(steps: seq<Step>) returns (at: seq<nat>)
    ensures |at| == |InterestingMutants(steps)|
    ensures forall k :: 0 <= k < |at| ==> at[k] < |steps| && InterestingMutants(steps)[k] == steps[at[k]].mutant
    ensures forall k, l :: 0 <= k < l < |at| ==> at[k] < at[l]
    ensures forall i :: 0 <= i < |steps| ==>
              (i in at <==> var r := steps[i].result;
                            r.responseData != None || (r.errorMessage != None && r.errorMessage != Some("UDP timeout")))
  {
    at := InterestingSteps(steps);
    forall i | 0 <= i < |steps|
      ensures var r := steps[i].result;
              IsInteresting(r)
              <==> r.responseData != None || (r.errorMessage != None && r.errorMessage != Some("UDP timeout"))
    {
    }
  }

  lemma {:induction false} InterestingSteps(steps: seq<Step>) returns (at: seq<nat>)
    ensures |at| == |InterestingMutants(steps)|
    ensures forall k :: 0 <= k < |at| ==> at[k] < |steps| && InterestingMutants(steps)[k] == steps[at[k]].mutant
    ensures forall k, l :: 0 <= k < l < |at| ==> at[k] < at[l]
    ensures forall i :: 0 <= i < |steps| ==> (i in at <==> IsInteresting(steps[i].result))
  {
    hide IsInteresting;
    at := [];
    if steps != [] {
      var n := |steps| - 1;
      at := InterestingSteps(steps[..n]);
      if IsInteresting(steps[n].result) {
        at := at + [n];
      }
    }
  }

  /** The corpus is what is left of all cases when the oldest have been removed; none are removed below the limit. */
  lemma CorpusIsLatest(initial: seq<seq<Byte>>, steps: seq<Step>)
    ensures var all, corpus := initial + InterestingMutants(steps), Corpus(initial, steps);
            && |corpus| == (if |all| <= 1000 then |all| else 1000)
            && corpus == all[|all| - |corpus|..]
  {
  }

  function Mutants(steps: seq<Step>): (mutants: seq<seq<Byte>>)
    ensures |mutants| == |steps|
  {
    seq(|steps|, i requires 0 <= i < |steps| => steps[i].mutant)
  }

  /** A campaign over TCP keeps every mutant, as long as there is room. */
  lemma {:induction false} TcpKeepsAll(steps: seq<Step>)
    requires forall i :: 0 <= i < |steps| ==> OverTcp(steps[i].result)
    ensures InterestingMutants(steps) == Mutants(steps)
  {
    if steps != [] {
      hide IsInteresting, TcpResult, UdpResult;
      var n := |steps| - 1;
      TcpKeepsAll(steps[..n]);
      assert OverTcp(steps[n].result);
      var o :| steps[n].result == TcpResult(o);
      ExecutedInteresting(o, UdpTimedOut(0));
      assert Mutants(steps) == Mutants(steps[..n]) + [steps[n].mutant];
    }
  }

  class FuzzingEngine {
    const protocolType: ProtocolType
    const crashDetector: CrashDetector
    const coverageCollector: CompositeCoverageCollector

    /**
     * What the mutator and the target do in iteration `i`, and the identifiers and clock readings: arbitrary. The
     * mutator has no result when it panics.
     */
    const mutate: (seq<Byte>, nat) -> Option<seq<Byte>>
    const execute: (seq<Byte>, nat) -> ExecutionResult
    const ids: nat -> string
    const clock: nat -> nat

    constructor (protocolType: ProtocolType, detector: CrashDetector, collector: CompositeCoverageCollector,
                 mutate: (seq<Byte>, nat) -> Option<seq<Byte>>, execute: (seq<Byte>, nat) -> ExecutionResult,
                 ids: nat -> string, clock: nat -> nat)
      ensures this.protocolType == protocolType && crashDetector == detector && coverageCollector == collector
      ensures this.mutate == mutate && this.execute == execute && this.ids == ids && this.clock == clock
    {
      this.protocolType, crashDetector, coverageCollector := protocolType, detector, collector;
      this.mutate, this.execute, this.ids, this.clock := mutate, execute, ids, clock;
    }

    ghost predicate Ready()
      reads crashDetector, coverageCollector, coverageCollector.edgeCollector, coverageCollector.featureCollector
    {
      crashDetector.Valid() && coverageCollector.Valid()
    }

    /** After some steps, the next iteration picks the case with its number, modulo the size of the corpus. */
    function NextBase(initial: seq<seq<Byte>>, steps: seq<Step>): seq<Byte>
      requires initial != []
    {
      var corpus := Corpus(initial, steps);
      corpus[|steps| % |corpus|]
    }

    function NextMutant(initial: seq<seq<Byte>>, steps: seq<Step>): Option<seq<Byte>>
      requires initial != []
    {
      mutate(NextBase(initial, steps), |steps|)
    }

    function NextStep(initial: seq<seq<Byte>>, steps: seq<Step>): Step
      requires initial != [] && NextMutant(initial, steps).Some?
    {
      var mutant := NextMutant(initial, steps).value;
      Step(NextBase(initial, steps), mutant, execute(mutant, |steps|))
    }

    /** The first `n` steps of the loop, or as many as there are before the mutator panics. */
    function RunOf(initial: seq<seq<Byte>>, n: nat): (steps: seq<Step>)
      requires initial != []
      ensures |steps| <= n
    {
      if n == 0 then []
      else
        var steps := RunOf(initial, n - 1);
        if NextMutant(initial, steps).None? then steps else steps + [NextStep(initial, steps)]
    }

    /**
     * A longer run begins with the shorter one and goes on as the loop does; a run that is shorter than asked for
     * has come to a case on which the mutator panics.
     */
    lemma {:induction false} RunPrefix(initial: seq<seq<Byte>>, k: nat, n: nat)
      requires initial != [] && k <= n
      ensures RunOf(initial, k) <= RunOf(initial, n)
      ensures k < |RunOf(initial, n)| ==>
                && |RunOf(initial, k)| == k && NextMutant(initial, RunOf(initial, k)).Some?
                && RunOf(initial, n)[k] == NextStep(initial, RunOf(initial, k))
      ensures |RunOf(initial, n)| < n ==> NextMutant(initial, RunOf(initial, n)).None?
    {
      hide NextStep, NextMutant;
      if k < n {
        RunPrefix(initial, k, n - 1);
        if k == n - 1 {
          RunIsFull(initial, k, n);
        }
      } else if n > 0 {
        RunPrefix(initial, n - 1, n - 1);
      }
    }

    lemma RunIsFull(initial: seq<seq<Byte>>, k: nat, n: nat)
      requires initial != [] && n == k + 1
      ensures k < |RunOf(initial, n)| ==>
                && |RunOf(initial, k)| == k && NextMutant(initial, RunOf(initial, k)).Some?
                && RunOf(initial, n)[k] == NextStep(initial, RunOf(initial, k))
    {
      hide NextStep, NextMutant;
    }

    /** While nothing is interesting, every initial case is picked once in each round, in order. */
    lemma {:induction false} QuietRounds(initial: seq<seq<Byte>>, round: nat, index: nat)
      requires index < |initial| <= CORPUS_LIMIT
      requires var steps := RunOf(initial, round * |initial| + index);
               |steps| == round * |initial| + index && forall i :: 0 <= i < |steps| ==> !IsInteresting(steps[i].result)
      ensures NextBase(initial, RunOf(initial, round * |initial| + index)) == initial[index]
    {
      var steps := RunOf(initial, round * |initial| + index);
      NothingInteresting(steps);
      assert initial + [] == initial;
      hide RunOf, IsInteresting, InterestingMutants;
      assert |steps| % |initial| == index by {
        ModuloOfRound(round, |initial|, index);
      }
    }

    lemma ModuloOfRound(round: nat, size: nat, index: nat)
      requires index < size
      ensures (round * size + index) % size == index
    {
      var n := round * size + index;
      var q, r := n / size, n % size;
      assert n == q * size + r;
      Multiple(round - q, size);
      Multiple(q - round, size);
      assert (round - q) * size == round * size - q * size;
    }

    lemma Multiple(k: int, size: nat)
      ensures k >= 1 ==> k * size >= size
    {
      if k >= 1 {
        assert k * size == size + (k - 1) * size;
      }
    }

    lemma {:induction false} NothingInteresting(steps: seq<Step>)
      requires forall i :: 0 <= i < |steps| ==> !IsInteresting(steps[i].result)
      ensures InterestingMutants(steps) == []
    {
      if steps != [] {
        NothingInteresting(steps[..|steps| - 1]);
      }
    }

    /** In each of the first `n` iterations there is a mutant, and the coverage collectors can digest it. */
    ghost predicate Digestible(initial: seq<seq<Byte>>, n: nat)
      requires initial != []
    {
      && |RunOf(initial, n)| == n
      && forall i :: 0 <= i < n ==> Searchable(RunOf(initial, n)[i].mutant)
    }

    /** The next iteration of a run goes through. */
    ghost predicate GoesThrough(initial: seq<seq<Byte>>, steps: seq<Step>)
      requires initial != []
    {
      NextMutant(initial, steps).Some? && Searchable(NextMutant(initial, steps).value)
    }

    lemma DigestibleStep(initial: seq<seq<Byte>>, n: nat)
      requires initial != []
      ensures Digestible(initial, n + 1) <==> Digestible(initial, n) && GoesThrough(initial, RunOf(initial, n))
    {
      hide NextMutant, Searchable;
      var steps, longer := RunOf(initial, n), RunOf(initial, n + 1);
      if |steps| == n && NextMutant(initial, steps).Some? {
        assert longer[n] == NextStep(initial, steps);
        forall i | 0 <= i < n
          ensures longer[i] == steps[i]
        {
        }
      }
    }

    /** A digestible run is one of which every iteration goes through. */
    lemma {:induction false} DigestibleRun(initial: seq<seq<Byte>>, n: nat)
      requires initial != []
      ensures Digestible(initial, n) <==> forall k :: 0 <= k < n ==> GoesThrough(initial, RunOf(initial, k))
    {
      hide Digestible, GoesThrough, RunOf;
      if n > 0 {
        DigestibleRun(initial, n - 1);
        DigestibleStep(initial, n - 1);
      } else {
        NothingToDigest(initial);
      }
    }

    lemma NothingToDigest(initial: seq<seq<Byte>>)
      requires initial != []
      ensures Digestible(initial, 0)
    {
    }

    function ReportOf(step: Step, i: nat): Report {
      Report(step.mutant, step.result.errorMessage, step.result.executionTimeMs, protocolType, ids(i), clock(i))
    }

    /** The reports of the failing steps, in order. */
    function Failures(steps: seq<Step>): seq<Report> {
      if steps == [] then []
      else
        var n := |steps| - 1;
        Failures(steps[..n]) + if steps[n].result.success then [] else [ReportOf(steps[n], n)]
    }

    /** The paths the coverage collector sees. */
    function Paths(steps: seq<Step>): seq<Path> {
      if steps == [] then []
      else
        var n := |steps| - 1;
        Paths(steps[..n]) + [coverageCollector.edgeCollector.PathOf(steps[n].mutant, steps[n].result)]
    }

    /**
     * The reports of a run, in terms of its steps: `at` lists, in increasing order, exactly the steps that failed, and
     * each report holds the mutant of its step, the message and the time of the failure, and this engine's protocol.
     */
    ghost predicate ReportsOfFailures(steps: seq<Step>, reports: seq<Report>, at: seq<nat>) {
      && |at| == |reports|
      && (forall k, l :: 0 <= k < l < |at| ==> at[k] < at[l])
      && (forall k :: 0 <= k < |at| ==> at[k] < |steps|)
      && (forall i :: 0 <= i < |steps| ==> (i in at <==> !steps[i].result.success))
      && (forall k :: 0 <= k < |at| ==>
            && reports[k].input == steps[at[k]].mutant
            && reports[k].errorMessage == steps[at[k]].result.errorMessage
            && reports[k].timeMs == steps[at[k]].result.executionTimeMs
            && reports[k].protocol == protocolType
            && reports[k].id == ids(at[k]) && reports[k].timestamp == clock(at[k]))
    }

    lemma {:induction false} FailuresAt(steps: seq<Step>) returns (at: seq<nat>)
      ensures ReportsOfFailures(steps, Failures(steps), at)
    {
      at := [];
      if steps != [] {
        var n := |steps| - 1;
        at := FailuresAt(steps[..n]);
        hide Failures, ReportsOfFailures;
        assert steps == steps[..n] + [steps[n]];
        HistoriesSnoc(steps[..n], steps[n]);
        FailuresSnoc(steps[..n], steps[n], Failures(steps[..n]), at);
        if !steps[n].result.success {
          at := at + [n];
        } else {
          assert Failures(steps[..n]) + [] == Failures(steps[..n]);
        }
      }
    }

    lemma FailuresSnoc(steps: seq<Step>, step: Step, reports: seq<Report>, at: seq<nat>)
      requires ReportsOfFailures(steps, reports, at)
      ensures step.result.success ==> ReportsOfFailures(steps + [step], reports, at)
      ensures !step.result.success ==>
                ReportsOfFailures(steps + [step], reports + [ReportOf(step, |steps|)], at + [|steps|])
    {
      var longer := steps + [step];
      assert forall i :: 0 <= i < |steps| ==> longer[i] == steps[i];
    }

    /** The distinct hashes of the mutants that failed. */
    function FailingHashes(hash: seq<Byte> -> string, steps: seq<Step>): set<string> {
      set i | 0 <= i < |steps| && !steps[i].result.success :: hash(steps[i].mutant)
    }

    lemma HashesOfFailures(hash: seq<Byte> -> string, steps: seq<Step>)
      ensures Hashes(hash, Failures(steps)) == FailingHashes(hash, steps)
    {
      var reports := Failures(steps);
      var at := FailuresAt(steps);
      hide Failures;
      forall h
        ensures h in Hashes(hash, reports) <==> h in FailingHashes(hash, steps)
      {
        if h in Hashes(hash, reports) {
          var r :| r in reports && hash(r.input) == h;
          var k :| 0 <= k < |reports| && reports[k] == r;
          assert at[k] in at;
        }
        if h in FailingHashes(hash, steps) {
          var i :| 0 <= i < |steps| && !steps[i].result.success && hash(steps[i].mutant) == h;
          assert i in at;
          var k :| 0 <= k < |at| && at[k] == i;
          assert reports[k] in reports;
        }
      }
    }

    /** The paths of a run are those of its mutants and results, one for each step. */
    lemma {:induction false} PathsAt(steps: seq<Step>)
      ensures |Paths(steps)| == |steps|
      ensures forall i :: 0 <= i < |steps| ==>
                Paths(steps)[i] == coverageCollector.edgeCollector.PathOf(steps[i].mutant, steps[i].result)
    {
      if steps != [] {
        PathsAt(steps[..|steps| - 1]);
      }
    }

    lemma HistoriesSnoc(steps: seq<Step>, step: Step)
      ensures Failures(steps + [step])
           == Failures(steps) + if step.result.success then [] else [ReportOf(step, |steps|)]
      ensures Paths(steps + [step]) == Paths(steps) + [coverageCollector.edgeCollector.PathOf(step.mutant, step.result)]
    {
      assert (steps + [step])[..|steps|] == steps;
    }

    /** What the loop maintains about corpus and detector, relative to the reports at its start. */
    ghost predicate Progress(initial: seq<seq<Byte>>, n: nat, testCases: seq<seq<Byte>>, crashesFound: nat,
                             reports: seq<Report>)
      requires initial != []
      reads crashDetector
    {
      var steps := RunOf(initial, n);
      && crashDetector.Valid() && testCases == Corpus(initial, steps)
      && crashDetector.reports == reports + Failures(steps)
      && crashesFound == if Failures(steps) == [] then 0 else |Hashes(crashDetector.hash, crashDetector.reports)|
    }

    /** The coverage collectors have seen the first `n` cases, on top of what they had seen before. */
    ghost predicate Covered(initial: seq<seq<Byte>>, n: nat, count: nat, trace: seq<Path>)
      requires initial != []
      reads coverageCollector, coverageCollector.edgeCollector
    {
      && coverageCollector.executionCount == count + n
      && coverageCollector.edgeCollector.trace == trace + Paths(RunOf(initial, n))
    }

    /**
     * The campaign completes if and only if every iteration of the run has a mutant, and one that does not make the
     * feature collector panic. Otherwise it ends at the first iteration without. If the mutator panics, nothing is
     * counted or recorded in that iteration. If the collector panics, the execution is counted and its path recorded,
     * but it is not handed to the detector, even if it failed. The cases before are treated as in a campaign that
     * completes.
     *
     * A detector that starts empty ends with the number of distinct input hashes among the failing cases, and with
     * as many unique as total crashes for its protocol.
     */
    method RunFuzzingCampaign(iterations: nat, initial: seq<seq<Byte>>)
      returns (ending: Ending, totalExecutions: nat, crashesFound: nat, testCases: seq<seq<Byte>>, ghost at: seq<nat>)
      requires Ready() && 0 < |initial| <= 2 * INITIAL_CASES
      modifies crashDetector, coverageCollector, coverageCollector.edgeCollector, coverageCollector.featureCollector
      ensures ending.Completed? <==> Digestible(initial, iterations)
      ensures if ending.Completed? then totalExecutions == iterations else totalExecutions < iterations
      ensures Digestible(initial, totalExecutions)
      ensures !ending.Completed? ==> ending == EndingAt(initial, RunOf(initial, totalExecutions))
      ensures !ending.CollectorPanicked? ==> Ready()
      ensures Progress(initial, totalExecutions, testCases, crashesFound, old(crashDetector.reports))
      ensures Covered(initial, if ending.CollectorPanicked? then totalExecutions + 1 else totalExecutions,
                      old(coverageCollector.executionCount), old(coverageCollector.edgeCollector.trace))
      ensures |crashDetector.reports| >= |old(crashDetector.reports)|
      ensures ReportsOfFailures(RunOf(initial, totalExecutions),
                                crashDetector.reports[|old(crashDetector.reports)|..], at)
      ensures old(crashDetector.reports) == [] ==>
                var stats := crashDetector.StatsOf(protocolType);
                crashesFound == |FailingHashes(crashDetector.hash, RunOf(initial, totalExecutions))|
                == stats.totalCrashes == stats.uniqueCrashes
      ensures old(crashDetector.reports) == [] ==>
                var steps := RunOf(initial, totalExecutions);
                crashesFound
                == |set i | 0 <= i < |steps| && !steps[i].result.success :: crashDetector.hash(steps[i].mutant)|
    {
      hide Digestible, EndingAt, Progress, Covered, Ready, RunOf;
      ghost var count, trace := coverageCollector.executionCount, coverageCollector.edgeCollector.trace;
      ghost var reports := crashDetector.reports;
      StartOfRun(initial);
      testCases, totalExecutions, crashesFound, ending := initial, 0, 0, Completed;
      while ending.Completed? && totalExecutions < iterations
        invariant totalExecutions <= iterations && Digestible(initial, totalExecutions)
        invariant Progress(initial, totalExecutions, testCases, crashesFound, reports)
        invariant !ending.CollectorPanicked? ==> Ready()
        invariant Covered(initial, if ending.CollectorPanicked? then totalExecutions + 1 else totalExecutions,
                          count, trace)
        invariant !ending.Completed? ==>
                    totalExecutions < iterations && ending == EndingAt(initial, RunOf(initial, totalExecutions))
        decreases iterations - totalExecutions, ending.Completed?
      {
        EndingIsExact(initial, totalExecutions);
        DigestibleIsFull(initial, totalExecutions);
        ending, testCases, crashesFound :=
          Iterate(totalExecutions, testCases, crashesFound, initial, count, trace, reports);
        if ending.Completed? {
          totalExecutions := totalExecutions + 1;
        }
      }
      EndOfRun(initial, iterations, totalExecutions, ending);
      at := NewReports(initial, totalExecutions, testCases, crashesFound, reports);
      if reports == [] {
        FreshDetector(initial, totalExecutions, testCases, crashesFound);
      }
    }

    /** How the next iteration of a run ends. */
    ghost function EndingAt(initial: seq<seq<Byte>>, steps: seq<Step>): Ending
      requires initial != []
    {
      if NextMutant(initial, steps).None? then MutatorPanicked
      else if !Searchable(NextMutant(initial, steps).value) then CollectorPanicked
      else Completed
    }

    lemma EndingIsExact(initial: seq<seq<Byte>>, n: nat)
      requires initial != [] && Digestible(initial, n)
      ensures Digestible(initial, n + 1) <==> EndingAt(initial, RunOf(initial, n)).Completed?
    {
      hide Digestible;
      DigestibleStep(initial, n);
    }

    lemma StartOfRun(initial: seq<seq<Byte>>)
      requires initial != [] && |initial| <= CORPUS_LIMIT && Ready()
      ensures Digestible(initial, 0)
      ensures Progress(initial, 0, initial, 0, crashDetector.reports)
      ensures Covered(initial, 0, coverageCollector.executionCount, coverageCollector.edgeCollector.trace)
    {
      assert initial + [] == initial;
    }

    lemma DigestibleIsFull(initial: seq<seq<Byte>>, n: nat)
      requires initial != [] && Digestible(initial, n)
      ensures |RunOf(initial, n)| == n
    {
    }

    /** Where the loop stopped decides whether the whole run is digestible. */
    lemma EndOfRun(initial: seq<seq<Byte>>, iterations: nat, n: nat, ending: Ending)
      requires initial != [] && n <= iterations && Digestible(initial, n)
      requires if ending.Completed? then n == iterations
               else n < iterations && ending == EndingAt(initial, RunOf(initial, n))
      ensures ending.Completed? <==> Digestible(initial, iterations)
    {
      DigestibleRun(initial, iterations);
      hide Digestible, RunOf, NextMutant, Searchable;
    }

    /** The reports that a campaign has added. */
    lemma NewReports(initial: seq<seq<Byte>>, n: nat, testCases: seq<seq<Byte>>, crashesFound: nat,
                     reports: seq<Report>) returns (at: seq<nat>)
      requires initial != [] && Progress(initial, n, testCases, crashesFound, reports)
      ensures |crashDetector.reports| >= |reports|
      ensures ReportsOfFailures(RunOf(initial, n), crashDetector.reports[|reports|..], at)
    {
      var steps := RunOf(initial, n);
      at := FailuresAt(steps);
      assert (reports + Failures(steps))[|reports|..] == Failures(steps);
    }

    /** A detector that knows only this campaign. */
    lemma FreshDetector(initial: seq<seq<Byte>>, n: nat, testCases: seq<seq<Byte>>, crashesFound: nat)
      requires initial != [] && Progress(initial, n, testCases, crashesFound, [])
      ensures var stats := crashDetector.StatsOf(protocolType);
              crashesFound == |FailingHashes(crashDetector.hash, RunOf(initial, n))|
              == stats.totalCrashes == stats.uniqueCrashes
    {
      var steps := RunOf(initial, n);
      assert [] + Failures(steps) == Failures(steps);
      assert Hashes(crashDetector.hash, []) == {};
      OwnReports(steps);
      HashesOfFailures(crashDetector.hash, steps);
      crashDetector.OwnCrashesOnly(protocolType);
    }

    lemma {:induction false} OwnReports(steps: seq<Step>)
      ensures forall i :: 0 <= i < |Failures(steps)| ==> Failures(steps)[i].protocol == protocolType
    {
      if steps != [] {
        OwnReports(steps[..|steps| - 1]);
      }
    }

    /** What one more step does to everything derived from the run. */
    lemma RunGrows(initial: seq<seq<Byte>>, n: nat)
      requires initial != [] && |RunOf(initial, n)| == n && NextMutant(initial, RunOf(initial, n)).Some?
      ensures var steps, longer := RunOf(initial, n), RunOf(initial, n + 1);
              var step := NextStep(initial, steps);
              && step.base == NextBase(initial, steps)
              && step.mutant == NextMutant(initial, steps).value && step.result == execute(step.mutant, n)
              && (step.result.success ==> Failures(longer) == Failures(steps))
              && (!step.result.success ==> Failures(longer) == Failures(steps) + [ReportOf(step, n)])
              && Paths(longer) == Paths(steps) + [coverageCollector.edgeCollector.PathOf(step.mutant, step.result)]
              && Corpus(initial, longer) == Kept(Corpus(initial, steps), step.mutant, step.result)
    {
      var steps := RunOf(initial, n);
      HistoriesSnoc(steps, NextStep(initial, steps));
      CorpusStep(initial, steps, NextStep(initial, steps));
      hide Corpus, Failures, Paths, EdgeCoverageCollector.PathOf, ReportOf;
    }

    /** The body of the loop, in one iteration. A panic leaves corpus and detector as they are. */
    method Iterate(iteration: nat, testCases: seq<seq<Byte>>, crashesFound: nat, ghost initial: seq<seq<Byte>>,
                   ghost count: nat, ghost trace: seq<Path>, ghost reports: seq<Report>)
      returns (ending: Ending, kept: seq<seq<Byte>>, found: nat)
      requires initial != [] && Ready() && |RunOf(initial, iteration)| == iteration
      requires Progress(initial, iteration, testCases, crashesFound, reports)
      requires Covered(initial, iteration, count, trace)
      modifies crashDetector, coverageCollector, coverageCollector.edgeCollector, coverageCollector.featureCollector
      ensures ending == EndingAt(initial, RunOf(initial, iteration))
      ensures Progress(initial, if ending.Completed? then iteration + 1 else iteration, kept, found, reports)
      ensures !ending.CollectorPanicked? ==> Ready()
      ensures Covered(initial, if ending.MutatorPanicked? then iteration else iteration + 1, count, trace)
    {
      hide Corpus, Failures, Paths, RunOf, NextStep, Kept, Hashes, EdgeCoverageCollector.PathOf, ReportOf, Searchable,
           CrashDetector.Valid, CompositeCoverageCollector.Valid;
      var baseCase := testCases[iteration % |testCases|];
      var mutated := mutate(baseCase, iteration);
      assert mutated == NextMutant(initial, RunOf(initial, iteration));
      kept, found := testCases, crashesFound;
      if mutated.None? {
        return MutatorPanicked, kept, found;
      }
      RunGrows(initial, iteration);
      var mutatedCase := mutated.value;
      var completed, result;
      completed, result, found := RunCase(baseCase, mutatedCase, iteration, crashesFound);
      ending := if completed then Completed else CollectorPanicked;
      if completed {
        kept := Keep(testCases, mutatedCase, result);
        assert crashDetector.reports == reports + Failures(RunOf(initial, iteration + 1));
      }
    }

    /** The middle of an iteration: execute, record coverage, and hand a failing case to the detector. */
    method RunCase(baseCase: seq<Byte>, mutatedCase: seq<Byte>, iteration: nat, soFar: nat)
      returns (completed: bool, result: ExecutionResult, crashesFound: nat)
      requires Ready()
      modifies crashDetector, coverageCollector, coverageCollector.edgeCollector, coverageCollector.featureCollector
      ensures result == execute(mutatedCase, iteration) && (completed <==> Searchable(mutatedCase))
      ensures crashDetector.Valid() && (completed ==> Ready())
      ensures coverageCollector.executionCount == old(coverageCollector.executionCount) + 1
      ensures coverageCollector.edgeCollector.trace
           == old(coverageCollector.edgeCollector.trace) + [coverageCollector.edgeCollector.PathOf(mutatedCase, result)]
      ensures crashDetector.reports
           == if result.success || !completed then old(crashDetector.reports)
              else old(crashDetector.reports) + [ReportOf(Step(baseCase, mutatedCase, result), iteration)]
      ensures completed && !result.success ==>
                && |crashDetector.reports| == |old(crashDetector.reports)| + 1
                && var r := crashDetector.reports[|old(crashDetector.reports)|];
                   && r.input == mutatedCase && r.errorMessage == result.errorMessage
                   && r.timeMs == result.executionTimeMs && r.protocol == protocolType
      ensures crashesFound == if result.success || !completed then soFar
                              else |Hashes(crashDetector.hash, crashDetector.reports)|
    {
      hide Hashes, Searchable, CrashDetector.Valid, CompositeCoverageCollector.Valid, EdgeCoverageCollector.PathOf;
      result := execute(mutatedCase, iteration);
      ghost var isNew;
      completed, isNew := coverageCollector.RecordExecution(mutatedCase, result, clock(iteration));
      crashesFound := soFar;
      if completed && !result.success {
        crashDetector.RecordCrash(ReportOf(Step(baseCase, mutatedCase, result), iteration));
        crashesFound := crashDetector.CrashCount();
      }
    }

    /** The end of an iteration: interesting cases join the corpus, and the oldest case leaves an overfull one. */
    method Keep(testCases: seq<seq<Byte>>, mutatedCase: seq<Byte>, result: ExecutionResult)
      returns (kept: seq<seq<Byte>>)
      ensures kept == Kept(testCases, mutatedCase, result)
    {
      kept := testCases;
      if IsInteresting(result) {
        kept := kept + [mutatedCase];
        if |kept| > CORPUS_LIMIT {
          kept := kept[1..];
        }
      }
    }
  }
}
