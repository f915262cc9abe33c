/** The feature collector: how often each named feature was seen, and the outcome features in particular. */
module FeatureCoverage {
  import opened Bytes
  import opened Wrappers
  import opened Execution
  import opened Histograms
  import opened EdgeCoverage
  import opened Repetition

  const SUCCESS: string := "execution_success"
  const FAILURE: string := "execution_failure"
  const REPEATED: string := "has_repeated_patterns"

  /** The names that only the outcome of an execution may use. */
  predicate Reserved(feature: string) { "execution_" <= feature }

  function SizeCategory(size: nat): string {
    if size == 0 then "empty" else if size <= 10 then "tiny" else if size <= 100 then "small"
    else if size <= 1000 then "medium" else if size <= 10000 then "large" else "huge"
  }

  /** Exactly when a size falls into which category. */
  lemma SizeCategories(size: nat)
    ensures SizeCategory(size) == "empty" <==> size == 0
    ensures SizeCategory(size) == "tiny" <==> 1 <= size <= 10
    ensures SizeCategory(size) == "small" <==> 10 < size <= 100
    ensures SizeCategory(size) == "medium" <==> 100 < size <= 1000
    ensures SizeCategory(size) == "large" <==> 1000 < size <= 10000
    ensures SizeCategory(size) == "huge" <==> 10000 < size
  {
    assert "empty"[0] == 'e' && "small"[0] == 's' && "large"[0] == 'l' && "tiny"[0] == 't' && "huge"[0] == 'h';
  }

  /** `categorize_error` on a message already in lower case. */
  function CategorizeError(lower: string): string {
    if Contains(lower, "connection") then "connection"
    else if Contains(lower, "timeout") then "timeout"
    else if Contains(lower, "parse") then "parse"
    else if Contains(lower, "protocol") then "protocol"
    else "unknown"
  }

  /** Exactly when a message falls into which category. */
  lemma ErrorKinds(m: string)
    ensures CategorizeError(m) == "connection" <==> Contains(m, "connection")
    ensures CategorizeError(m) == "timeout" <==> Contains(m, "timeout") && !Contains(m, "connection")
    ensures CategorizeError(m) == "parse" <==>
            Contains(m, "parse") && !Contains(m, "connection") && !Contains(m, "timeout")
    ensures CategorizeError(m) == "unknown" <==>
            forall w :: w in {"connection", "timeout", "parse", "protocol"} ==> !Contains(m, w)
    ensures CategorizeError(m) == "protocol" ==> Contains(m, "protocol")
  {
    hide Contains;
    assert "connection"[0] == 'c' && "timeout"[0] == 't' && "unknown"[0] == 'u' && "parse"[1] == 'a'
           && "protocol"[1] == 'r';
  }

  function TimingFeature(ms: nat): (feature: string)
    ensures !Reserved(feature)
  {
    assert ("timing_" + TimeCategory(ms))[0] == 't' && "execution_"[0] == 'e';
    "timing_" + TimeCategory(ms)
  }

  function ErrorFeature(lower: string): (feature: string)
    ensures !Reserved(feature)
  {
    assert ("error_" + CategorizeError(lower))[1] == 'r' && "execution_"[1] == 'x';
    "error_" + CategorizeError(lower)
  }

  function ResponseFeatures(hex: Byte -> string, responseData: Option<seq<Byte>>): (features: seq<string>)
    ensures forall f :: f in features ==> !Reserved(f)
  {
    match responseData
    case None => ["no_response"]
    case Some(response) =>
      var size := "response_size_" + SizeCategory(|response|);
      assert size[0] == 'r' && "execution_"[0] == 'e';
      if response == [] then [size]
      else
        var first := "response_first_byte_" + hex(response[0]);
        assert first[0] == 'r';
        [size, first]
  }

  /** The features the generic extractor derives from an outcome, behind the success or failure feature. */
  function OutcomeDetails(toLower: string -> string, hex: Byte -> string, result: ExecutionResult)
    : (features: seq<string>)
    ensures forall f :: f in features ==> !Reserved(f)
  {
    [TimingFeature(result.executionTimeMs)]
    + ResponseFeatures(hex, result.responseData)
    + if result.errorMessage.Some? then [ErrorFeature(toLower(result.errorMessage.value))] else []
  }

  /** The details one by one. */
  lemma ExplicitDetails(toLower: string -> string, hex: Byte -> string, result: ExecutionResult)
    ensures OutcomeDetails(toLower, hex, result)
         == ["timing_" + TimeCategory(result.executionTimeMs)]
            + (match result.responseData
               case None => ["no_response"]
               case Some(r) =>
                 ["response_size_" + SizeCategory(|r|)] + if r == [] then [] else ["response_first_byte_" + hex(r[0])])
            + if result.errorMessage.Some? then ["error_" + CategorizeError(toLower(result.errorMessage.value))] else []
  {
    hide TimeCategory, SizeCategory, CategorizeError;
  }

  function Successes(results: seq<ExecutionResult>): nat {
    if results == [] then 0
    else Successes(results[..|results| - 1]) + if results[|results| - 1].success then 1 else 0
  }

  lemma SuccessesSnoc(results: seq<ExecutionResult>, r: ExecutionResult)
    ensures Successes(results + [r]) == Successes(results) + if r.success then 1 else 0
  {
    assert (results + [r])[..|results|] == results;
  }

  /** The outcome features among the recorded ones count the successes and the failures. */
  ghost predicate OutcomesCounted(recorded: seq<string>, results: seq<ExecutionResult>) {
    && multiset(recorded)[SUCCESS] == Successes(results)
    && multiset(recorded)[SUCCESS] + multiset(recorded)[FAILURE] == |results|
  }

  lemma OutcomesStep(recorded: seq<string>, results: seq<ExecutionResult>, features: seq<string>, r: ExecutionResult)
    requires OutcomesCounted(recorded, results)
    requires multiset(features)[SUCCESS] == if r.success then 1 else 0
    requires multiset(features)[FAILURE] == if r.success then 0 else 1
    ensures OutcomesCounted(recorded + features, results + [r])
  {
    SuccessesSnoc(results, r);
    hide Successes;
  }

  /** In a list whose other names are not reserved, a reserved name occurs exactly where it is put. */
  lemma MiddleCount(before: seq<string>, middle: string, details: seq<string>, behind: seq<string>, name: string)
    requires Reserved(name) && forall f :: f in before + details + behind ==> !Reserved(f)
    ensures multiset(before + ([middle] + details) + behind)[name] == if middle == name then 1 else 0
  {
    hide Reserved;
    assert name !in before && name !in details && name !in behind;
    assert multiset(before)[name] == multiset(details)[name] == multiset(behind)[name] == 0;
  }

  class FeatureCoverageCollector {
    /**
     * Lower-casing, hexadecimal formatting, what the generic extractor says of an input before it looks for
     * repetition, and the extractors of the protocol: arbitrary functions.
     */
    const toLower: string -> string
    const hex: Byte -> string
    const leadingFeatures: seq<Byte> -> seq<string>
    const protocolFeatures: (seq<Byte>, ExecutionResult) -> seq<string>

    var featureMap: map<string, nat>
    var totalExecutions: nat
    var newFeaturesFound: bool
    var lastFeatureCount: nat

    /** Everything recorded since construction or the last reset. */
    ghost var results: seq<ExecutionResult>
    ghost var recorded: seq<string>

    /** The other extractors name their features differently. */
    ghost predicate OthersUnreserved() {
      && (forall d, f :: f in leadingFeatures(d) ==> !Reserved(f))
      && (forall d, r, f :: f in protocolFeatures(d, r) ==> !Reserved(f))
    }

    ghost predicate Valid()
      reads this
    {
      && OthersUnreserved()
      && featureMap == Histogram(recorded)
      && totalExecutions == |results|
      && (newFeaturesFound <==> results != [])
      && lastFeatureCount == 0
      && (recorded == [] <==> results == [])
      && OutcomesCounted(recorded, results)
    }

    constructor (toLower: string -> string, hex: Byte -> string, leadingFeatures: seq<Byte> -> seq<string>,
                 protocolFeatures: (seq<Byte>, ExecutionResult) -> seq<string>)
      requires forall d, f :: f in leadingFeatures(d) ==> !Reserved(f)
      requires forall d, r, f :: f in protocolFeatures(d, r) ==> !Reserved(f)
      ensures Valid() && results == []
    {
      this.toLower, this.hex := toLower, hex;
      this.leadingFeatures, this.protocolFeatures := leadingFeatures, protocolFeatures;
      featureMap, totalExecutions, newFeaturesFound, lastFeatureCount := map[], 0, false, 0;
      results, recorded := [], [];
    }

    ghost function InputFeatures(input: seq<Byte>): seq<string> {
      leadingFeatures(input) + if Repeats(input, 2) then [REPEATED] else []
    }

    ghost function FeaturesOf(input: seq<Byte>, result: ExecutionResult): (features: seq<string>)
      ensures features != []
    {
      InputFeatures(input)
      + ([if result.success then SUCCESS else FAILURE] + OutcomeDetails(toLower, hex, result))
      + protocolFeatures(input, result)
    }

    /** All extractors, one after the other. `None` is the panic in the search for repetition. */
    method ExtractAllFeatures(input: seq<Byte>, result: ExecutionResult) returns (features: Option<seq<string>>)
      ensures features == if Searchable(input) then Some(FeaturesOf(input, result)) else None
    {
      hide OutcomeDetails, Repeats, Searchable;
      var repeated := HasRepeatedBytes(input);
      if repeated.None? {
        return None;
      }
      var all := leadingFeatures(input);
      all := all + if repeated.value then [REPEATED] else [];
      all := all + ([if result.success then SUCCESS else FAILURE] + OutcomeDetails(toLower, hex, result));
      features := Some(all + protocolFeatures(input, result));
    }

    /** The features of an execution, one by one and in order. */
    lemma FeaturesInOrder(input: seq<Byte>, result: ExecutionResult)
      ensures FeaturesOf(input, result)
           == leadingFeatures(input) + (if Repeats(input, 2) then ["has_repeated_patterns"] else [])
              + ([if result.success then "execution_success" else "execution_failure"]
                 + (["timing_" + TimeCategory(result.executionTimeMs)]
                    + (match result.responseData
                       case None => ["no_response"]
                       case Some(r) =>
                         ["response_size_" + SizeCategory(|r|)]
                         + if r == [] then [] else ["response_first_byte_" + hex(r[0])])
                    + if result.errorMessage.Some?
                      then ["error_" + CategorizeError(toLower(result.errorMessage.value))] else []))
              + protocolFeatures(input, result)
    {
      ExplicitDetails(toLower, hex, result);
      hide OutcomeDetails, Repeats, TimeCategory, SizeCategory, CategorizeError;
    }

    /** How often a feature is recorded: by the input, the outcome and its details, and the protocol's extractors. */
    lemma FeatureHits(input: seq<Byte>, result: ExecutionResult, f: string)
      ensures multiset(FeaturesOf(input, result))[f]
           == multiset(leadingFeatures(input))[f] + (if Repeats(input, 2) && f == REPEATED then 1 else 0)
              + (if f == (if result.success then SUCCESS else FAILURE) then 1 else 0)
              + multiset(OutcomeDetails(toLower, hex, result))[f] + multiset(protocolFeatures(input, result))[f]
    {
      hide OutcomeDetails, Repeats;
    }

    /** An execution contributes exactly one of the two outcome features, once. */
    lemma OneOutcome(input: seq<Byte>, result: ExecutionResult)
      requires OthersUnreserved()
      ensures var m := multiset(FeaturesOf(input, result));
              m[SUCCESS] == (if result.success then 1 else 0) && m[FAILURE] == (if result.success then 0 else 1)
    {
      var before, behind := InputFeatures(input), protocolFeatures(input, result);
      var details, outcome := OutcomeDetails(toLower, hex, result), if result.success then SUCCESS else FAILURE;
      assert SUCCESS[10] != FAILURE[10] && !Reserved(REPEATED) by {
        assert REPEATED[0] == 'h' && "execution_"[0] == 'e';
      }
      hide Reserved, OutcomeDetails, Repeats;
      MiddleCount(before, outcome, details, behind, SUCCESS);
      MiddleCount(before, outcome, details, behind, FAILURE);
    }

    /**
     * An execution whose input is not searchable is never recorded: the extraction panics after the counter of
     * executions was increased and before any feature is counted.
     */
    method RecordExecution(input: seq<Byte>, result: ExecutionResult) returns (completed: bool)
      requires Valid()
      modifies this
      ensures completed <==> Searchable(input)
      ensures completed ==>
                Valid() && results == old(results) + [result] && recorded == old(recorded) + FeaturesOf(input, result)
      ensures completed ==>
                forall f ::
                  CountIn(featureMap, f) == CountIn(old(featureMap), f) + multiset(FeaturesOf(input, result))[f]
      ensures !completed ==>
                && totalExecutions == old(totalExecutions) + 1 && results == old(results) && recorded == old(recorded)
                && featureMap == old(featureMap) && newFeaturesFound == old(newFeaturesFound)
    {
      hide FeaturesOf, Histogram, Searchable, CountIn, OutcomesCounted;
      totalExecutions := totalExecutions + 1;
      var extracted := ExtractAllFeatures(input, result);
      if extracted.None? {
        return false;
      }
      CountFeatures(extracted.value);
      OneOutcome(input, result);
      OutcomesStep(recorded, results, extracted.value, result);
      results, recorded := results + [result], recorded + extracted.value;
      completed := true;
    }

    lemma CountsAdd(before: seq<string>, more: seq<string>)
      ensures forall f :: CountIn(Histogram(before + more), f) == CountIn(Histogram(before), f) + multiset(more)[f]
    {
      hide Histogram, CountIn;
      forall f
        ensures CountIn(Histogram(before + more), f) == CountIn(Histogram(before), f) + multiset(more)[f]
      {
        HistogramCounts(before, f);
        HistogramCounts(before + more, f);
      }
    }

    method CountFeatures(features: seq<string>)
      requires featureMap == Histogram(recorded) && (newFeaturesFound <==> recorded != []) && features != []
      modifies this`featureMap, this`newFeaturesFound
      ensures featureMap == Histogram(recorded + features) && newFeaturesFound
      ensures forall f :: CountIn(featureMap, f) == CountIn(old(featureMap), f) + multiset(features)[f]
    {
      hide Histogram, CountIn;
      CountsAdd(recorded, features);
      var newFeaturesDiscovered;
      featureMap, newFeaturesDiscovered := CountAll(featureMap, recorded, features);
      if newFeaturesDiscovered {
        newFeaturesFound := true;
      }
      assert features[0] in features;
    }

    function CoveredFeatures(): nat
      reads this
    {
      |set f | f in featureMap && featureMap[f] > 0|
    }

    /** As for edges: every known feature is covered, and the flag is set from the first execution on. */
    method GetCoverageStats() returns (stats: CoverageStats)
      requires Valid()
      ensures stats == CoverageStats(|results|, |featureMap|, if results == [] then 0.0 else 100.0, results != [])
    {
      var total, covered := |featureMap|, CoveredFeatures();
      AllFeaturesCovered();
      FullPercentage(total);
      hide Percentage;
      var percentage := Percentage(covered, total);
      stats := CoverageStats(totalExecutions, covered, percentage, newFeaturesFound);
    }

    lemma AllFeaturesCovered()
      requires Valid()
      ensures CoveredFeatures() == |featureMap|
      ensures |featureMap| == 0 <==> results == []
    {
      HistogramPositive(recorded);
      assert (set f | f in featureMap && featureMap[f] > 0) == featureMap.Keys;
      if results != [] {
        HistogramCounts(recorded, recorded[0]);
        assert recorded[0] in featureMap.Keys;
      }
    }

    /** The outcome features count successes and failures, and together every execution. */
    lemma OutcomesAddUp()
      requires Valid()
      ensures CountIn(featureMap, SUCCESS) == Successes(results)
      ensures CountIn(featureMap, SUCCESS) + CountIn(featureMap, FAILURE) == totalExecutions
    {
      HistogramCounts(recorded, SUCCESS);
      HistogramCounts(recorded, FAILURE);
    }

    /** As for paths; `n` is the number of features recorded up to the last check. */
    method HasNewCoverage() returns (b: bool)
      requires Valid()
      ensures b <==> results != []
      ensures forall n: nat :: n <= |recorded| ==> ((b <==> NewSince(recorded, n)) <==> n == 0 || NewSince(recorded, n))
    {
      AllFeaturesCovered();
      if recorded != [] {
        assert recorded[0] !in recorded[..0];
      }
      b := |featureMap| > lastFeatureCount;
    }

    method Reset()
      requires Valid()
      modifies this
      ensures Valid() && results == []
    {
      featureMap, totalExecutions, newFeaturesFound, lastFeatureCount := map[], 0, false, 0;
      results, recorded := [], [];
    }
  }
}
