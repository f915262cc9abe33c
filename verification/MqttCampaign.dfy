/** MQTT campaigns: their initial cases, when their mutator panics, and inputs that end them. */
module MqttCampaign {
  import opened Bytes
  import opened Wrappers
  import opened Draws
  import opened Repetition
  import opened MqttMutation
  import opened Campaign
  import RemainingLength
  import MqttDecoders
  import MqttPackets
  import MqttGenerators
  import MqttCorruption
  import MqttMalformed

  // ---------------------------------------------------------------- the mutator of an MQTT campaign

  /** The engine mutates as `MutatePacket` does, with `draws(i)` for the draws of iteration `i`. */
  ghost predicate MutatesMqtt(e: FuzzingEngine, draws: nat -> Draw) {
    forall base, i :: MutationOf(draws(i), 0, base, e.mutate(base, i))
  }

  /** The mutator panics exactly on an empty case for which the unguarded pattern is drawn. */
  lemma MutatorPanics(e: FuzzingEngine, draws: nat -> Draw, initial: seq<seq<Byte>>, steps: seq<Step>)
    requires initial != [] && MutatesMqtt(e, draws)
    ensures e.NextMutant(initial, steps).None? <==>
            e.NextBase(initial, steps) == [] && PicksUnguarded(draws(|steps|), 0)
  {
    hide MutationOf, PicksUnguarded, Corpus;
    var base := e.NextBase(initial, steps);
    PanicsOnEmpty(draws(|steps|), 0, base, e.mutate(base, |steps|));
  }

  /** Exactly when an MQTT campaign can go through `n` iterations. */
  lemma MqttDigestible(e: FuzzingEngine, draws: nat -> Draw, initial: seq<seq<Byte>>, n: nat)
    requires initial != [] && MutatesMqtt(e, draws)
    ensures e.Digestible(initial, n) <==>
            forall k :: 0 <= k < n ==>
              var steps := e.RunOf(initial, k);
              && (e.NextBase(initial, steps) == [] ==> !PicksUnguarded(draws(|steps|), 0))
              && (e.NextMutant(initial, steps).Some? ==> Searchable(e.NextMutant(initial, steps).value))
  {
    e.DigestibleRun(initial, n);
    hide FuzzingEngine.NextBase, FuzzingEngine.NextMutant, Searchable, PicksUnguarded, MutatesMqtt,
         FuzzingEngine.Digestible, FuzzingEngine.RunOf;
    forall k | 0 <= k < n
      ensures var steps := e.RunOf(initial, k);
              e.GoesThrough(initial, steps) <==>
              && (e.NextBase(initial, steps) == [] ==> !PicksUnguarded(draws(|steps|), 0))
              && (e.NextMutant(initial, steps).Some? ==> Searchable(e.NextMutant(initial, steps).value))
    {
      MutatorPanics(e, draws, initial, e.RunOf(initial, k));
    }
  }

  /**
   * If no initial case is empty, as no generated one is, an empty case comes from the deletion of the last byte of
   * an earlier one whose mutant was kept.
   */
  lemma {:induction false} EmptyCaseComesFromDeletion(
    e: FuzzingEngine, draws: nat -> Draw, initial: seq<seq<Byte>>, n: nat) returns (i: nat)
    requires initial != [] && [] !in initial && MutatesMqtt(e, draws)
    requires e.NextBase(initial, e.RunOf(initial, n)) == []
    ensures var steps := e.RunOf(initial, n);
            && i < |steps| && |steps[i].base| == 1 && steps[i].mutant == [] && IsInteresting(steps[i].result)
            && KindOfMutation(draws(i), 0) == DELETION
    decreases n
  {
    var steps := e.RunOf(initial, n);
    i := CorpusMember(initial, steps, []);
    e.RunPrefix(initial, i, n);
    var before := e.RunOf(initial, i);
    hide FuzzingEngine.RunOf, MutationOf, Corpus, IsInteresting, KindOfMutation;
    if steps[i].base == [] {
      i := EmptyCaseComesFromDeletion(e, draws, initial, i);
      assert steps[i] == before[i];
    } else {
      assert e.mutate(steps[i].base, i) == Some(steps[i].mutant);
      EmptyMutant(draws(i), 0, steps[i].base, e.mutate(steps[i].base, i));
    }
  }

  /** Draws that delete a byte in each of two iterations, and then pick the unguarded pattern. */
  function EmptyingDraws(i: nat): Draw {
    if i < 2 then (k: nat) => Some(if k == 0 then DELETION else 1)
    else (k: nat) => Some(if k == 0 then MALFORMED else 8)
  }

  /** The same from a PINGREQ, if the target answers both mutants: two iterations go through, and the third panics. */
  lemma EmptiedPingReq(e: FuzzingEngine, initial: seq<seq<Byte>>)
    requires initial == [MqttPackets.Wire(MqttPackets.PingReq)] && MutatesMqtt(e, EmptyingDraws)
    requires IsInteresting(e.execute([0xC0], 0)) && IsInteresting(e.execute([], 1))
    ensures e.Digestible(initial, 2) && e.EndingAt(initial, e.RunOf(initial, 2)).MutatorPanicked?
    ensures !e.Digestible(initial, 3)
  {
    assert RemainingLength.Encode(0) == [0] && MqttPackets.Wire(MqttPackets.PingReq) == [0xC0, 0];
    EmptyingMutations(e);
    hide FuzzingEngine.RunOf, FuzzingEngine.Digestible, MutationOf, IsInteresting;
    EmptiedRun(e, initial);
    e.DigestibleStep(initial, 2);
  }

  lemma EmptyingMutations(e: FuzzingEngine)
    requires MutatesMqtt(e, EmptyingDraws)
    ensures e.mutate([0xC0, 0], 0) == Some([0xC0]) && e.mutate([0xC0], 1) == Some([]) && e.mutate([], 2) == None
  {
    hide BitFlipped, Inserted, Added, MqttCorruption.Effect, MqttCorruption.PATTERNS;
    assert MutationOf(EmptyingDraws(0), 0, [0xC0, 0], e.mutate([0xC0, 0], 0));
    assert Deleted(EmptyingDraws(0), 1, [0xC0, 0]) == [0xC0];
    assert MutationOf(EmptyingDraws(1), 0, [0xC0], e.mutate([0xC0], 1));
    assert Deleted(EmptyingDraws(1), 1, [0xC0]) == [];
    assert MutationOf(EmptyingDraws(2), 0, [], e.mutate([], 2));
    UnguardedDraws();
    PanicsOnEmpty(EmptyingDraws(2), 0, [], e.mutate([], 2));
  }

  lemma UnguardedDraws()
    ensures PicksUnguarded(EmptyingDraws(2), 0)
  {
  }

  lemma EmptiedRun(e: FuzzingEngine, initial: seq<seq<Byte>>)
    requires initial == [[0xC0, 0]]
    requires e.mutate([0xC0, 0], 0) == Some([0xC0]) && e.mutate([0xC0], 1) == Some([]) && e.mutate([], 2) == None
    requires IsInteresting(e.execute([0xC0], 0)) && IsInteresting(e.execute([], 1))
    ensures e.Digestible(initial, 2) && e.NextMutant(initial, e.RunOf(initial, 2)) == None
  {
    hide IsInteresting;
    var first := Step([0xC0, 0], [0xC0], e.execute([0xC0], 0));
    var second := Step([0xC0], [], e.execute([], 1));
    assert Corpus(initial, []) == initial;
    CorpusStep(initial, [], first);
    assert [] + [first] == [first];
    CorpusStep(initial, [first], second);
    assert [first] + [second] == [first, second];
    assert e.RunOf(initial, 0) == [];
    assert e.RunOf(initial, 1) == [first];
    assert e.RunOf(initial, 2) == [first, second];
  }

  // ---------------------------------------------------------------- a packet that the collector cannot digest

  /**
   * A packet that ends a campaign: with an empty topic in the corpus, as in the built-in one, the generators can
   * produce a SUBSCRIBE of seven bytes without a repeated pair, and the pattern for PUBLISH packets leaves it alone.
   */
  lemma FatalPacket(c: MqttGenerators.Corpora) returns (m: MqttPackets.Message)
    requires "" in c.topics
    ensures "" in MqttGenerators.DEFAULT_TOPICS
    ensures MqttGenerators.Drawn(c, m) && MqttPackets.Fits(m)
    ensures var p := MqttPackets.Wire(m);
            && p == [0x82, 5, 1, 2, 0, 0, 0] && MqttDecoders.WellFramed(p)
            && MqttCorruption.Effect(MqttCorruption.InvalidQoS, p, p) && !Searchable(p)
  {
    assert MqttGenerators.DEFAULT_TOPICS[8] == "";
    assert MqttGenerators.TopicText(c, "") && MqttGenerators.Ascii("") == [];
    var f := MqttPackets.Filter([], 0);
    assert MqttGenerators.IsTopic(c, f.topic);
    m := MqttPackets.Subscribe(0x0102, [f]);
    OneEmptyFilter(m, f);
    hide MqttPackets.Wire, MqttGenerators.TopicText, MqttGenerators.Ascii, Searchable;
    NoRepeatedPair([0x82, 5, 1, 2, 0, 0, 0]);
  }

  lemma OneEmptyFilter(m: MqttPackets.Message, f: MqttPackets.Filter)
    requires f == MqttPackets.Filter([], 0) && m == MqttPackets.Subscribe(0x0102, [f])
    ensures MqttPackets.Wire(m) == [0x82, 5, 1, 2, 0, 0, 0] && MqttDecoders.WellFramed(MqttPackets.Wire(m))
  {
    assert MqttPackets.FiltersBytes([f]) == MqttPackets.FilterBytes(f) + MqttPackets.FiltersBytes([]);
    assert RemainingLength.Encode(5) == [5];
    MqttPackets.FrameValid(0x82, MqttPackets.Body(m));
  }

  lemma NoRepeatedPair(p: seq<Byte>)
    requires p == [0x82, 5, 1, 2, 0, 0, 0]
    ensures !Searchable(p)
  {
    if Repeats(p, 2) {
      var i: nat, j: nat :| RepeatsAt(p, 2, i, j);
      EqualPairs(p, i, j);
      assert false;
    }
  }

  /**
   * Seeding the corpus of an MQTT campaign. `seeds(i, k)` is draw number `k` from the seed bytes of case `i`.
   * No draw makes a generator fail, so the corpus has two cases for each seed, the first of each pair valid. No
   * case is empty.
   */
  method GenerateInitialTestCases(c: MqttGenerators.Corpora, seeds: (nat, nat) -> Option<nat>, rng: Source)
    returns (testCases: seq<seq<Byte>>)
    requires MqttGenerators.Modest(c)
    modifies rng
    ensures |testCases| == 2 * INITIAL_CASES == 100
    ensures forall i :: 0 <= i < INITIAL_CASES ==> MqttDecoders.WellFramed(testCases[2 * i])
    ensures forall i :: 0 <= i < INITIAL_CASES ==>
              MqttMalformed.IsGenerated(c, testCases[2 * i]) && MqttMalformed.IsMalformed(c, testCases[2 * i + 1])
    ensures [] !in testCases
  {
    hide ArePairs, IsPair;
    testCases := [];
    NoPairs(c);
    for i := 0 to INITIAL_CASES
      invariant ArePairs(c, testCases, i)
    {
      var valid, malformed := GeneratePair(c, k => seeds(i, k), rng);
      PairsSnoc(c, testCases, i, valid, malformed);
      testCases := testCases + [valid, malformed];
    }
    PairsAreCases(c, testCases, INITIAL_CASES);
  }

  ghost predicate ArePairs(c: MqttGenerators.Corpora, cases: seq<seq<Byte>>, n: nat) {
    |cases| == 2 * n && forall k :: 0 <= k < n ==> IsPair(c, cases[2 * k], cases[2 * k + 1])
  }

  lemma NoPairs(c: MqttGenerators.Corpora)
    ensures ArePairs(c, [], 0)
  {
  }

  lemma PairsSnoc(c: MqttGenerators.Corpora, cases: seq<seq<Byte>>, n: nat, valid: seq<Byte>, malformed: seq<Byte>)
    requires ArePairs(c, cases, n) && IsPair(c, valid, malformed)
    ensures ArePairs(c, cases + [valid, malformed], n + 1)
  {
    hide IsPair;
  }

  lemma PairsAreCases(c: MqttGenerators.Corpora, cases: seq<seq<Byte>>, n: nat)
    requires ArePairs(c, cases, n)
    ensures |cases| == 2 * n && [] !in cases
    ensures forall i :: 0 <= i < n ==>
              && MqttDecoders.WellFramed(cases[2 * i])
              && MqttMalformed.IsGenerated(c, cases[2 * i]) && MqttMalformed.IsMalformed(c, cases[2 * i + 1])
  {
    hide MqttDecoders.WellFramed, MqttMalformed.IsGenerated, MqttMalformed.IsMalformed;
    forall j | 0 <= j < |cases|
      ensures cases[j] != []
    {
      assert IsPair(c, cases[2 * (j / 2)], cases[2 * (j / 2) + 1]);
    }
  }

  ghost predicate IsPair(c: MqttGenerators.Corpora, valid: seq<Byte>, malformed: seq<Byte>) {
    && MqttDecoders.WellFramed(valid) && valid != [] && malformed != []
    && MqttMalformed.IsGenerated(c, valid) && MqttMalformed.IsMalformed(c, malformed)
  }

  /** One valid and one malformed packet drawn from the same seed. */
  method GeneratePair(c: MqttGenerators.Corpora, seed: nat -> Option<nat>, rng: Source)
    returns (valid: seq<Byte>, malformed: seq<Byte>)
    requires MqttGenerators.Modest(c)
    modifies rng
    ensures IsPair(c, valid, malformed)
  {
    hide MqttDecoders.WellFramed, MqttMalformed.Chain, MqttGenerators.Drawn;
    var data := new Source(seed);
    ghost var m, n, stages, patterns, at, otherAt;
    valid, m := MqttGenerators.GenerateValidPacket(c, data, rng);
    assert MqttMalformed.IsGenerated(c, valid);
    malformed, n, stages, patterns, at, otherAt := MqttMalformed.GenerateMalformedPacket(c, data, rng);
  }
}
