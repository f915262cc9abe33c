# Verified model of the network protocol fuzzer

This project models the parts of the fuzzer that compute something: the MQTT packet generators, validator, decoders
and packet corrupters; the coverage collectors; the crash detector; the campaign loop; the rate limiter, statistics
and byte-string utilities; and the structural mutator. Everything the program takes from outside is a parameter over
which the theorems quantify: random values are an arbitrary function of the number of the draw (`Draws.Source`),
hashing, lower-casing, mutation and execution are arbitrary functions, and clock readings are arguments. No hash is
assumed to be injective.

Where the Rust code updates something in place (a byte buffer, the collectors, the detector, the limiter, the
statistics) the model is a class whose methods are proved against functions on plain sequences; the laws are then
lemmas about those functions, or about the class in every state that satisfies its invariant `Valid()`.

Main results:

- **Framing.** The remaining-length encoder and the validator's decoder are inverse to each other below 2^28 and
  nothing from 2^28 on is accepted; the encoding is the shortest. All four decoders agree on accepted packets.
  Accepted packets form a prefix code, so a byte stream splits into them in at most one way.
- **Generators.** Every packet that any draws produce is accepted, has at most two length bytes and 10515 bytes, and
  an independent reader gets the message back. The messages that can be drawn are characterised exactly: each has draws
  that make it.
- **Corrupters.** Whether a malformed packet, made by up to three patterns of any kind, is still accepted: exactly if no
  pattern wrote an oversized length, the type is valid and the size is the original one; and the same for chains of any
  length without an oversized length. The topic-filter walk finds the filters if and only if the remaining length takes
  one byte, and then spoils one byte of each filter and nothing else.
- **Mutator.** A mutation panics exactly on an empty case for which one pattern is drawn. Bit flips, byte edits and
  additions are undone by their counterparts.
- **Coverage.** Hit counts, path set, path frequencies and execution count are the same trace seen four ways. Coverage
  is always reported as 100 percent after the first execution, and all rates are exactly zero.
- **Crashes and campaign.** The log is the subsequence of first occurrences by hash, its incremental counters equal a
  recount, and the number a campaign reports is the number of distinct hashes among the failing cases. The loop of a
  campaign completes if and only if every iteration has a mutant, and one that does not make the feature collector
  panic; otherwise it ends at the first iteration without, in a state that is given exactly for either panic.
- **Utilities.** The token bucket conserves tokens, grants at most capacity plus refill in every window of every run,
  and denied requests cost nothing; the one-pass variance equals the two-pass variance; string extraction is a split;
  the swap mutation is an involution and a permutation.

Findings, where the code and its names or comments disagree (the model follows the code):

- `extract_features` reads bytes 10 and 11 of a CONNECT as the length of the protocol name. With one length byte they
  hold the keep-alive interval, with more length bytes what stands before it; the lemma says exactly when that happens
  to be the length (`MqttPackets.ConnectFeatures`, `MqttGenerators.KeepAliveAsNameLength`).
- `inject_invalid_topic_filter` starts at byte 4, which misses the first filter as soon as the remaining length takes
  two bytes; on a packet with one topic of three long segments it finds nothing (`MqttCorruption.WalkFindsFilters`,
  `MqttCorruption.MissedFilter`).
- The "invalid protocol name" violation looks for the name at bytes 9 and 10, where a CONNECT has its flags, its
  protocol level or the end of the name, and therefore never changes a packet with the layout of a message
  (`MqttCorruption.NameViolationDoesNothing`).
- `has_new_coverage` is documented as new coverage since the last check, but its reference count is never updated, so
  it means "ever". It is right exactly if nothing was recorded before the last check or something new has been recorded
  since (`EdgeCoverage.EdgeCoverageCollector.HasNewCoverage`, `EdgeCoverage.EdgeCoverageCollector.StaleCoverage`).
- The `unique_crashes` of a protocol is one more than the position of its last crash in the whole log. It is the number
  of its own crashes, all of which are different, exactly if no crash of another protocol was logged before that one
  (`CrashLog.UniqueIsTotal`, `CrashLog.ForeignCrashCounted`). A campaign reports one protocol to a detector of its own,
  so the number it shows is right (`Campaign.FuzzingEngine.RunFuzzingCampaign`).
- `has_repeated_bytes` panics on data of four to seven bytes without a repeated pair, and only there
  (`Repetition.HasRepeatedBytes`). Coverage recording calls it on every mutant, so such a mutant ends the campaign, and
  a crash it caused is not recorded; the generators can produce such a packet (`MqttCampaign.FatalPacket`).
- `apply_malformed_pattern` reads the first byte of a packet without a test when it adds subscriptions, and
  `mutate_packet` applies it to any case of the corpus. So a campaign ends with a panic when that pattern is drawn for
  an empty case, and only then does the mutator panic (`MqttCampaign.MutatorPanics`). No initial case is empty; an
  empty one comes from the deletion of the last byte of a case whose mutant was kept
  (`MqttCampaign.EmptyCaseComesFromDeletion`), as from a PINGREQ after two deletions (`MqttCampaign.EmptiedPingReq`).
- `classify_crash` has types for crashes without a message. In a campaign they never occur, because every failing
  execution has one (`CrashLog.CampaignTypes`).
- Over TCP every execution is interesting, so an MQTT campaign keeps every mutant (`Campaign.TcpKeepsAll`).
- A negative request overfills the token bucket (`RateLimiting.NegativeRequestOverfills`).

## Model

| member | source | states |
|---|---|---|
| Bytes.ReadingMasks | src/protocols/mqtt.rs:494-518 | the arithmetic forms of the masks 0x7F, 0x80, 0x0F and 0xF0 are the bit operations, for all bytes |
| Bytes.ContinuationMask | src/protocols/mqtt.rs:264-266 | setting the continuation bit of a digit adds 128 |
| Bytes.ReservedTypeMask | src/protocols/mqtt.rs:299 | the reserved-type mask gives type 15 with the old flags |
| Bytes.QoSMask | src/protocols/mqtt.rs:320 | the mask of the invalid-QoS pattern sets both QoS bits and no other |
| Bytes.OrMask | src/protocols/mqtt.rs:419 | the mask of the reserved-flags violation is the arithmetic form `OrLowNibble`, for all bytes |
| Bytes.FlipMask | src/protocols/mod.rs:85 | the exclusive or with a shifted one inverts exactly that bit |
| RemainingLength.EncodeRemainingLength | src/protocols/mqtt.rs:260-272 | the loop appends the base-128 encoding to the buffer and terminates for every length |
| RemainingLength.EncodeDecodes | src/protocols/mqtt.rs:260-272 | an encoding is a complete length field and denotes the number it encodes |
| RemainingLength.DecodeEncodes | src/protocols/mqtt.rs:260-272 | re-encoding a decoded field gives the same bytes if and only if it has no redundant zero byte |
| RemainingLength.EncodeIsShortest | src/protocols/mqtt.rs:260-272 | no complete field with the same value has fewer bytes |
| RemainingLength.EncodeLength | src/protocols/mqtt.rs:260-272 | k bytes suffice exactly for values below 128 to the power k |
| RemainingLength.FourBytes | src/protocols/mqtt.rs:523-530 | four bytes suffice exactly below 2^28 |
| RemainingLength.EncodedHeader | src/protocols/mqtt.rs:506-531 | after any type byte and before any suffix, the encoding of n is found as the header with value n if n < 2^28, and no header is found otherwise |
| RemainingLength.HeaderUnique | src/protocols/mqtt.rs:510-531 | a packet has at most one header |
| RemainingLength.HeaderIsComplete | src/protocols/mqtt.rs:510-531 | a header is exactly a complete length field of at most four bytes behind the type byte |
| MqttDecoders.ValidatePacket | src/protocols/mqtt.rs:488-536 | the loop accepts a packet if and only if its type is 1 to 14, it has a header, and its size is what the header announces |
| MqttDecoders.FramedBySizeAndHeader | src/protocols/mqtt.rs:506-535 | apart from the type, only the size and bytes 1 to 4 decide the verdict |
| MqttDecoders.LooksLikeMqtt | src/utils/network.rs:213-254 | true exactly for a valid type and either a single byte or a header within four available bytes |
| MqttDecoders.CountRemainingLengthBytes | src/coverage/feature_coverage.rs:393-402 | the count is where a scan of at most four bytes stops, at a final byte or for lack of bytes |
| MqttDecoders.ScanStops | src/coverage/feature_coverage.rs:393-402 | the place where the scan stops is unique |
| MqttDecoders.LengthLoop | src/protocols/mqtt.rs:555-577 | the feature loop computes the value of exactly the bytes the scan covers, on every packet |
| MqttDecoders.ExtractFeatures | src/protocols/mqtt.rs:538-603 | the features in order: type, flags, size, length, and the type-dependent ones |
| MqttDecoders.FeaturesTellPacket | src/protocols/mqtt.rs:538-603 | the features determine first byte and size of a packet, and how many there are |
| MqttDecoders.DecodersAgree | src/protocols/mqtt.rs:506-577 | on accepted packets the byte counter gives the header size, the length feature the size behind the header, and the analyser says yes |
| MqttDecoders.ValidatorVersusAnalyser | src/utils/network.rs:213-254 | the validator accepts exactly what the analyser accepts with a second byte and the announced size |
| MqttDecoders.HeaderIsScan | src/coverage/feature_coverage.rs:393-402 | the header, if there is one, is what the scan covers |
| MqttDecoders.FramedPrefixFree | src/protocols/mqtt.rs:506-535 | whatever the type, no packet of the size its header announces is a proper prefix of another |
| MqttDecoders.PrefixFree | src/protocols/mqtt.rs:533-535 | no accepted packet is a proper prefix of another |
| MqttDecoders.StreamsSplitUniquely | src/protocols/mqtt.rs:488-536 | a byte stream is a concatenation of accepted packets in at most one way |
| MqttPackets.FrameValid | src/protocols/mqtt.rs:141-258 | a framed body is accepted if and only if the type is valid and the body shorter than 2^28 |
| MqttPackets.FrameBody | src/protocols/mqtt.rs:141-258 | the body is found behind the scanned length bytes |
| MqttPackets.FiltersRoundTrip | src/protocols/mqtt.rs:251-255 | reading written topic filters gives the same filters |
| MqttPackets.ReadInvertsWire | src/protocols/mqtt.rs:141-258 | reading a packet back gives the message: client id, keep-alive, topics, identifiers, QoS, flags and payload |
| MqttPackets.PublishFeatures | src/protocols/mqtt.rs:590-598 | the feature extractor recovers QoS, RETAIN and DUP of a PUBLISH and reports its body size |
| MqttPackets.ConnectFeatures | src/protocols/mqtt.rs:581-589 | for every CONNECT, with one, two or three length bytes: what the supposed protocol-name length is, exactly when it equals the length of the name, and where the name stands |
| MqttGenerators.DefaultCorporaAreModest | src/protocols/mqtt.rs:35-77 | the built-in corpora respect the length bounds the packet bounds need |
| MqttGenerators.SelectTopic | src/protocols/mqtt.rs:79-86 | the topic and the number of draws used, as functions of the draws: a corpus topic or joined random segments |
| MqttGenerators.GenerateRandomTopic | src/protocols/mqtt.rs:88-105 | one to ten segments, as drawn, of one to fifty characters from the charset, each as drawn; cutting the topic at every slash gives the segments back |
| MqttGenerators.RandomTopicLevels | src/protocols/mqtt.rs:104 | a topic of n drawn segments has these as its levels, and n - 1 slashes |
| MqttGenerators.SelectClientId | src/protocols/mqtt.rs:107-125 | a corpus id, or a drawn number of drawn characters from the charset, and the number of draws used |
| MqttGenerators.SelectPayload | src/protocols/mqtt.rs:127-139 | a corpus payload, or fewer than 10000 bytes: the drawn ones wherever there is a draw, and those of the other source, in order, where there is none |
| MqttGenerators.BuildConnect | src/protocols/mqtt.rs:146-180 | the length computed up front is the size of what is appended, and the bytes are the wire form |
| MqttGenerators.GenerateConnectPacket | src/protocols/mqtt.rs:141-181 | the packet is the wire form of the CONNECT that the draws make |
| MqttGenerators.BuildPublish | src/protocols/mqtt.rs:194-223 | the length computed up front matches, with the packet identifier exactly for QoS above 0 |
| MqttGenerators.GeneratePublishPacket | src/protocols/mqtt.rs:183-224 | the packet is the wire form of a PUBLISH, and of the one that the draws make when none is missing |
| MqttGenerators.SelectTopics | src/protocols/mqtt.rs:235-243 | the topics that the draws make, and the bytes reserved before writing are those of these topics |
| MqttGenerators.PutFilters | src/protocols/mqtt.rs:250-255 | the filters written are the chosen topics in order, each with the QoS drawn for it, and take exactly the reserved bytes |
| MqttGenerators.GenerateSubscribePacket | src/protocols/mqtt.rs:226-258 | the packet is the wire form of the SUBSCRIBE that the draws make, all topics before the first QoS |
| MqttGenerators.GenerateValidPacket | src/protocols/mqtt.rs:439-451 | for all draws: the first draw picks the type, and the packet is accepted, at most 10515 bytes long, and the wire form of the message that the draws make |
| MqttGenerators.TopicBound | src/protocols/mqtt.rs:88-105 | no topic is longer than 509 bytes |
| MqttGenerators.DrawnBounds | src/protocols/mqtt.rs:141-258 | no body is longer than 10512 bytes, and a CONNECT body is shorter than 128 |
| MqttGenerators.GeneratedPackets | src/protocols/mqtt.rs:439-451 | every drawable message: accepted, read back, at most two length bytes, at most 10515 bytes |
| MqttGenerators.KeepAliveAsNameLength | src/protocols/mqtt.rs:581-589 | a CONNECT that can be drawn, with the default keep-alive, on which the supposed name length is 60 |
| MqttGenerators.NoDrawsMessage | src/protocols/mqtt.rs:107-143 | when the draws have run out, the defaults make a CONNECT with an id of eleven first characters and a keep-alive of a minute |
| MqttGenerators.NoDrawsSubscribe | src/protocols/mqtt.rs:227-255 | when they run out behind the type, the defaults make a SUBSCRIBE with identifier 1 and two topics of three segments with QoS 0 |
| MqttGenerators.NoDrawsPublish | src/protocols/mqtt.rs:184-192 | and a PUBLISH of a hundred bytes without flags |
| MqttDraws.DrawsMakeMessage | src/protocols/mqtt.rs:79-258 | the draws computed from a message make this message, wherever they stand, and no further draw is used |
| MqttDraws.MessageFromIsDrawn | src/protocols/mqtt.rs:439-451 | all draws make a message within the reach described |
| MqttDraws.DrawnIsReachable | src/protocols/mqtt.rs:439-451 | a message is within the reach described if and only if some endless source of draws makes it |
| MqttCorruption.InjectInvalidTopicFilter | src/protocols/mqtt.rs:363-382 | on any SUBSCRIBE-typed bytes it terminates, zeroes the drawn byte of each filter it walks over and changes nothing else |
| MqttCorruption.FirstDrawnHit | src/protocols/mqtt.rs:371-374 | the hit of a filter is the drawn byte of its topic, and the second byte when the draw is missing |
| MqttCorruption.HitsOnWalk | src/protocols/mqtt.rs:368-376 | hit number i lies inside the filter whose length field was read at position number i of the walk |
| MqttCorruption.WalkUnchanged | src/protocols/mqtt.rs:368-376 | no length field is ever overwritten: the corrupted packet is walked like the original |
| MqttCorruption.WalkVisitsFilters | src/protocols/mqtt.rs:368-376 | a walk from the first filter visits exactly the filter boundaries and ends with the packet |
| MqttCorruption.WalkFindsFilters | src/protocols/mqtt.rs:363-382 | on every SUBSCRIBE with at least one filter the walk finds the filters if and only if the remaining length takes one byte |
| MqttCorruption.MissedFilter | src/protocols/mqtt.rs:363-382 | a SUBSCRIBE that can be drawn, on which the walk finds nothing and the pattern changes nothing |
| MqttCorruption.CorruptedSubscribeReads | src/protocols/mqtt.rs:363-382 | on every SUBSCRIBE with a one-byte remaining length the corrupted packet reads back with the same identifier and filter lengths and one zero byte in every filter (the QoS byte of an empty one) |
| MqttCorruption.InjectInvalidUtf8 | src/protocols/mqtt.rs:350-361 | 0xFF and 0xFE are written at the drawn position from 10 on, and nothing else changes |
| MqttCorruption.InjectExcessiveSubscriptions | src/protocols/mqtt.rs:384-396 | the drawn number of filters, 100 to 1099, is appended, each with its drawn number and QoS |
| MqttCorruption.ExtraFilterNumber | src/protocols/mqtt.rs:388-394 | the topic of an appended filter ends in the drawn number, in decimal, and its QoS is the drawn one |
| MqttCorruption.DigitsDenote | src/protocols/mqtt.rs:389 | the text of a number is read back as the number, without leading zeros |
| MqttCorruption.InjectProtocolViolation | src/protocols/mqtt.rs:398-435 | what each of the four violations does to the packet for the given draws, and how many draws it takes |
| MqttCorruption.SeventhByte | src/protocols/mqtt.rs:424-429 | the multiples of seven take the draws in order, and 0xFF where one is missing |
| MqttCorruption.ApplyMalformedPattern | src/protocols/mqtt.rs:274-348 | what each pattern makes of a packet for the given draws, and how many it takes; padding grows the packet by the drawn number of bytes, and so exactly if that is not a multiple of 100000; the panic of extra subscriptions on an empty packet, and only there |
| MqttCorruption.PreservingKeepsVerdict | src/protocols/mqtt.rs:317-344 | invalid QoS, malformed UTF-8, invalid topic filter and protocol violation keep size and verdict of any packet |
| MqttCorruption.FrameKept | src/protocols/mqtt.rs:278-344 | these four and the two patterns that write the first byte keep size and framing of any packet, and the four keep its type |
| MqttCorruption.RejectingIsRejected | src/protocols/mqtt.rs:285-301 | a reserved type on a non-empty packet, and an oversized length on more than one byte, are always rejected |
| MqttCorruption.ResizingBreaksFrame | src/protocols/mqtt.rs:303-339 | a framed packet, whatever its type, stays framed under truncation, padding and extra subscriptions exactly if they do not change it |
| MqttCorruption.ResizingIsRejected | src/protocols/mqtt.rs:303-339 | truncation, padding and extra subscriptions turn an accepted packet into a rejected one exactly if they change it, and when they must |
| MqttCorruption.FixedHeaderVerdict | src/protocols/mqtt.rs:278-283 | a new first byte is accepted exactly if its type is valid and the old packet was framed |
| MqttCorruption.NameViolationDoesNothing | src/protocols/mqtt.rs:402-411 | the invalid-protocol-name violation leaves every packet with the layout of a message as it is, for every length of the client id |
| MqttMalformed.OneReframer | src/protocols/mqtt.rs:453-468 | for a chain of any length in which at most one pattern touches size or length field: the result is accepted exactly if its type is valid and that pattern changed neither |
| MqttMalformed.OneOffender | src/protocols/mqtt.rs:453-468 | for a chain with one pattern that is not preserving: exactly when the result is accepted |
| MqttMalformed.SizeDecides | src/protocols/mqtt.rs:453-468 | a packet with at most two length bytes, after any number of patterns other than the oversized length, is accepted exactly if its type is valid and its size the original one |
| MqttMalformed.OversizedIsRejected | src/protocols/mqtt.rs:285-294 | after an oversized length no two further patterns lead to an accepted packet |
| MqttMalformed.ChainVerdict | src/protocols/mqtt.rs:453-468 | the verdict on up to three patterns of any kind: accepted exactly if none wrote an oversized length, the type is valid and the size is that of the message |
| MqttMalformed.StaysLong | src/protocols/mqtt.rs:334-339 | no pattern makes a packet of two bytes shorter than two, so the unguarded read of byte 0 is safe in a chain |
| MqttMalformed.ApplyPatterns | src/protocols/mqtt.rs:457-465 | the first draw gives the number of patterns, the next draw the first pattern; each stage is what the draws behind the choice make of the one before, and the next choice follows right behind them |
| MqttMalformed.GenerateMalformedPacket | src/protocols/mqtt.rs:453-468 | the drawn number of patterns, each the one its draw picks, is applied to an accepted packet, one after the other, without a panic for any draws, and exactly when the result is accepted |
| MqttMutation.BitFlipMutation | src/protocols/mod.rs:78-89 | one to eight bits are inverted, one after the other, each given by its two draws |
| MqttMutation.FlipAllTwice | src/protocols/mod.rs:78-89 | the same flips once more restore the input |
| MqttMutation.ByteInsertMutation | src/protocols/mod.rs:92-98 | the drawn byte is inserted at the drawn place |
| MqttMutation.ByteDeleteMutation | src/protocols/mod.rs:101-108 | the drawn byte goes, and an empty input stays |
| MqttMutation.InsertDeleteInverse | src/protocols/mod.rs:92-108 | insertion and deletion at the same place undo each other |
| MqttMutation.ArithmeticMutation | src/protocols/mod.rs:111-124 | the drawn number is added to the drawn pair of bytes, modulo 2^16 |
| MqttMutation.AddIsUndone | src/protocols/mod.rs:111-124 | adding the complement restores the input |
| MqttMutation.MutatePacket | src/protocols/mqtt.rs:470-487 | the first draw picks one of the five mutations, and the others make its result; a panic exactly on an empty case with the unguarded pattern drawn |
| MqttMutation.EmptyMutant | src/protocols/mod.rs:101-108 | a non-empty case has an empty mutant exactly if it has one byte and deletion is drawn |
| Histograms.HistogramCounts | src/coverage/edge_coverage.rs:276-291 | counting by entry and increment gives every element its multiplicity, and only elements as keys |
| Histograms.SumHistogram | src/coverage/edge_coverage.rs:276-291 | a sum over the keys weighted by their counts is the sum over the counted elements |
| Histograms.NewSinceGrows | src/coverage/edge_coverage.rs:318-321 | had the count of distinct entries been noted down at the last check, exceeding it would mean exactly that something new was recorded since |
| EdgeCoverage.ViewsAgree | src/coverage/edge_coverage.rs:268-298 | hits of an edge are the sum over paths of frequency times occurrences; frequencies sum to the executions |
| EdgeCoverage.EdgeCoverageCollector.ExtractEdges | src/coverage/edge_coverage.rs:41-56 | the edges one by one: those of the input, outcome and time, the error if there is one, and those of the response if there is one |
| EdgeCoverage.EdgeCoverageCollector.ExtractExecutionEdges | src/coverage/edge_coverage.rs:135-162 | the outcome, the time category and the error category |
| EdgeCoverage.EdgeCoverageCollector.PathTellsOutcome | src/coverage/edge_coverage.rs:135-152 | executions of one input with the same path have the same outcome and time category, as far as the hasher tells them apart |
| EdgeCoverage.EdgeCoverageCollector.SamePathIff | src/coverage/edge_coverage.rs:41-56 | two executions of one input, both with or both without a message, have the same path exactly if outcome, time, error and response have the same edges |
| EdgeCoverage.EdgeCoverageCollector.EdgesCounted | src/coverage/edge_coverage.rs:274-282 | an execution adds to the count of every edge how often it hits it in input, outcome and response |
| EdgeCoverage.TimeCategories | src/coverage/edge_coverage.rs:145-152 | exactly which times fall into which category |
| EdgeCoverage.ErrorCategories | src/coverage/edge_coverage.rs:236-252 | which words of a message decide its category, and in which order |
| Histograms.CountAll | src/coverage/edge_coverage.rs:274-282 | the counting loop of both collectors: every item is counted, and the flag tells whether one had never been counted |
| EdgeCoverage.EdgeCoverageCollector.RecordExecution | src/coverage/edge_coverage.rs:268-298 | the invariant is kept, one path is added to the trace, it counts as new exactly if it was not in the trace, and every edge, those of the response included, is counted as often as it is hit |
| EdgeCoverage.EdgeCoverageCollector.CountersAgree | src/coverage/edge_coverage.rs:8-26 | in every reachable state the edge map, path set, frequencies and execution count describe one trace |
| EdgeCoverage.EdgeCoverageCollector.AllEdgesCovered | src/coverage/edge_coverage.rs:254-260 | covered equals total in every reachable state |
| EdgeCoverage.EdgeCoverageCollector.GetCoverageStats | src/coverage/edge_coverage.rs:300-316 | executions, distinct paths, and a percentage of 0 before the first execution and 100 after it |
| EdgeCoverage.EdgeCoverageCollector.HasNewCoverage | src/coverage/edge_coverage.rs:318-321 | true exactly if anything was recorded since the last reset; exactly when this is the documented "new since the last check" |
| EdgeCoverage.EdgeCoverageCollector.StaleCoverage | src/coverage/edge_coverage.rs:318-321 | one path recorded, checked and recorded again: nothing is new since the check, and the test still succeeds |
| EdgeCoverage.EdgeCoverageCollector.ExportCoverageData | src/coverage/edge_coverage.rs:323-342 | for every iteration order of the map, an importer recovers edges, counts and totals |
| EdgeCoverage.EdgeCoverageCollector.Reset | src/coverage/edge_coverage.rs:344-351 | the trace is empty again |
| CoverageExport.EightBytes | src/coverage/edge_coverage.rs:329-339 | eight little-endian bytes hold every 64-bit number |
| CoverageExport.LowestFirst | src/coverage/edge_coverage.rs:329-339 | the lowest byte is written first |
| CoverageExport.ImportDump | src/coverage/edge_coverage.rs:323-342 | the layout of the export determines its contents |
| FeatureCoverage.FeatureCoverageCollector.OneOutcome | src/coverage/feature_coverage.rs:217-246 | every execution contributes exactly one of the success and failure features, once |
| FeatureCoverage.FeatureCoverageCollector.ExtractAllFeatures | src/coverage/feature_coverage.rs:95-114 | the features of all extractors in order, or the panic, exactly if the input is not searchable for repetition |
| FeatureCoverage.FeatureCoverageCollector.FeaturesInOrder | src/coverage/feature_coverage.rs:177-246 | the features one by one: those of the input, the repetition, the outcome, the time, the response, the error, and those of the protocol |
| FeatureCoverage.FeatureCoverageCollector.FeatureHits | src/coverage/feature_coverage.rs:95-114 | how often an execution records a feature, summed over the extractors |
| FeatureCoverage.SizeCategories | src/coverage/feature_coverage.rs:406-415 | exactly which sizes fall into which category |
| FeatureCoverage.ErrorKinds | src/coverage/feature_coverage.rs:438-452 | which words of a message decide its category, and in which order |
| FeatureCoverage.FeatureCoverageCollector.RecordExecution | src/coverage/feature_coverage.rs:117-134 | completes exactly if the input is searchable, and then the invariant is kept and the features are counted; otherwise only the execution counter has changed |
| FeatureCoverage.FeatureCoverageCollector.OutcomesAddUp | src/coverage/feature_coverage.rs:117-134 | the success feature counts the successes, and both outcome features sum to the executions |
| FeatureCoverage.FeatureCoverageCollector.AllFeaturesCovered | src/coverage/feature_coverage.rs:52-58 | covered equals total in every reachable state |
| FeatureCoverage.FeatureCoverageCollector.GetCoverageStats | src/coverage/feature_coverage.rs:136-152 | the percentage is 0 before the first execution and 100 after it |
| FeatureCoverage.FeatureCoverageCollector.HasNewCoverage | src/coverage/feature_coverage.rs:154-157 | true exactly if anything was recorded since the last reset; exactly when this is the documented "new since the last check" |
| CompositeCoverage.WindowStep | src/coverage/mod.rs:306-326 | pushing a snapshot and draining keeps the window: its length, consecutive multiples of fifty, full coverage |
| CompositeCoverage.ReachableRates | src/coverage/mod.rs:175-265 | in every reachable window the execution difference is exactly fifty per step and positive, and all rates are zero |
| CompositeCoverage.RateTimesExecutions | src/coverage/mod.rs:226-248 | on any history, the rate times the executions is the gain over the last hundred snapshots |
| CompositeCoverage.SteadyGrowth | src/coverage/mod.rs:250-265 | on a history that grows steadily, the moving average lacks 0.9 to the power k of that growth |
| CompositeCoverage.GainOfWindow | src/coverage/mod.rs:175-190 | on any history, a hundred times the entry of a window is its gain, or zero for a loss |
| CompositeCoverage.WindowLengths | src/coverage/mod.rs:321-325 | ten thousand snapshots fit, and the next one costs the oldest thousand |
| CompositeCoverage.CompositeCoverageCollector.RecordExecution | src/coverage/mod.rs:330-341 | both collectors see the execution and the window matches the execution count, exactly if the input is searchable; otherwise the execution and its path are recorded, but no features and no snapshot |
| CompositeCoverage.CompositeCoverageCollector.TakeSnapshot | src/coverage/mod.rs:306-326 | the window for one more period, ending in a snapshot with the current time and count |
| CompositeCoverage.CompositeCoverageCollector.GetCoverageStats | src/coverage/mod.rs:343-353 | the averaged percentage is 0 or 100, and the path count that of the trace |
| CompositeCoverage.CompositeCoverageCollector.CalculateEdgeDiscoveryRate | src/coverage/mod.rs:175-190 | one clamped mean gain for each window of a hundred snapshots, all zero in every reachable state |
| CompositeCoverage.CompositeCoverageCollector.CalculateDiscoveryRate | src/coverage/mod.rs:226-248 | the gain per execution over the last hundred snapshots, without underflow |
| CompositeCoverage.CompositeCoverageCollector.CalculateCoverageGrowthRate | src/coverage/mod.rs:250-265 | the exponential moving average of the coverage differences |
| CompositeCoverage.CompositeCoverageCollector.RatesVanish | src/coverage/mod.rs:175-265 | all three rates are zero in every reachable state |
| CrashLog.SeverityOfRecorded | src/fuzzer/crash_detector.rs:191-263 | exactly which crashes are recorded as critical, as at least high, and as low |
| CrashLog.TypesOfCrashes | src/fuzzer/crash_detector.rs:191-217 | exactly which messages and times lead to which type of crash |
| CrashLog.CampaignTypes | src/fuzzer/mod.rs:251-382 | the types without a message never occur in a campaign |
| Execution.ContainsMiddle | src/fuzzer/crash_detector.rs:195 | containing a text means that it stands between two others |
| Execution.SuccessfulOutcomes | src/fuzzer/mod.rs:261-382 | which outcomes of the two executors are successes, with their times and responses |
| Execution.ExecutedShape | src/fuzzer/mod.rs:261-382 | a failure always has a message and no response; a success has a response or has timed out |
| CrashLog.FirstReportsAreFirst | src/fuzzer/crash_detector.rs:77-83 | the logged crashes are the order-preserving subsequence of the reports that are first with their hash |
| CrashLog.HashesOfFirst | src/fuzzer/crash_detector.rs:77-110 | the log has one crash for each hash ever reported |
| CrashLog.MoreFirstReports | src/fuzzer/crash_detector.rs:125-132 | the log grew since a count exactly if a later report was the first with its hash |
| CrashLog.RecountSnoc | src/fuzzer/crash_detector.rs:112-117 | the incremental statistics are a recount, and a protocol's unique count is the position of its last crash |
| CrashLog.UniqueIsTotal | src/fuzzer/crash_detector.rs:113-115 | unique and total crashes of a protocol agree exactly if no crash of another one was logged before its last crash |
| CrashLog.ForeignCrashCounted | src/fuzzer/crash_detector.rs:113-115 | after a DNS and an MQTT crash, MQTT has one crash and two unique crashes |
| CrashLog.BreakdownsAddUp | src/fuzzer/crash_detector.rs:265-291 | types, severities and totals of the log are the sums over the protocols |
| CrashLog.HighSeverityCount | src/fuzzer/crash_detector.rs:138-143 | the crashes of at least high severity are the high and the critical ones |
| CrashDetection.CrashDetector.RecordCrash | src/fuzzer/crash_detector.rs:70-123 | the invariant is kept, and the crash is logged exactly if its hash is new, with the report, the hash of its input, and the type and severity of its message in lower case |
| CrashDetection.CrashDetector.HasNewCrashes | src/fuzzer/crash_detector.rs:125-127 | true exactly if a report since the last count was the first with its hash |
| CrashDetection.CrashDetector.CrashCount | src/fuzzer/crash_detector.rs:129-132 | the number of distinct hashes reported |
| CrashDetection.CrashDetector.GenerateCrashSummary | src/fuzzer/crash_detector.rs:265-292 | the breakdowns count the log, total equals unique, and the high-severity number is the sum of two entries |
| CrashDetection.CrashDetector.SummaryIsSumOfStats | src/fuzzer/crash_detector.rs:265-291 | the breakdowns equal the sums of the counters kept for the protocols |
| CrashDetection.CrashDetector.OwnCrashesOnly | src/fuzzer/crash_detector.rs:112-117 | if all reports are of one protocol, its unique and total crashes are the distinct hashes, and no other protocol has any |
| Campaign.CorpusStep | src/fuzzer/mod.rs:109-117 | push and removal keep the corpus the latest thousand of initial cases and interesting mutants |
| Campaign.CorpusIsLatest | src/fuzzer/mod.rs:109-117 | the corpus is the end of the list of all cases, and all of it up to a thousand |
| Campaign.InterestingAt | src/fuzzer/mod.rs:386-390 | the mutants that join are, in order, exactly those of the steps with a response or an error other than the UDP timeout |
| Campaign.ExecutedInteresting | src/fuzzer/mod.rs:386-390 | over TCP everything is interesting, over UDP everything but a timeout |
| Campaign.TcpKeepsAll | src/fuzzer/mod.rs:109-117 | a campaign over TCP keeps every mutant while there is room |
| Campaign.FuzzingEngine.QuietRounds | src/fuzzer/mod.rs:81-83 | while nothing is interesting, each round picks every initial case once, in order |
| Campaign.FuzzingEngine.FailuresAt | src/fuzzer/mod.rs:97-107 | the reports of a run are, in order, exactly those of its failing steps: the mutant, the message, the time, the protocol |
| Campaign.FuzzingEngine.HashesOfFailures | src/fuzzer/mod.rs:97-107 | the reported hashes are those of the mutants that failed |
| Campaign.FuzzingEngine.RunPrefix | src/fuzzer/mod.rs:80-117 | the run is determined by the initial cases: a longer one begins with the shorter one and goes on as the loop does, until the mutator panics |
| Campaign.FuzzingEngine.DigestibleRun | src/fuzzer/mod.rs:80-92 | the first n iterations go through exactly if each has a mutant that coverage recording can digest |
| Campaign.FuzzingEngine.RunFuzzingCampaign | src/fuzzer/mod.rs:61-160 | completes exactly if every iteration has a mutant and that mutant is searchable, and otherwise ends at the first without, saying which call panicked; in all cases corpus, counters, trace and reports as functions of the run, the reports being those of the failing steps with their mutants; on a fresh detector the crashes found are the distinct hashes of the mutants that failed, and the unique and total crashes of the protocol |
| Campaign.FuzzingEngine.Iterate | src/fuzzer/mod.rs:80-117 | one iteration extends the run by the step the code takes, or ends in a panic of the mutator, with nothing recorded, or of the feature collector, before corpus and detector see the mutant |
| Campaign.FuzzingEngine.RunCase | src/fuzzer/mod.rs:88-107 | coverage sees every case, and the detector gets every failing mutant, with its message and time, on which coverage recording did not panic |
| Campaign.FuzzingEngine.Keep | src/fuzzer/mod.rs:109-117 | interesting cases are appended and the oldest leaves an overfull corpus |
| MqttCampaign.MutatorPanics | src/protocols/mqtt.rs:480-484 | in an MQTT campaign the mutator panics exactly on an empty case for which the unguarded pattern is drawn |
| MqttCampaign.MqttDigestible | src/fuzzer/mod.rs:80-92 | exactly which bases, draws and mutants let an MQTT campaign go through n iterations |
| MqttCampaign.EmptyCaseComesFromDeletion | src/fuzzer/mod.rs:109-117 | without empty initial cases, an empty case is the kept mutant of a one-byte case from which a byte was deleted |
| MqttCampaign.EmptiedPingReq | src/protocols/mqtt.rs:334-339 | a PINGREQ, two deletions and the unguarded pattern: two iterations go through and the third panics |
| MqttCampaign.FatalPacket | src/coverage/feature_coverage.rs:454-471 | a seven-byte SUBSCRIBE that can be drawn with the built-in topics, unchanged by the invalid-QoS pattern, on which the search panics |
| MqttCampaign.GenerateInitialTestCases | src/fuzzer/mod.rs:194-221 | a hundred cases for an MQTT campaign, none empty: generated packets, all accepted, and malformed ones in turn, with no failing draw |
| RateLimiting.RateLimiter.TryAcquire | src/utils/mod.rs:246-255 | the answer, and the new state: the capped refill, less the request if it was granted |
| RateLimiting.RateLimiter.Refill | src/utils/mod.rs:257-264 | the refill is capped at the capacity |
| RateLimiting.StepInRange | src/utils/mod.rs:246-264 | the tokens stay within zero and the capacity exactly if the request is not too negative |
| RateLimiting.NegativeRequestOverfills | src/utils/mod.rs:249-251 | a request for minus one token overfills a full bucket |
| RateLimiting.Balance | src/utils/mod.rs:246-264 | over any run, what was granted plus what is left is at most what was there plus the refill |
| RateLimiting.Conservation | src/utils/mod.rs:246-264 | over any run, what was granted, what is left and what the capacity cut off are together exactly what was there plus the refill; nothing is cut off exactly if no refill meets the capacity |
| RateLimiting.DeniedCostsNothing | src/utils/mod.rs:249-254 | after a denied request every later request gets the answer it would have got without it |
| RateLimiting.DropDenied | src/utils/mod.rs:246-264 | dropping the denied requests of a run changes neither what is granted nor any later answer |
| RateLimiting.NoRefillFromThePast | src/utils/mod.rs:257-264 | a call with an earlier time refills nothing |
| RateLimiting.WindowLimit | src/utils/mod.rs:246-264 | in any window of any run at most capacity plus rate times duration is granted |
| RateLimiting.GrantedAfterWaiting | src/utils/mod.rs:246-264 | a request within the capacity is granted after waiting for its refill |
| RunningStatistics.Statistics.Add | src/utils/mod.rs:194-200 | count, sums, minimum and maximum describe the values added |
| RunningStatistics.Statistics.GetMean | src/utils/mod.rs:202-208 | the mean, between minimum and maximum |
| RunningStatistics.OnePass | src/utils/mod.rs:210-217 | the one-pass numerator is the sum of squared deviations from the mean |
| RunningStatistics.Statistics.Variance | src/utils/mod.rs:210-217 | the two-pass sample variance, never negative, and zero exactly if all values are equal |
| StringExtraction.PiecesSplit | src/utils/mod.rs:100-125 | the pieces are the data cut at the bytes outside the range from space to tilde |
| StringExtraction.ExtractStrings | src/utils/mod.rs:100-125 | for every minimal length the strings are, in order, exactly the pieces that are long enough |
| StringExtraction.KeptPieces | src/utils/mod.rs:100-125 | the pieces kept are exactly those that are long enough, in order |
| Repetition.CountRepeatedBytes | src/utils/network.rs:332-358 | the number of positions whose byte equals an adjacent one |
| Repetition.RunCounts | src/utils/network.rs:341-354 | a finished run counts in full if longer than one byte, otherwise not |
| Repetition.HasRepeatedBytes | src/coverage/feature_coverage.rs:454-471 | for every input: the search ends exactly if the data has fewer than four bytes, at least eight, or a repeated pair, and then answers whether it has a repeated pair |
| Repetition.SearchWindow | src/coverage/feature_coverage.rs:460-467 | finds a pattern that recurs without overlap if there is one |
| StructuralMutation.ApplyStructuralMutation | src/fuzzer/custom_mutators.rs:167-250 | an empty input is skipped; otherwise the drawn one of the four mutations happens, with the drawn parameters, in bounds for all draws |
| StructuralMutation.InsertBytes | src/fuzzer/custom_mutators.rs:180-191 | as many bytes as drawn, one to sixteen, are spliced in at the drawn place, each as drawn |
| StructuralMutation.DeleteBytes | src/fuzzer/custom_mutators.rs:192-202 | the drawn section goes |
| StructuralMutation.DeletionIsUndone | src/fuzzer/custom_mutators.rs:192-202 | a deletion is undone by splicing in, at the drawn place, as many bytes as drawn |
| StructuralMutation.DuplicateSection | src/fuzzer/custom_mutators.rs:203-215 | the drawn section of the input is spliced in at the drawn place |
| StructuralMutation.DuplicationIsUndone | src/fuzzer/custom_mutators.rs:203-215 | a duplication adds the drawn section, of one to 32 bytes, at the drawn place; taking it out restores the input |
| StructuralMutation.ExchangeSections | src/fuzzer/custom_mutators.rs:227-242 | the two copying loops exchange exactly as many bytes as the second section has |
| StructuralMutation.SwapDrawn | src/fuzzer/custom_mutators.rs:216-244 | what a swap does for given draws |
| StructuralMutation.SwapMoves | src/fuzzer/custom_mutators.rs:216-244 | which bytes a swap moves and where, in terms of the draws |
| StructuralMutation.MutatedSize | src/fuzzer/custom_mutators.rs:178-247 | how each of the four mutations changes the size |
| StructuralMutation.SwapIsPermutation | src/fuzzer/custom_mutators.rs:216-244 | a swap permutes the input, for all draws |
| StructuralMutation.SwapTwice | src/fuzzer/custom_mutators.rs:216-244 | swapping again with the same draws restores the input |

## Left out

- Network I/O, connectivity checks, the load generator and the libafl executor: an execution is an arbitrary result, and the results that the two executors can return are modelled as values (`Execution.TcpResult`, `Execution.UdpResult`).
- `src/protocols/dns.rs`: packet building and parsing belong to a crate that is not part of this model.
- The edges extracted from inputs and responses, and the input features before the one for repetition: arbitrary functions, so entropy and most-common-byte categories are not modelled; the feature names are only assumed not to begin with `execution_`, as none of the source's does.
- The grammar mutations, the protocol bit flips and the mutator dispatch of `src/fuzzer/custom_mutators.rs`: single buffer edits or calls into traits that are not part of this model.
- The bit flip that `mutate_test_case` falls back to: `mutate_packet` of either protocol returns a result or panics, so it is never taken.
- Shannon entropy, number formatting, reports, logging, configuration, command line and scripts.
- Floating-point rounding: `f64` is `real` in the statistics, the rate limiter and the coverage percentages.
- Machine integer widths of counters: counts and sizes are unbounded; widths matter only where they are stated (`U16Bytes`, `FitsU64`, the underflow in `HasRepeatedBytes`).
- Unicode: lower-casing is an arbitrary function, and texts of the generators are ASCII as in the source.
- The second limit test of the validator and the analyser (`pos - 1 > 4`, `pos > 4`): it can never fire after the multiplier test, so it is merged into that test.
- CompositeCoverage.CompositeCoverageCollector.CalculateDiscoveryRate: requires non-decreasing execution counts, because the source's unsigned subtraction panics otherwise; every reachable window has them.
- Campaign.FuzzingEngine.RunFuzzingCampaign: requires one to a hundred initial cases, as the seeding produces; the loop divides by the size of the corpus. Periodic printing and the writing of the results after the loop are not modelled; neither are panics inside the DNS crate, which a DNS campaign calls when it extracts features.
- MqttCampaign.GenerateInitialTestCases: covers MQTT campaigns; what the arbitrary-data library reads from the seed bytes is an arbitrary function of the number of the draw.
