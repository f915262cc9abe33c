/**
 * The malformed packets: chains of patterns applied to a generated packet, and exactly when the validator still
 * accepts the result.
 */
module MqttMalformed {
  import opened Bytes
  import opened Draws
  import opened RemainingLength
  import opened MqttDecoders
  import opened MqttPackets
  import opened MqttGenerators
  import opened MqttCorruption

  // ---------------------------------------------------------------- chains of patterns

  /** Pattern number `i` turns stage `i` into stage `i + 1`. */
  ghost predicate Chain(stages: seq<seq<Byte>>, patterns: seq<Pattern>) {
    && |stages| == |patterns| + 1
    && forall i :: 0 <= i < |patterns| ==> Effect(patterns[i], stages[i], stages[i + 1])
  }

  /** No pattern makes a packet of two bytes or more shorter than two bytes, so byte 0 is always there to be read. */
  lemma StaysLong(pattern: Pattern, before: seq<Byte>, after: seq<Byte>)
    requires Effect(pattern, before, after) && |before| >= 2
    ensures |after| >= 2
  {
    if Preserving(pattern) {
      PreservingKeepsVerdict(pattern, before, after);
    }
  }

  /** A stretch of the chain in which no pattern touches size or header; without header patterns the type stays too. */
  lemma {:induction false} FrameKeptRun(stages: seq<seq<Byte>>, patterns: seq<Pattern>, i: nat, j: nat)
    requires Chain(stages, patterns) && i <= j <= |patterns|
    requires forall k :: i <= k < j ==> KeepsFrame(patterns[k])
    ensures |stages[i]| == |stages[j]| && (Framed(stages[i]) <==> Framed(stages[j]))
    ensures stages[i] != [] && (forall k :: i <= k < j ==> Preserving(patterns[k])) ==>
              TypeNibble(stages[j][0]) == TypeNibble(stages[i][0])
  {
    hide Framed, Effect, TypeNibble;
    if i < j {
      FrameKeptRun(stages, patterns, i, j - 1);
      assert Effect(patterns[j - 1], stages[j - 1], stages[j - 1 + 1]);
      FrameKept(patterns[j - 1], stages[j - 1], stages[j]);
    }
  }

  /**
   * An accepted packet that goes through a chain of patterns of which at most number `k` touches its size or length
   * field: the result is accepted exactly if its type is valid and pattern `k` left size and length field alone.
   */
  lemma OneReframer(stages: seq<seq<Byte>>, patterns: seq<Pattern>, k: nat)
    requires Chain(stages, patterns) && WellFramed(stages[0])
    requires k < |patterns| && forall i :: 0 <= i < |patterns| && i != k ==> KeepsFrame(patterns[i])
    ensures var last := stages[|patterns|];
            && |last| >= 2
            && (WellFramed(last) <==>
                && ValidType(TypeNibble(last[0]))
                && (KeepsFrame(patterns[k]) || (Resizing(patterns[k]) && stages[k + 1] == stages[k])))
  {
    DecodersAgree(stages[0]);
    FrameKeptRun(stages, patterns, 0, k);
    FrameKeptRun(stages, patterns, k + 1, |patterns|);
    var before, after := stages[k], stages[k + 1];
    assert Effect(patterns[k], before, after);
    hide Effect, Framed;
    StaysLong(patterns[k], before, after);
    if KeepsFrame(patterns[k]) {
      FrameKept(patterns[k], before, after);
    } else if Resizing(patterns[k]) {
      ResizingBreaksFrame(patterns[k], before, after);
    } else {
      RejectingIsRejected(patterns[k], before, after);
    }
  }

  /**
   * A generated packet that goes through a chain of patterns of which only number `k` is not preserving: exactly
   * when the validator still accepts the result.
   */
  lemma OneOffender(stages: seq<seq<Byte>>, patterns: seq<Pattern>, k: nat)
    requires Chain(stages, patterns) && WellFramed(stages[0])
    requires k < |patterns| && !Preserving(patterns[k])
    requires forall i :: 0 <= i < |patterns| && i != k ==> Preserving(patterns[i])
    ensures WellFramed(stages[|patterns|]) <==>
            if Rejecting(patterns[k]) then false
            else if Resizing(patterns[k]) then stages[k + 1] == stages[k]
            else stages[k + 1] != [] && ValidType(TypeNibble(stages[k + 1][0]))
  {
    OneReframer(stages, patterns, k);
    DecodersAgree(stages[0]);
    FrameKeptRun(stages, patterns, 0, k);
    FrameKeptRun(stages, patterns, k + 1, |patterns|);
    assert Effect(patterns[k], stages[k], stages[k + 1]);
  }

  // ---------------------------------------------------------------- chains of any patterns

  /** Apart from the oversized length, patterns leave what they leave of bytes 1 to 4, and at least bytes 1 and 2. */
  lemma LengthFieldKept(pattern: Pattern, before: seq<Byte>, after: seq<Byte>)
    requires !pattern.OversizedRemainingLength? && Effect(pattern, before, after)
    ensures forall k :: 1 <= k <= MAX_BYTES && k < |before| && k < |after| ==> after[k] == before[k]
    ensures |after| >= if pattern.TruncatedPayload? && |before| > 5 then |before| / 2 else |before|
  {
    if pattern.InvalidTopicFilter? {
      var hits :| TopicsCorrupted(before, hits, after);
      if hits != [] {
        HitsOnWalk(before, 4, hits);
      }
    } else if pattern.ProtocolViolation? {
      var v: nat :| v < 4 && Violated(v, before, after);
    } else if pattern.InvalidFixedHeader? {
      assert forall k :: 1 <= k < |after| ==> after[k] == after[1..][k - 1] == before[1..][k - 1] == before[k];
    }
  }

  lemma {:induction false} ShortHeaderRun(stages: seq<seq<Byte>>, patterns: seq<Pattern>, h: nat, i: nat)
    requires Chain(stages, patterns) && Header(stages[0], h) && h <= 2
    requires OversizedRemainingLength !in patterns && i <= |patterns|
    ensures Header(stages[i], h) && HeaderValue(stages[i], h) == HeaderValue(stages[0], h)
  {
    hide Effect, Value;
    if i > 0 {
      ShortHeaderRun(stages, patterns, h, i - 1);
      var before, after := stages[i - 1], stages[i];
      assert Effect(patterns[i - 1], before, stages[i - 1 + 1]);
      LengthFieldKept(patterns[i - 1], before, after);
      assert after[1..h + 1] == before[1..h + 1];
    }
  }

  /**
   * A packet with at most two length bytes, as every generated one, that goes through any number of patterns other
   * than the oversized length: the result is accepted exactly if its type is valid and its size the original one.
   */
  lemma SizeDecides(stages: seq<seq<Byte>>, patterns: seq<Pattern>)
    requires Chain(stages, patterns) && Framed(stages[0]) && ScanLength(stages[0][1..]) <= 2
    requires OversizedRemainingLength !in patterns
    ensures var last := stages[|patterns|];
            && |last| >= 2
            && (WellFramed(last) <==> ValidType(TypeNibble(last[0])) && |last| == |stages[0]|)
  {
    var h: nat :| Header(stages[0], h) && |stages[0]| == 1 + h + HeaderValue(stages[0], h);
    HeaderIsScan(stages[0], h);
    ShortHeaderRun(stages, patterns, h, |patterns|);
    var last := stages[|patterns|];
    if Framed(last) {
      var k: nat :| Header(last, k) && |last| == 1 + k + HeaderValue(last, k);
      HeaderUnique(last, h, k);
    }
  }

  /** None of bytes 1 to 4 ends the length field. */
  ghost predicate Unending(p: seq<Byte>) {
    forall k :: 1 <= k <= MAX_BYTES && k < |p| ==> Continues(p[k])
  }

  predicate Appending(pattern: Pattern) { pattern.OversizedPayload? || pattern.ExcessiveSubscriptions? }

  /** An unending length field stays one, unless it is too short and something is appended to it. */
  lemma StaysUnending(pattern: Pattern, before: seq<Byte>, after: seq<Byte>)
    requires Effect(pattern, before, after) && Unending(before) && |before| >= 2
    requires |before| > MAX_BYTES || !Appending(pattern)
    ensures Unending(after)
    ensures |before| > MAX_BYTES && !pattern.TruncatedPayload? ==> |after| > MAX_BYTES
  {
    if !pattern.OversizedRemainingLength? {
      LengthFieldKept(pattern, before, after);
      if KeepsFrame(pattern) {
        FrameKept(pattern, before, after);
      }
    }
  }

  function Pow10(k: nat): nat { if k == 0 then 1 else 10 * Pow10(k - 1) }

  lemma {:induction false} DigitsBound(n: nat, k: nat)
    requires k >= 1 && n < Pow10(k)
    ensures |Digits(n)| <= k
  {
    if n >= 10 {
      assert k > 1 by {
        assert Pow10(1) == 10 * Pow10(0);
      }
      DigitsBound(n / 10, k - 1);
    }
  }

  /** The topics of appended filters are short, so a filter begins with a zero byte. */
  lemma ExtraFilterBytes(f: Filter)
    requires ExtraFilter(f)
    ensures |f.topic| <= 15 && FilterBytes(f)[0] == 0
  {
    var n :| 0 <= n < 0x1_0000_0000 && f.topic == Ascii("topic" + Digits(n));
    assert Pow10(10) == 100000 * Pow10(5) && Pow10(5) == 100000;
    DigitsBound(n, 10);
  }

  /** If the byte behind an unending field of two or three bytes is final, its weight makes the length very large. */
  lemma LateEnd(p: seq<Byte>, q: seq<Byte>)
    requires 3 <= |p| <= MAX_BYTES && Unending(p) && q != [] && !Continues(q[0])
    requires |p| + |q| <= Value(p[1..]) + (q[0] % 128) * Pow128(|p| - 1)
    ensures !Framed(p + q)
  {
    var whole := p + q;
    assert whole[1..|p| + 1] == p[1..] + [q[0]];
    ValueSnoc(p[1..], q[0]);
    hide Value;
    assert whole[|p|] == q[0];
    assert forall k :: 1 <= k < |p| ==> whole[k] == p[k];
    assert Header(whole, |p|);
    forall h: nat | Header(whole, h)
      ensures h == |p|
    {
      HeaderUnique(whole, h, |p|);
    }
  }

  lemma PaddedFieldIsRejected(p: seq<Byte>, n: nat)
    requires 3 <= |p| <= MAX_BYTES && Unending(p) && n < 100000
    ensures !Framed(p + Repeat(0x41, n))
  {
    if n > 0 {
      assert Pow128(0) == 1 && Pow128(1) == 128 && Pow128(2) == 128 * 128 && Pow128(3) == 128 * 128 * 128;
      LateEnd(p, Repeat(0x41, n));
    } else {
      assert p + Repeat(0x41, n) == p;
    }
  }

  lemma ExtraFiltersBytes(extra: seq<Filter>)
    requires 0 < |extra| < 1100 && forall f :: f in extra ==> ExtraFilter(f)
    ensures 0 < |FiltersBytes(extra)| <= 1099 * 512 && FiltersBytes(extra)[0] == 0
  {
    hide ExtraFilter, FilterBytes;
    forall f | f in extra
      ensures |f.topic| <= 15 && FilterBytes(f)[0] == 0
    {
      ExtraFilterBytes(f);
    }
    FiltersBound(extra);
    assert extra[0] in extra;
  }

  lemma FullField(p: seq<Byte>)
    requires |p| == MAX_BYTES && p[1] == p[2] == p[3] == 0xFF
    ensures Unending(p) && Value(p[1..]) == 127 + 128 * (127 + 128 * 127)
  {
    assert p[1..] == [0xFF, 0xFF, 0xFF];
    assert Value([0xFF, 0xFF, 0xFF]) == 127 + 128 * (127 + 128 * 127);
  }

  lemma ExtendedFieldIsRejected(p: seq<Byte>, extra: seq<Filter>)
    requires |p| == MAX_BYTES && p[1] == p[2] == p[3] == 0xFF
    requires 0 < |extra| < 1100 && forall f :: f in extra ==> ExtraFilter(f)
    ensures !Framed(p + FiltersBytes(extra))
  {
    ExtraFiltersBytes(extra);
    FullField(p);
    hide FiltersBytes, ExtraFilter, Value, Pow128, Framed;
    LateEnd(p, FiltersBytes(extra));
  }

  /** The packet `m` with an oversized length, of which one half is left. */
  function HalfOversized(m: Message): (p: seq<Byte>)
    requires Fits(m)
    ensures |p| == (|Wire(m)| + 4) / 2 && |p| >= 3 && p[0] == Wire(m)[0]
    ensures forall k :: 1 <= k <= MAX_BYTES && k < |p| ==> p[k] == 0xFF
    ensures TypeNibble(p[0]) == SUBSCRIBE_TYPE ==> |p| >= MAX_BYTES
  {
    var w := Wire(m);
    assert w[0] == FirstByte(m) && |w| == 1 + |Encode(|Body(m)|)| + |Body(m)|;
    ([w[0], 0xFF, 0xFF, 0xFF, 0xFF, 0x7F] + w[2..])[..(|w| + 4) / 2]
  }

  /** What is appended to that half does not give it a length that fits. */
  lemma AppendedHalfIsRejected(m: Message, pattern: Pattern, after: seq<Byte>)
    requires Fits(m) && |HalfOversized(m)| <= MAX_BYTES
    requires Appending(pattern) && Effect(pattern, HalfOversized(m), after)
    ensures !Framed(after)
  {
    var p := HalfOversized(m);
    hide HalfOversized;
    if pattern.OversizedPayload? {
      var n :| 0 <= n < 100000 && after == p + Repeat(0x41, n);
      PaddedFieldIsRejected(p, n);
    } else if TypeNibble(p[0]) == SUBSCRIBE_TYPE {
      var extra :| 100 <= |extra| < 1100 && FiltersAppended(p, extra, after);
      ExtendedFieldIsRejected(p, extra);
    }
  }

  lemma {:induction false} AllLong(stages: seq<seq<Byte>>, patterns: seq<Pattern>, i: nat)
    requires Chain(stages, patterns) && |stages[0]| >= 2 && i <= |patterns|
    ensures |stages[i]| >= 2
  {
    hide Effect;
    if i > 0 {
      AllLong(stages, patterns, i - 1);
      assert Effect(patterns[i - 1], stages[i - 1], stages[i - 1 + 1]);
      StaysLong(patterns[i - 1], stages[i - 1], stages[i]);
    }
  }

  /** No two further patterns repair an oversized length. */
  lemma OversizedIsRejected(m: Message, stages: seq<seq<Byte>>, patterns: seq<Pattern>, k: nat)
    requires Fits(m) && Chain(stages, patterns) && stages[0] == Wire(m)
    requires k < |patterns| <= 3 && patterns[k].OversizedRemainingLength?
    ensures !Framed(stages[|patterns|])
  {
    AllLong(stages, patterns, k);
    assert Effect(patterns[k], stages[k], stages[k + 1]);
    Overwritten(patterns[k], stages[k], stages[k + 1]);
    hide Effect, Unending, Framed, Wire;
    if k + 1 == |patterns| {
      UnendingIsRejected(stages[k + 1]);
    } else {
      assert Effect(patterns[k + 1], stages[k + 1], stages[k + 1 + 1]);
      StaysUnending(patterns[k + 1], stages[k + 1], stages[k + 2]);
      if k + 2 == |patterns| {
        UnendingIsRejected(stages[k + 2]);
      } else {
        assert Effect(patterns[2], stages[2], stages[2 + 1]);
        AllLong(stages, patterns, 2);
        TwoMore(m, stages, patterns);
      }
    }
  }

  lemma UnendingIsRejected(p: seq<Byte>)
    requires Unending(p)
    ensures !Framed(p)
  {
  }

  lemma Overwritten(pattern: Pattern, before: seq<Byte>, after: seq<Byte>)
    requires Effect(pattern, before, after) && pattern.OversizedRemainingLength? && |before| >= 2
    ensures Unending(after) && |after| > MAX_BYTES
  {
  }

  lemma TwoMore(m: Message, stages: seq<seq<Byte>>, patterns: seq<Pattern>)
    requires Fits(m) && |stages| == 4 && |patterns| == 3 && stages[0] == Wire(m) && |stages[2]| >= 2
    requires forall i :: 0 <= i < 3 ==> Effect(patterns[i], stages[i], stages[i + 1])
    requires patterns[0].OversizedRemainingLength? && Unending(stages[2])
    requires |stages[2]| > MAX_BYTES || patterns[1].TruncatedPayload?
    ensures !Framed(stages[3])
  {
    assert Effect(patterns[0], stages[0], stages[1]);
    assert Effect(patterns[1], stages[1], stages[2]);
    assert Effect(patterns[2], stages[2], stages[3]);
    if |stages[2]| <= MAX_BYTES && Appending(patterns[2]) {
      HalfOfOversized(m, stages[1], stages[2]);
      AppendedHalfIsRejected(m, patterns[2], stages[3]);
    } else {
      StaysUnending(patterns[2], stages[2], stages[3]);
      UnendingIsRejected(stages[3]);
    }
  }

  lemma HalfOfOversized(m: Message, oversized: seq<Byte>, half: seq<Byte>)
    requires Fits(m) && Effect(OversizedRemainingLength, Wire(m), oversized)
    requires Effect(TruncatedPayload, oversized, half)
    ensures half == HalfOversized(m)
  {
  }

  /**
   * The verdict on every malformed packet: up to three patterns, of any kind and in any order, applied to a packet
   * with the layout of a message and at most two length bytes. It is accepted exactly if the length was never
   * oversized, the type is valid and the size is that of the message.
   */
  lemma ChainVerdict(m: Message, stages: seq<seq<Byte>>, patterns: seq<Pattern>)
    requires Fits(m) && |Body(m)| < 128 * 128
    requires Chain(stages, patterns) && stages[0] == Wire(m) && |patterns| <= 3
    ensures var last := stages[|patterns|];
            && |last| >= 2
            && (WellFramed(last) <==>
                && OversizedRemainingLength !in patterns
                && ValidType(TypeNibble(last[0])) && |last| == |Wire(m)|)
  {
    WireIsWellFramed(m);
    FrameBody(FirstByte(m), Body(m));
    EncodeLength(|Body(m)|, 2);
    assert Pow128(0) == 1 && Pow128(1) == 128 && Pow128(2) == 128 * 128;
    hide Effect, Wire, Framed, Encode;
    if OversizedRemainingLength in patterns {
      DecodersAgree(stages[0]);
      AllLong(stages, patterns, |patterns|);
      var k :| 0 <= k < |patterns| && patterns[k] == OversizedRemainingLength;
      OversizedIsRejected(m, stages, patterns, k);
    } else {
      SizeDecides(stages, patterns);
    }
  }

  lemma ExtendChain(stages: seq<seq<Byte>>, patterns: seq<Pattern>, pattern: Pattern, after: seq<Byte>)
    requires Chain(stages, patterns) && Effect(pattern, stages[|patterns|], after)
    ensures Chain(stages + [after], patterns + [pattern])
  {
  }

  /** Each pattern is the one that the draw of its number in `at` picks; the draws are made one after the other. */
  ghost predicate ChosenPatterns(data: Source, at: seq<nat>, patterns: seq<Pattern>) {
    && |at| == |patterns|
    && (forall i :: 0 <= i < |at| ==> patterns[i] == PATTERNS[data.At(at[i], 0) % |PATTERNS|])
    && (forall i, j :: 0 <= i < j < |at| ==> at[i] < at[j])
  }

  lemma ExtendChoice(data: Source, at: seq<nat>, patterns: seq<Pattern>, next: nat, pattern: Pattern)
    requires ChosenPatterns(data, at, patterns) && forall i :: 0 <= i < |at| ==> at[i] < next
    requires pattern == PATTERNS[data.At(next, 0) % |PATTERNS|]
    ensures ChosenPatterns(data, at + [next], patterns + [pattern])
  {
    hide PATTERNS;
  }

  /**
   * Each stage is what the draws behind the choice of its pattern make of the stage before; the next choice, or the
   * number `end`, follows right behind them.
   */
  ghost predicate DrawnChain(draw: Draw, at: seq<nat>, end: nat, other: Draw, otherAt: seq<nat>,
                             stages: seq<seq<Byte>>, patterns: seq<Pattern>) {
    && |at| == |otherAt| == |patterns| && |stages| == |patterns| + 1
    && forall i :: 0 <= i < |patterns| ==>
         AppliedBy(patterns[i], draw, at[i] + 1, other, otherAt[i], stages[i], stages[i + 1],
                   if i + 1 < |at| then at[i + 1] else end)
  }

  lemma ExtendDrawnChain(draw: Draw, at: seq<nat>, end: nat, other: Draw, otherAt: seq<nat>,
                         stages: seq<seq<Byte>>, patterns: seq<Pattern>, pattern: Pattern, position: nat,
                         after: seq<Byte>, next: nat)
    requires DrawnChain(draw, at, end, other, otherAt, stages, patterns)
    requires AppliedBy(pattern, draw, end + 1, other, position, stages[|patterns|], after, next)
    ensures DrawnChain(draw, at + [end], next, other, otherAt + [position], stages + [after], patterns + [pattern])
  {
    hide AppliedBy;
  }

  lemma NoPatterns(base: seq<Byte>, data: Source, end: nat, rng: Source)
    ensures Chain([base], []) && ChosenPatterns(data, [], [])
    ensures DrawnChain(data.draw, [], end, rng.draw, [], [base], [])
  {
  }

  /** One turn of the loop: a draw picks the pattern, and the next ones go into it. */
  method ApplyNext(before: seq<Byte>, data: Source, rng: Source) returns (after: seq<Byte>, ghost pattern: Pattern)
    requires |before| >= 2
    modifies data, rng
    ensures data.position > old(data.position) && |after| >= 2
    ensures pattern == PATTERNS[data.At(old(data.position), 0) % |PATTERNS|] && Effect(pattern, before, after)
    ensures data != rng ==>
              AppliedBy(pattern, data.draw, old(data.position) + 1, rng.draw, old(rng.position), before, after,
                        data.position)
  {
    hide Effect, AppliedBy;
    var index := data.Usize(0);
    var chosen := PATTERNS[index % |PATTERNS|];
    var applied := ApplyMalformedPattern(before, chosen, data, rng);
    after, pattern := applied.value, chosen;
    StaysLong(pattern, before, after);
  }

  /** The loop of the malformed generator: the first draw is the number of patterns, the next one the first pattern. */
  method ApplyPatterns(base: seq<Byte>, data: Source, rng: Source)
    returns (packet: seq<Byte>, ghost stages: seq<seq<Byte>>, ghost patterns: seq<Pattern>, ghost at: seq<nat>,
             ghost otherAt: seq<nat>)
    requires |base| >= 2
    modifies data, rng
    ensures data != rng ==> DrawnChain(data.draw, at, data.position, rng.draw, otherAt, stages, patterns)
    ensures |patterns| == data.At(old(data.position), 1) % 3 + 1
    ensures ChosenPatterns(data, at, patterns) && at[0] == old(data.position) + 1
    ensures Chain(stages, patterns) && stages[0] == base && stages[|patterns|] == packet
  {
    hide Effect, AppliedBy, PATTERNS, ChosenPatterns, Chain, DrawnChain;
    stages, patterns, at, otherAt, packet := [base], [], [], [], base;
    var draw := data.Usize(1);
    var patternCount := draw % 3 + 1;
    NoPatterns(base, data, data.position, rng);
    for i := 0 to patternCount
      invariant |patterns| == |at| == i && ChosenPatterns(data, at, patterns)
      invariant forall k :: 0 <= k < i ==> at[k] < data.position
      invariant if i == 0 then data.position == old(data.position) + 1 else at[0] == old(data.position) + 1
      invariant |stages| == i + 1 && stages[0] == base && stages[i] == packet && |packet| >= 2
      invariant Chain(stages, patterns)
      invariant data != rng ==> DrawnChain(data.draw, at, data.position, rng.draw, otherAt, stages, patterns)
    {
      ghost var next, position := data.position, rng.position;
      ghost var pattern;
      packet, pattern := ApplyNext(packet, data, rng);
      ExtendChain(stages, patterns, pattern, packet);
      ExtendChoice(data, at, patterns, next, pattern);
      if data != rng {
        ExtendDrawnChain(data.draw, at, next, rng.draw, otherAt, stages, patterns, pattern, position, packet,
                         data.position);
      }
      stages, patterns, at, otherAt := stages + [packet], patterns + [pattern], at + [next], otherAt + [position];
    }
  }

  /** The packet is the wire form of a message that can be drawn. */
  ghost predicate IsGenerated(c: Corpora, p: seq<Byte>) {
    exists m :: Drawn(c, m) && Fits(m) && p == Wire(m)
  }

  /** The packet is what one to three patterns make of a generated one. */
  ghost predicate IsMalformed(c: Corpora, p: seq<Byte>) {
    exists stages, patterns ::
      && Chain(stages, patterns) && 1 <= |patterns| <= 3
      && IsGenerated(c, stages[0]) && stages[|patterns|] == p
  }

  /**
   * Malformed packets come from a generated one by one to three patterns, as drawn; no draw makes the generator
   * panic. The number of patterns is the draw before that of the first pattern. The validator accepts the packet
   * exactly if no pattern wrote an oversized length, the type is valid and the size is still that of the message.
   */
  method GenerateMalformedPacket(c: Corpora, data: Source, rng: Source)
    returns (packet: seq<Byte>, ghost m: Message, ghost stages: seq<seq<Byte>>, ghost patterns: seq<Pattern>,
             ghost at: seq<nat>, ghost otherAt: seq<nat>)
    requires Modest(c)
    modifies data, rng
    ensures data != rng ==> DrawnChain(data.draw, at, data.position, rng.draw, otherAt, stages, patterns)
    ensures Drawn(c, m) && Fits(m) && Kind(m) == DrawnKind(data.draw, old(data.position))
    ensures ChosenPatterns(data, at, patterns) && at != [] && at[0] > old(data.position)
    ensures |patterns| == data.At(at[0] - 1, 1) % 3 + 1 && Chain(stages, patterns)
    ensures stages[0] == Wire(m) && stages[|patterns|] == packet
    ensures data != rng && Endless(data.draw) ==>
              Taken(m, at[0] - 1) == MessageFrom(c, data.draw, old(data.position))
    ensures WellFramed(stages[0]) && |packet| >= 2
    ensures WellFramed(packet) <==>
            && OversizedRemainingLength !in patterns
            && ValidType(TypeNibble(packet[0])) && |packet| == |Wire(m)|
    ensures IsMalformed(c, packet)
  {
    hide Effect, Wire, Drawn, Fits, PATTERNS, MessageFrom, Endless, DrawnChain;
    var base;
    base, m := GenerateValidPacket(c, data, rng);
    DecodersAgree(base);
    packet, stages, patterns, at, otherAt := ApplyPatterns(base, data, rng);
    DrawnBounds(c, m);
    ChainVerdict(m, stages, patterns);
    assert IsGenerated(c, stages[0]);
  }
}
