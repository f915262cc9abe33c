/**
 * The malformed patterns: what each of them does to a packet, whatever is drawn, and what that does to the verdict
 * of the validator.
 */
module MqttCorruption {
  import opened Bytes
  import opened Draws
  import opened RemainingLength
  import opened MqttDecoders
  import opened MqttPackets
  import opened MqttGenerators
  import opened Wrappers

  datatype Pattern =
    | InvalidFixedHeader
    | OversizedRemainingLength
    | InvalidPacketType
    | TruncatedPayload
    | OversizedPayload
    | InvalidQoS
    | MalformedUtf8
    | InvalidTopicFilter
    | ExcessiveSubscriptions
    | ProtocolViolation

  const PATTERNS: seq<Pattern> := [
    InvalidFixedHeader, OversizedRemainingLength, InvalidPacketType, TruncatedPayload, OversizedPayload,
    InvalidQoS, MalformedUtf8, InvalidTopicFilter, ExcessiveSubscriptions, ProtocolViolation]

  const SUBSCRIBE_TYPE: nat := 8

  // ---------------------------------------------------------------- the walk over topic filters

  /** The positions at which the walk of `inject_invalid_topic_filter` reads a length field and then corrupts. */
  function Walk(p: seq<Byte>, pos: nat): (at: seq<nat>)
    ensures forall i :: 0 <= i < |at| ==> pos <= at[i] && at[i] + 2 < |p| && at[i] + 2 + U16At(p, at[i]) < |p|
    decreases |p| - pos
  {
    if pos + 2 < |p| && pos + 2 + U16At(p, pos) < |p|
    then [pos] + Walk(p, pos + 2 + U16At(p, pos) + 1)
    else []
  }

  function AtLeastOne(n: nat): nat { if n == 0 then 1 else n }

  /** One hit for each length field read: inside the filter that follows it, or on the QoS byte of an empty one. */
  ghost predicate HitsFilters(p: seq<Byte>, pos: nat, hits: seq<nat>)
    decreases |p| - pos
  {
    if pos + 2 < |p| && pos + 2 + U16At(p, pos) < |p|
    then
      && hits != []
      && pos + 2 <= hits[0] < pos + 2 + AtLeastOne(U16At(p, pos))
      && HitsFilters(p, pos + 2 + U16At(p, pos) + 1, hits[1..])
    else hits == []
  }

  /** The same by index: hit number `i` belongs to position number `i` of the walk. */
  lemma {:induction false} HitsOnWalk(p: seq<Byte>, pos: nat, hits: seq<nat>)
    requires HitsFilters(p, pos, hits)
    ensures |hits| == |Walk(p, pos)|
    ensures forall i :: 0 <= i < |hits| ==>
              var w := Walk(p, pos)[i]; pos <= w && w + 2 <= hits[i] < w + 2 + AtLeastOne(U16At(p, w))
    decreases |p| - pos
  {
    hide U16At;
    if hits != [] {
      var next := pos + 2 + U16At(p, pos) + 1;
      HitsOnWalk(p, next, hits[1..]);
      assert Walk(p, pos) == [pos] + Walk(p, next);
      forall i | 0 < i < |hits|
        ensures Walk(p, pos)[i] == Walk(p, next)[i - 1] && hits[i] == hits[1..][i - 1]
      {
      }
    }
  }

  /** The bytes at the hits are zero and all others are as before. */
  ghost predicate Zeroed(before: seq<Byte>, hits: seq<nat>, after: seq<Byte>) {
    && |after| == |before|
    && forall k :: 0 <= k < |before| ==> after[k] == if k in hits then 0 else before[k]
  }

  ghost predicate TopicsCorrupted(before: seq<Byte>, hits: seq<nat>, after: seq<Byte>) {
    if |before| > 4 && TypeNibble(before[0]) == SUBSCRIBE_TYPE
    then HitsFilters(before, 4, hits) && Zeroed(before, hits, after)
    else hits == [] && after == before
  }

  /** The hits that the draws from number `at` on choose, one draw for each. */
  function DrawnHits(draw: Draw, at: nat, p: seq<Byte>, pos: nat): seq<nat>
    decreases |p| - pos
  {
    if pos + 2 < |p| && pos + 2 + U16At(p, pos) < |p|
    then [pos + 2 + ValueAt(draw, at, 1) % AtLeastOne(U16At(p, pos))]
         + DrawnHits(draw, at + 1, p, pos + 2 + U16At(p, pos) + 1)
    else []
  }

  lemma {:induction false} DrawnHitsFilters(draw: Draw, at: nat, p: seq<Byte>, pos: nat)
    ensures HitsFilters(p, pos, DrawnHits(draw, at, p, pos))
    decreases |p| - pos
  {
    hide U16At;
    if pos + 2 < |p| && pos + 2 + U16At(p, pos) < |p| {
      var next := pos + 2 + U16At(p, pos) + 1;
      DrawnHitsFilters(draw, at + 1, p, next);
      assert DrawnHits(draw, at, p, pos)[1..] == DrawnHits(draw, at + 1, p, next);
    }
  }

  /** The first hit, in terms of its draw; a missing draw hits the second byte of a topic that has one. */
  lemma FirstDrawnHit(draw: Draw, at: nat, p: seq<Byte>, pos: nat)
    requires pos + 2 < |p| && pos + 2 + U16At(p, pos) < |p| && U16At(p, pos) > 1
    ensures var hits := DrawnHits(draw, at, p, pos);
            && hits != []
            && (draw(at).Some? ==> hits[0] == pos + 2 + draw(at).value % U16At(p, pos))
            && (draw(at).None? ==> hits[0] == pos + 3)
            && hits[1..] == DrawnHits(draw, at + 1, p, pos + 2 + U16At(p, pos) + 1)
  {
    hide U16At;
    assert 1 % U16At(p, pos) == 1;
  }

  /** The hits of the whole pattern: none on other packets. */
  function PatternHits(draw: Draw, at: nat, p: seq<Byte>): seq<nat> {
    if |p| > 4 && TypeNibble(p[0]) == SUBSCRIBE_TYPE then DrawnHits(draw, at, p, 4) else []
  }

  method InjectInvalidTopicFilter(packet: ByteVec, data: Source) returns (ghost hits: seq<nat>)
    modifies packet, data
    ensures data.position == old(data.position) + |hits|
    ensures hits == PatternHits(data.draw, old(data.position), old(packet.bytes))
    ensures TopicsCorrupted(old(packet.bytes), hits, packet.bytes)
  {
    hide U16At, HitsFilters, DrawnHits, Zeroed, AtLeastOne;
    hits := [];
    NothingZeroed(packet.bytes);
    ghost var before, start := packet.bytes, data.position;
    if |packet.bytes| > 4 && TypeNibble(packet.bytes[0]) == SUBSCRIBE_TYPE {
      var pos: nat := 4;
      ghost var all := DrawnHits(data.draw, start, before, 4);
      while pos + 2 < |packet.bytes|
        invariant all == hits + DrawnHits(data.draw, data.position, before, pos)
        invariant data.position == start + |hits| && forall k :: k in hits ==> k < pos
        invariant Zeroed(before, hits, packet.bytes) && |packet.bytes| == |before|
        decreases |before| - pos
      {
        var topicLen := U16At(packet.bytes, pos);
        StillLength(before, hits, packet.bytes, pos);
        if pos + 2 + topicLen < |packet.bytes| {
          var draw := data.Usize(1);
          HitWithin(before, pos, draw);
          var corruptPos := pos + 2 + draw % AtLeastOne(topicLen);
          ghost var sofar := packet.bytes;
          if corruptPos < |packet.bytes| {
            packet.Set(corruptPos, 0x00);
          }
          ZeroedSnoc(before, hits, sofar, corruptPos);
          NextHit(data.draw, data.position - 1, before, pos, hits, corruptPos);
          hits := hits + [corruptPos];
          pos := pos + 2 + topicLen + 1;
        } else {
          break;
        }
      }
      NoMoreHits(data.draw, data.position, before, pos);
      DrawnHitsFilters(data.draw, start, before, 4);
    }
  }

  lemma NothingZeroed(p: seq<Byte>)
    ensures Zeroed(p, [], p)
  {
  }

  lemma ZeroedSnoc(before: seq<Byte>, hits: seq<nat>, after: seq<Byte>, hit: nat)
    requires Zeroed(before, hits, after) && hit < |after|
    ensures Zeroed(before, hits + [hit], after[hit := 0])
  {
  }

  /** A length field behind all hits is still that of the original. */
  lemma StillLength(before: seq<Byte>, hits: seq<nat>, after: seq<Byte>, pos: nat)
    requires Zeroed(before, hits, after) && pos + 1 < |after| && forall k :: k in hits ==> k < pos
    ensures |after| == |before| && U16At(after, pos) == U16At(before, pos)
  {
    SameU16(after, pos, before, pos);
  }

  lemma HitWithin(p: seq<Byte>, pos: nat, draw: nat)
    requires pos + 2 < |p| && pos + 2 + U16At(p, pos) < |p|
    ensures AtLeastOne(U16At(p, pos)) > 0
    ensures var hit := pos + 2 + draw % AtLeastOne(U16At(p, pos));
            hit < |p| && hit < pos + 2 + U16At(p, pos) + 1
  {
    hide U16At;
  }

  lemma NoMoreHits(draw: Draw, at: nat, p: seq<Byte>, pos: nat)
    requires pos + 2 < |p| ==> pos + 2 + U16At(p, pos) >= |p|
    ensures DrawnHits(draw, at, p, pos) == []
  {
  }

  /** One turn of the walk moves the next hit from those still to come to those made. */
  lemma NextHit(draw: Draw, at: nat, p: seq<Byte>, pos: nat, hits: seq<nat>, hit: nat)
    requires pos + 2 < |p| && pos + 2 + U16At(p, pos) < |p|
    requires hit == pos + 2 + ValueAt(draw, at, 1) % AtLeastOne(U16At(p, pos))
    ensures hits + DrawnHits(draw, at, p, pos)
         == hits + [hit] + DrawnHits(draw, at + 1, p, pos + 2 + U16At(p, pos) + 1)
  {
    hide U16At;
    var rest := DrawnHits(draw, at + 1, p, pos + 2 + U16At(p, pos) + 1);
    assert hits + ([hit] + rest) == hits + [hit] + rest;
  }

  // ---------------------------------------------------------------- the other helpers

  /** Two bytes (one at the very end) from index 10 on become 0xFF, 0xFE. */
  ghost predicate Utf8Corrupted(before: seq<Byte>, after: seq<Byte>) {
    if |before| > 10
    then exists pos :: 10 <= pos < |before| && after == OverwriteUtf8(before, pos)
    else after == before
  }

  function OverwriteUtf8(p: seq<Byte>, pos: nat): (q: seq<Byte>)
    requires pos < |p|
    ensures |q| == |p|
  {
    if pos + 1 < |p| then p[pos := 0xFF][pos + 1 := 0xFE] else p[pos := 0xFF]
  }

  method InjectInvalidUtf8(packet: ByteVec, data: Source)
    modifies packet, data
    ensures var p := old(packet.bytes);
            packet.bytes == if |p| > 10 then OverwriteUtf8(p, 10 + data.At(old(data.position), 1) % (|p| - 10)) else p
    ensures data.position == old(data.position) + if |old(packet.bytes)| > 10 then 1 else 0
    ensures Utf8Corrupted(old(packet.bytes), packet.bytes)
    ensures |old(packet.bytes)| > 10 ==>
              var p := old(packet.bytes);
              var pos := 10 + data.At(old(data.position), 1) % (|p| - 10);
              && |packet.bytes| == |p| && packet.bytes[..pos] == p[..pos] && packet.bytes[pos] == 0xFF
              && (pos + 1 < |p| ==> packet.bytes[pos + 1] == 0xFE && packet.bytes[pos + 2..] == p[pos + 2..])
  {
    if |packet.bytes| > 10 {
      var draw := data.Usize(1);
      var pos := 10 + draw % (|packet.bytes| - 10);
      if pos < |packet.bytes| {
        packet.Set(pos, 0xFF);
        if pos + 1 < |packet.bytes| {
          packet.Set(pos + 1, 0xFE);
        }
      }
      assert packet.bytes == OverwriteUtf8(old(packet.bytes), pos);
    }
  }

  function Digits(n: nat): string {
    if n < 10 then ["0123456789"[n]] else Digits(n / 10) + ["0123456789"[n % 10]]
  }

  /** The number that decimal digits denote, the last one with weight one. */
  function Denoted(digits: string): int {
    if digits == "" then 0
    else 10 * Denoted(digits[..|digits| - 1]) + (digits[|digits| - 1] as int - '0' as int)
  }

  /** The text of a number is read back as the number, and does not begin with a superfluous zero. */
  lemma {:induction false} DigitsDenote(n: nat)
    ensures Denoted(Digits(n)) == n && Digits(n) != ""
    ensures n > 0 ==> Digits(n)[0] != '0'
    ensures forall i :: 0 <= i < |Digits(n)| ==> '0' <= Digits(n)[i] <= '9'
  {
    if n >= 10 {
      DigitsDenote(n / 10);
      assert Digits(n)[..|Digits(n)| - 1] == Digits(n / 10);
    } else {
      assert Digits(n)[..0] == "";
    }
  }

  /** The filters that get appended: `topic` and a drawn number, with a valid QoS. */
  ghost predicate ExtraFilter(f: Filter) {
    f.qos <= 2 && exists n :: 0 <= n < 0x1_0000_0000 && f.topic == Ascii("topic" + Digits(n))
  }

  lemma NumberedFilter(n: nat, qos: Byte)
    requires n < 0x1_0000_0000 && qos <= 2
    ensures ExtraFilter(Filter(Ascii("topic" + Digits(n)), qos))
  {
    hide Digits, Ascii;
  }

  ghost predicate FiltersAppended(before: seq<Byte>, extra: seq<Filter>, after: seq<Byte>) {
    (forall f :: f in extra ==> ExtraFilter(f)) && after == before + FiltersBytes(extra)
  }

  ghost predicate SubscriptionsAppended(before: seq<Byte>, after: seq<Byte>) {
    exists extra :: 100 <= |extra| < 1100 && FiltersAppended(before, extra, after)
  }

  /** The topic with a number from the one source, and a QoS from the other. */
  function DrawnFilter(draw: Draw, at: nat, other: Draw, otherAt: nat): Filter {
    Filter(Ascii("topic" + Digits(ValueAt(other, otherAt, 0) % 0x1_0000_0000)), ValueAt(draw, at, 0) % 256 % 3)
  }

  ghost predicate DrawnFilters(draw: Draw, at: nat, other: Draw, otherAt: nat, extra: seq<Filter>) {
    forall i :: 0 <= i < |extra| ==> extra[i] == DrawnFilter(draw, at + i, other, otherAt + i)
  }

  method AppendExtraFilter(packet: ByteVec, data: Source, rng: Source) returns (ghost f: Filter)
    modifies packet, data, rng
    ensures data.position >= old(data.position)
    ensures data != rng ==>
              && data.position == old(data.position) + 1 && rng.position == old(rng.position) + 1
              && f == DrawnFilter(data.draw, old(data.position), rng.draw, old(rng.position))
    ensures ExtraFilter(f) && packet.bytes == old(packet.bytes) + FilterBytes(f)
  {
    hide Digits, Ascii, ExtraFilter, FilterBytes;
    var number := rng.Usize(0);
    var topic := Ascii("topic" + Digits(number % 0x1_0000_0000));
    var qosDraw := data.U8(0);
    PutFilter(packet, topic, qosDraw % 3);
    f := Filter(topic, qosDraw % 3);
    NumberedFilter(number % 0x1_0000_0000, qosDraw % 3);
  }

  /** The topic of an extra filter ends in the drawn number, in decimal, and its QoS is drawn too. */
  lemma ExtraFilterNumber(draw: Draw, at: nat, other: Draw, otherAt: nat, extra: seq<Filter>, i: nat)
    returns (number: string)
    requires DrawnFilters(draw, at, other, otherAt, extra) && i < |extra|
    ensures extra[i].topic == Ascii("topic" + number)
    ensures Denoted(number) == ValueAt(other, otherAt + i, 0) % 0x1_0000_0000
    ensures extra[i].qos == ValueAt(draw, at + i, 0) % 256 % 3
  {
    number := Digits(ValueAt(other, otherAt + i, 0) % 0x1_0000_0000);
    DigitsDenote(ValueAt(other, otherAt + i, 0) % 0x1_0000_0000);
    assert extra[i] == DrawnFilter(draw, at + i, other, otherAt + i);
    hide Digits, Denoted, Ascii;
  }

  lemma DrawnFiltersSnoc(draw: Draw, at: nat, other: Draw, otherAt: nat, extra: seq<Filter>, f: Filter)
    requires DrawnFilters(draw, at, other, otherAt, extra)
    requires f == DrawnFilter(draw, at + |extra|, other, otherAt + |extra|)
    ensures DrawnFilters(draw, at, other, otherAt, extra + [f])
  {
    hide DrawnFilter;
  }

  method InjectExcessiveSubscriptions(packet: ByteVec, data: Source, rng: Source) returns (ghost extra: seq<Filter>)
    modifies packet, data, rng
    ensures data.position >= old(data.position)
    ensures |extra| == data.At(old(data.position), 100) % 1000 + 100
    ensures data != rng ==>
              && data.position == old(data.position) + 1 + |extra|
              && DrawnFilters(data.draw, old(data.position) + 1, rng.draw, old(rng.position), extra)
    ensures FiltersAppended(old(packet.bytes), extra, packet.bytes)
  {
    hide FiltersAppended, DrawnFilters;
    var draw := data.Usize(100);
    extra := AppendExtraFilters(packet, data, rng, draw % 1000 + 100);
  }

  method AppendExtraFilters(packet: ByteVec, data: Source, rng: Source, count: nat) returns (ghost extra: seq<Filter>)
    modifies packet, data, rng
    ensures |extra| == count && data.position >= old(data.position)
    ensures data != rng ==>
              && data.position == old(data.position) + |extra|
              && DrawnFilters(data.draw, old(data.position), rng.draw, old(rng.position), extra)
    ensures FiltersAppended(old(packet.bytes), extra, packet.bytes)
  {
    extra := [];
    assert packet.bytes + FiltersBytes(extra) == packet.bytes;
    for i := 0 to count
      invariant |extra| == i && data.position >= old(data.position)
      invariant data != rng ==> data.position == old(data.position) + i && rng.position == old(rng.position) + i
      invariant data != rng ==> DrawnFilters(data.draw, old(data.position), rng.draw, old(rng.position), extra)
      invariant FiltersAppended(old(packet.bytes), extra, packet.bytes)
    {
      hide FiltersAppended, FilterBytes, DrawnFilter, DrawnFilters, ExtraFilter;
      ghost var before := packet.bytes;
      ghost var f := AppendExtraFilter(packet, data, rng);
      AppendedSnoc(old(packet.bytes), extra, before, f);
      if data != rng {
        DrawnFiltersSnoc(data.draw, old(data.position), rng.draw, old(rng.position), extra, f);
      }
      extra := extra + [f];
    }
  }

  lemma AppendedSnoc(before: seq<Byte>, extra: seq<Filter>, after: seq<Byte>, f: Filter)
    requires FiltersAppended(before, extra, after) && ExtraFilter(f)
    ensures FiltersAppended(before, extra + [f], after + FilterBytes(f))
  {
    hide ExtraFilter, FilterBytes;
    FiltersSnoc(extra, f);
    assert before + FiltersBytes(extra) + FilterBytes(f) == before + (FiltersBytes(extra) + FilterBytes(f));
  }

  /** Every seventh byte, two away from either end, may have changed. */
  ghost predicate SeventhsOverwritten(before: seq<Byte>, after: seq<Byte>) {
    && |after| == |before|
    && forall k :: 0 <= k < |before| ==> k % 7 != 0 || k < 2 || k >= |before| - 2 ==> after[k] == before[k]
  }

  /** What violation number `v` does. Number 0 tests bytes 9 and 10, where no generated CONNECT holds its name. */
  ghost predicate Violated(v: nat, before: seq<Byte>, after: seq<Byte>) {
    match v
    case 0 =>
      after == if |before| > 10 && before[0] == 0x10 && before[9] == 0x4D && before[10] == 0x51
               then before[9 := 0x58][10 := 0x58] else before
    case 2 =>
      if before == [] then after == before
      else exists c: Byte :: after == before[0 := OrLowNibble(before[0], c)]
    case 3 => if |before| > 4 then SeventhsOverwritten(before, after) else after == before
    case _ => after == before
  }

  /** The bytes at the multiples of seven, two away from either end, become the draws from number `at` on. */
  ghost predicate SeventhsDrawn(draw: Draw, at: nat, before: seq<Byte>, after: seq<Byte>) {
    && |after| == |before|
    && forall k :: 0 <= k < |before| ==>
         after[k] == if k % 7 == 0 && 2 <= k < |before| - 2 then ValueAt(draw, at + k / 7 - 1, 0xFF) % 256
                     else before[k]
  }

  /** The multiples of seven take the draws in order, and a missing draw is 0xFF. */
  lemma SeventhByte(draw: Draw, at: nat, before: seq<Byte>, after: seq<Byte>, j: nat)
    requires SeventhsDrawn(draw, at, before, after) && 7 <= 7 * j < |before| - 2
    ensures after[7 * j] == if draw(at + j - 1).Some? then draw(at + j - 1).value % 256 else 0xFF
  {
    assert (7 * j) % 7 == 0 && (7 * j) / 7 == j;
  }

  /** How many draws come behind the one that picks the violation. */
  function ViolationDraws(v: nat, p: seq<Byte>): nat {
    if v == 2 && p != [] then 1 else if v == 3 && |p| > 4 then (|p| - 3) / 7 else 0
  }

  /** What a violation does for given draws; the first one picks it. */
  ghost predicate ViolatedBy(draw: Draw, at: nat, before: seq<Byte>, after: seq<Byte>) {
    match ValueAt(draw, at, 0) % 256 % 4
    case 2 => after == if before == [] then before
                       else before[0 := OrLowNibble(before[0], ValueAt(draw, at + 1, 1) % 256)]
    case 3 => if |before| > 4 then SeventhsDrawn(draw, at + 1, before, after) else after == before
    case v => Violated(v, before, after)
  }

  method InjectProtocolViolation(packet: ByteVec, data: Source) returns (ghost v: nat)
    modifies packet, data
    ensures v == data.At(old(data.position), 0) % 256 % 4
    ensures data.position == old(data.position) + 1 + ViolationDraws(v, old(packet.bytes))
    ensures Violated(v, old(packet.bytes), packet.bytes)
    ensures ViolatedBy(data.draw, old(data.position), old(packet.bytes), packet.bytes)
  {
    var draw := data.U8(0);
    var violationType := draw % 4;
    v := violationType;
    match violationType {
      case 0 =>
        if |packet.bytes| > 10 && packet.bytes[0] == 0x10 {
          if packet.bytes[9] == 0x4D && packet.bytes[10] == 0x51 {
            packet.Set(9, 0x58);
            packet.Set(10, 0x58);
          }
        }
      case 1 =>
      case 2 =>
        if |packet.bytes| > 0 {
          var flags := data.U8(1);
          packet.Set(0, OrLowNibble(packet.bytes[0], flags));
        }
      case 3 =>
        if |packet.bytes| > 4 {
          OverwriteSeventhBytes(packet, data);
        }
      case _ =>
    }
  }

  method OverwriteSeventhBytes(packet: ByteVec, data: Source)
    requires |packet.bytes| > 4
    modifies packet, data
    ensures SeventhsDrawn(data.draw, old(data.position), old(packet.bytes), packet.bytes)
    ensures data.position == old(data.position) + (|old(packet.bytes)| - 3) / 7
  {
    ghost var before := packet.bytes;
    var i := 2;
    while i < |packet.bytes| - 2
      invariant 2 <= i <= |packet.bytes| - 2 && |packet.bytes| == |before|
      invariant data.position == old(data.position) + (i - 1) / 7
      invariant forall k :: 0 <= k < |before| ==>
                  packet.bytes[k] == if k % 7 == 0 && 2 <= k < i
                                     then ValueAt(data.draw, old(data.position) + k / 7 - 1, 0xFF) % 256 else before[k]
    {
      if i % 7 == 0 {
        var byte := data.U8(0xFF);
        packet.Set(i, byte);
      }
      i := i + 1;
    }
  }

  // ---------------------------------------------------------------- the patterns

  /** What a pattern can make of a packet, over all draws. */
  ghost predicate Effect(pattern: Pattern, before: seq<Byte>, after: seq<Byte>) {
    match pattern
    case InvalidFixedHeader =>
      if before == [] then after == before else |after| == |before| && after[1..] == before[1..]
    case OversizedRemainingLength =>
      after == if |before| > 1 then [before[0], 0xFF, 0xFF, 0xFF, 0xFF, 0x7F] + before[2..] else before
    case InvalidPacketType =>
      after == if before == [] then before else before[0 := 240 + before[0] % 16]
    case TruncatedPayload =>
      after == if |before| > 5 then before[..|before| / 2] else before
    case OversizedPayload =>
      exists n :: 0 <= n < 100000 && after == before + Repeat(0x41, n)
    case InvalidQoS =>
      after == if before != [] && TypeNibble(before[0]) == PUBLISH_TYPE
               then before[0 := SetQoSBits(before[0])] else before
    case MalformedUtf8 => Utf8Corrupted(before, after)
    case InvalidTopicFilter => exists hits :: TopicsCorrupted(before, hits, after)
    case ExcessiveSubscriptions =>
      if before != [] && TypeNibble(before[0]) == SUBSCRIBE_TYPE then SubscriptionsAppended(before, after)
      else after == before
    case ProtocolViolation => exists v :: 0 <= v < 4 && Violated(v, before, after)
  }

  /**
   * What a pattern makes of a packet for given draws, and the number of the next draw. `other` is the source of the
   * numbers in extra topics.
   */
  ghost predicate AppliedBy(pattern: Pattern, draw: Draw, at: nat, other: Draw, otherAt: nat, before: seq<Byte>,
                            after: seq<Byte>, next: nat) {
    match pattern
    case InvalidFixedHeader =>
      if before == [] then after == before && next == at
      else after == before[0 := ValueAt(draw, at, 0xFF) % 256] && next == at + 1
    case OversizedPayload => after == before + Repeat(0x41, ValueAt(draw, at, 10000) % 100000) && next == at + 1
    case MalformedUtf8 =>
      if |before| <= 10 then after == before && next == at
      else after == OverwriteUtf8(before, 10 + ValueAt(draw, at, 1) % (|before| - 10)) && next == at + 1
    case InvalidTopicFilter =>
      var hits := PatternHits(draw, at, before);
      Zeroed(before, hits, after) && next == at + |hits|
    case ExcessiveSubscriptions =>
      if before == [] || TypeNibble(before[0]) != SUBSCRIBE_TYPE then after == before && next == at
      else
        exists extra :: && |extra| == ValueAt(draw, at, 100) % 1000 + 100 && next == at + 1 + |extra|
                        && DrawnFilters(draw, at + 1, other, otherAt, extra) && FiltersAppended(before, extra, after)
    case ProtocolViolation =>
      ViolatedBy(draw, at, before, after) && next == at + 1 + ViolationDraws(ValueAt(draw, at, 0) % 256 % 4, before)
    case _ => Effect(pattern, before, after) && next == at
  }

  method OverwriteLength(buffer: ByteVec)
    requires |buffer.bytes| > 1
    modifies buffer
    ensures buffer.bytes == [old(buffer.bytes[0]), 0xFF, 0xFF, 0xFF, 0xFF, 0x7F] + old(buffer.bytes)[2..]
  {
    buffer.Set(1, 0xFF);
    buffer.Insert(2, 0xFF);
    buffer.Insert(3, 0xFF);
    buffer.Insert(4, 0xFF);
    buffer.Insert(5, 0x7F);
  }

  /** The edit itself, once it is clear that there is a byte to be read. */
  method ApplyToBuffer(buffer: ByteVec, pattern: Pattern, data: Source, rng: Source)
    requires pattern.ExcessiveSubscriptions? ==> buffer.bytes != []
    modifies buffer, data, rng
    ensures data.position >= old(data.position)
    ensures Effect(pattern, old(buffer.bytes), buffer.bytes)
    ensures data != rng || !pattern.ExcessiveSubscriptions? ==>
              AppliedBy(pattern, data.draw, old(data.position), rng.draw, old(rng.position), old(buffer.bytes),
                        buffer.bytes, data.position)
  {
    hide HitsFilters, Zeroed, Violated, ViolatedBy, FiltersAppended, DrawnFilters, OverwriteUtf8, Utf8Corrupted,
         PatternHits;
    match pattern {
      case InvalidFixedHeader =>
        if |buffer.bytes| > 0 {
          var byte := data.U8(0xFF);
          buffer.Set(0, byte);
        }
      case OversizedRemainingLength =>
        if |buffer.bytes| > 1 {
          OverwriteLength(buffer);
        }
      case InvalidPacketType =>
        if |buffer.bytes| > 0 {
          buffer.Set(0, buffer.bytes[0] % 16 + 240);
        }
      case TruncatedPayload =>
        if |buffer.bytes| > 5 {
          buffer.bytes := buffer.bytes[..|buffer.bytes| / 2];
        }
      case OversizedPayload =>
        var draw := data.Usize(10000);
        buffer.PutSlice(Repeat(0x41, draw % 100000));
      case InvalidQoS =>
        if |buffer.bytes| > 0 && TypeNibble(buffer.bytes[0]) == PUBLISH_TYPE {
          buffer.Set(0, SetQoSBits(buffer.bytes[0]));
        }
      case MalformedUtf8 => InjectInvalidUtf8(buffer, data);
      case InvalidTopicFilter =>
        ghost var hits := InjectInvalidTopicFilter(buffer, data);
        CorruptedIsZeroed(old(buffer.bytes), hits, buffer.bytes);
      case ExcessiveSubscriptions =>
        if TypeNibble(buffer.bytes[0]) == SUBSCRIBE_TYPE {
          ghost var extra := InjectExcessiveSubscriptions(buffer, data, rng);
        }
      case ProtocolViolation =>
        ghost var v := InjectProtocolViolation(buffer, data);
    }
  }

  /** Padding by the drawn number of bytes, and the drawn first byte. */
  lemma DrawnSizeOrHeader(pattern: Pattern, draw: Draw, at: nat, other: Draw, otherAt: nat, before: seq<Byte>,
                          after: seq<Byte>, next: nat)
    requires AppliedBy(pattern, draw, at, other, otherAt, before, after, next)
    ensures pattern.OversizedPayload? ==>
              var n := ValueAt(draw, at, 10000) % 100000;
              after == before + Repeat(0x41, n) && (|after| > |before| <==> n != 0)
    ensures pattern.InvalidFixedHeader? && before != [] ==> after == [ValueAt(draw, at, 0xFF) % 256] + before[1..]
  {
  }

  lemma CorruptedIsZeroed(before: seq<Byte>, hits: seq<nat>, after: seq<Byte>)
    requires TopicsCorrupted(before, hits, after)
    ensures Zeroed(before, hits, after)
  {
  }

  /**
   * `ExcessiveSubscriptions` reads byte 0 without a test; `None` is its panic on an empty packet. Otherwise the result
   * is the one that the draws make; `data` and `rng` are two sources, as in the program.
   */
  method ApplyMalformedPattern(basePacket: seq<Byte>, pattern: Pattern, data: Source, rng: Source)
    returns (packet: Option<seq<Byte>>)
    modifies data, rng
    ensures data.position >= old(data.position)
    ensures packet.None? <==> pattern.ExcessiveSubscriptions? && basePacket == []
    ensures packet.Some? ==> Effect(pattern, basePacket, packet.value)
    ensures packet.Some? && (data != rng || !pattern.ExcessiveSubscriptions?) ==>
              AppliedBy(pattern, data.draw, old(data.position), rng.draw, old(rng.position), basePacket, packet.value,
                        data.position)
    ensures pattern.OversizedPayload? ==>
              var n := data.At(old(data.position), 10000) % 100000;
              packet == Some(basePacket + Repeat(0x41, n)) && (|packet.value| > |basePacket| <==> n != 0)
    ensures pattern.InvalidFixedHeader? && basePacket != [] ==>
              packet == Some([data.At(old(data.position), 0xFF) % 256] + basePacket[1..])
  {
    hide Effect, AppliedBy;
    if pattern.ExcessiveSubscriptions? && |basePacket| == 0 {
      return None;
    }
    var buffer := new ByteVec(basePacket);
    ApplyToBuffer(buffer, pattern, data, rng);
    if pattern.OversizedPayload? || pattern.InvalidFixedHeader? {
      DrawnSizeOrHeader(pattern, data.draw, old(data.position), rng.draw, old(rng.position), basePacket, buffer.bytes,
                        data.position);
    }
    packet := Some(buffer.bytes);
  }

  // ---------------------------------------------------------------- what the walk leaves alone

  /** Hits never fall on a length field, so the corrupted packet is walked exactly as the original. */
  lemma {:induction false} WalkUnchanged(before: seq<Byte>, after: seq<Byte>, pos: nat, hits: seq<nat>)
    requires |after| == |before| && HitsFilters(before, pos, hits)
    requires forall k :: pos <= k < |before| ==> k in hits || after[k] == before[k]
    ensures Walk(after, pos) == Walk(before, pos)
    decreases |before| - pos
  {
    hide U16At;
    HitsOnWalk(before, pos, hits);
    if pos + 2 < |before| {
      assert before[pos] == after[pos] && before[pos + 1] == after[pos + 1];
      SameU16(before, pos, after, pos);
      if hits != [] {
        var next := pos + 2 + U16At(before, pos) + 1;
        assert hits == [hits[0]] + hits[1..];
        WalkUnchanged(before, after, next, hits[1..]);
      }
    }
  }

  /** Where the filters of a SUBSCRIBE body begin, if the first begins at `start`. */
  function Offsets(fs: seq<Filter>, start: nat): (offsets: seq<nat>)
    ensures |offsets| == |fs|
  {
    if fs == [] then [] else [start] + Offsets(fs[1..], start + 3 + |fs[0].topic|)
  }

  /** A walk that starts on the first filter visits every filter and nothing else. */
  lemma {:induction false} WalkVisitsFilters(head: seq<Byte>, fs: seq<Filter>)
    requires forall f :: f in fs ==> |f.topic| < U16_LIMIT
    ensures Walk(head + FiltersBytes(fs), |head|) == Offsets(fs, |head|)
    decreases |fs|
  {
    hide U16At, FilterBytes;
    if fs != [] {
      var f, rest := fs[0], FiltersBytes(fs[1..]);
      assert f in fs;
      var p := head + FilterBytes(f) + rest;
      assert p == head + FiltersBytes(fs);
      FirstFilterStep(head, f, rest);
      hide FiltersBytes;
      WalkVisitsFilters(head + FilterBytes(f), fs[1..]);
    }
  }

  /**
   * The walk starts at byte 4. That is the first topic filter exactly when the remaining length takes one byte;
   * otherwise it reads the wrong bytes as length fields.
   */
  lemma WalkFindsFilters(m: Message)
    requires m.Subscribe? && Fits(m) && m.filters != [] && |Body(m)| < LENGTH_LIMIT
    ensures var p := Wire(m);
            Walk(p, 4) == Offsets(m.filters, 1 + ScanLength(p[1..]) + 2) <==> ScanLength(p[1..]) == 1
  {
    FrameBody(0x82, Body(m));
    SubscribeLayout(m);
    var p, head := Wire(m), SubscribeHead(m);
    hide Wire, SubscribeHead, Body, U16At;
    if |head| == 4 {
      WalkVisitsFilters(head, m.filters);
    } else {
      assert Offsets(m.filters, |head|)[0] == |head|;
      assert Walk(p, 4) != [] ==> Walk(p, 4)[0] == 4;
    }
  }

  function Letters(n: nat): (s: string)
    ensures |s| == n && OverCharset(s, TOPIC_CHARS)
  {
    seq(n, i => 'a')
  }

  lemma LongTopic(c: Corpora) returns (t: string)
    ensures TopicText(c, t) && |t| == 152
  {
    var segments := [Letters(50), Letters(50), Letters(50)];
    assert segments[1..] == [Letters(50), Letters(50)] && segments[1..][1..] == [Letters(50)];
    assert |Join(segments)| == 152;
    hide Join;
    assert RandomSegments(segments);
    t := Join(segments);
  }

  /** A topic of three long segments makes the length two bytes: no filter is found, and the pattern does nothing. */
  lemma MissedFilter(c: Corpora) returns (m: Message)
    ensures Drawn(c, m) && m.Subscribe? && |m.filters| == 1 && Fits(m)
    ensures ScanLength(Wire(m)[1..]) == 2 && Walk(Wire(m), 4) == []
    ensures forall hits, after :: TopicsCorrupted(Wire(m), hits, after) ==> after == Wire(m)
  {
    var t := LongTopic(c);
    hide TopicText, Wire, Walk, TopicsCorrupted, Ascii;
    var f := Filter(Ascii(t), 0);
    m := Subscribe(1, [f]);
    assert IsTopic(c, f.topic);
    OneLongFilter(m, f);
  }

  lemma OneLongFilter(m: Message, f: Filter)
    requires m == Subscribe(1, [f]) && |f.topic| == 152
    ensures ScanLength(Wire(m)[1..]) == 2 && Walk(Wire(m), 4) == []
    ensures forall hits, after :: TopicsCorrupted(Wire(m), hits, after) ==> after == Wire(m)
  {
    assert FiltersBytes([f]) == FilterBytes(f) + FiltersBytes([]);
    assert |Body(m)| == 157 && Encode(157) == [157, 1];
    FrameBody(0x82, Body(m));
    assert Wire(m) == [0x82, 157, 1, 0, 1, 0, 152] + f.topic + [f.qos];
    hide Wire;
  }

  /** Everything in front of the filters. */
  function SubscribeHead(m: Message): (head: seq<Byte>)
    requires m.Subscribe?
    ensures |head| == 1 + |Encode(|Body(m)|)| + 2
  {
    [0x82] + Encode(|Body(m)|) + U16Bytes(m.subscriptionId)
  }

  lemma SubscribeLayout(m: Message)
    requires m.Subscribe? && Fits(m)
    ensures Wire(m) == SubscribeHead(m) + FiltersBytes(m.filters)
  {
    hide Encode, U16Bytes, FiltersBytes;
  }

  /** A filter after the hit: one topic byte is zero, or the QoS byte if there is no topic. */
  function SpoilOne(f: Filter, at: nat): (g: Filter)
    requires at < AtLeastOne(|f.topic|)
    ensures |g.topic| == |f.topic|
    ensures f.topic != [] ==> 0 in g.topic && g.qos == f.qos
    ensures f.topic == [] ==> g.qos == 0
  {
    if f.topic == [] then Filter([], 0)
    else
      assert f.topic[at := 0][at] == 0;
      f.(topic := f.topic[at := 0])
  }

  ghost predicate Spoiled(f: Filter, g: Filter) {
    exists at: nat :: at < AtLeastOne(|f.topic|) && g == SpoilOne(f, at)
  }

  /** `spoiled` is `fs` with each filter spoiled once. */
  ghost predicate AllSpoiled(fs: seq<Filter>, spoiled: seq<Filter>) {
    && |spoiled| == |fs|
    && forall i :: 0 <= i < |fs| ==> Spoiled(fs[i], spoiled[i])
  }

  /** A corrupted run of filters is the run of the spoiled filters. */
  lemma {:induction false} SpoiledBytes(head: seq<Byte>, fs: seq<Filter>, hits: seq<nat>, after: seq<Byte>)
    returns (spoiled: seq<Filter>)
    requires forall f :: f in fs ==> |f.topic| < U16_LIMIT
    requires HitsFilters(head + FiltersBytes(fs), |head|, hits)
    requires |after| == |head + FiltersBytes(fs)|
    requires forall k :: |head| <= k < |after| ==> after[k] == if k in hits then 0 else (head + FiltersBytes(fs))[k]
    ensures AllSpoiled(fs, spoiled) && after[|head|..] == FiltersBytes(spoiled)
    decreases |fs|
  {
    hide U16At, FilterBytes, U16Bytes, HitsFilters, SpoilOne, Spoiled;
    spoiled := [];
    if fs != [] {
      var f, rest := fs[0], FiltersBytes(fs[1..]);
      var p, next := head + FiltersBytes(fs), |head| + 3 + |fs[0].topic|;
      assert f in fs;
      assert p == (head + FilterBytes(f)) + rest;
      FirstFilterStep(head, f, rest);
      FirstHit(p, |head|, hits);
      assert hits == [hits[0]] + hits[1..];
      var tail := SpoiledBytes(head + FilterBytes(f), fs[1..], hits[1..], after);
      var at := hits[0] - |head| - 2;
      assert forall k :: |head| <= k < next ==> p[k] == FilterBytes(f)[k - |head|];
      SpoiledFilter(f, at, after[|head|..next]);
      assert after[|head|..] == after[|head|..next] + after[next..];
      spoiled := SpoilFirst(fs, at, tail);
    }
  }

  lemma SpoilFirst(fs: seq<Filter>, at: nat, tail: seq<Filter>) returns (spoiled: seq<Filter>)
    requires fs != [] && at < AtLeastOne(|fs[0].topic|) && AllSpoiled(fs[1..], tail)
    ensures spoiled == [SpoilOne(fs[0], at)] + tail && AllSpoiled(fs, spoiled)
    ensures FiltersBytes(spoiled) == FilterBytes(SpoilOne(fs[0], at)) + FiltersBytes(tail)
  {
    hide FilterBytes;
    spoiled := [SpoilOne(fs[0], at)] + tail;
    assert spoiled[1..] == tail;
    assert Spoiled(fs[0], spoiled[0]);
    forall i | 0 < i < |fs|
      ensures Spoiled(fs[i], spoiled[i])
    {
      assert Spoiled(fs[1..][i - 1], tail[i - 1]);
    }
  }

  /** The walk reads the first filter's length and goes on behind it. */
  lemma FirstFilterStep(head: seq<Byte>, f: Filter, rest: seq<Byte>)
    requires |f.topic| < U16_LIMIT
    ensures U16At(head + FilterBytes(f) + rest, |head|) == |f.topic|
  {
    hide U16At, FilterBytes;
    FilterHead(f, rest);
    SameU16(head + FilterBytes(f) + rest, |head|, FilterBytes(f) + rest, 0);
  }

  lemma FirstHit(p: seq<Byte>, pos: nat, hits: seq<nat>)
    requires HitsFilters(p, pos, hits) && pos + 2 < |p| && pos + 2 + U16At(p, pos) < |p|
    ensures hits != [] && pos + 2 <= hits[0] < pos + 2 + AtLeastOne(U16At(p, pos))
    ensures HitsFilters(p, pos + 2 + U16At(p, pos) + 1, hits[1..])
    ensures forall k :: k in hits[1..] ==> k >= pos + 2 + U16At(p, pos) + 3
  {
    hide U16At;
    HitsOnWalk(p, pos + 2 + U16At(p, pos) + 1, hits[1..]);
  }

  lemma SpoiledFilter(f: Filter, at: nat, bytes: seq<Byte>)
    requires at < AtLeastOne(|f.topic|) && |bytes| == |f.topic| + 3
    requires forall k :: 0 <= k < |bytes| ==> bytes[k] == if k == at + 2 then 0 else FilterBytes(f)[k]
    ensures bytes == FilterBytes(SpoilOne(f, at))
  {
  }

  /**
   * On a SUBSCRIBE with a one-byte remaining length the corrupted packet still reads back: same identifier, same
   * number of filters with the same lengths, and one zero byte in each of them.
   */
  lemma CorruptedSubscribeReads(m: Message, hits: seq<nat>, after: seq<Byte>) returns (spoiled: seq<Filter>)
    requires m.Subscribe? && Fits(m) && |Body(m)| < LENGTH_LIMIT
    requires ScanLength(Wire(m)[1..]) == 1
    requires TopicsCorrupted(Wire(m), hits, after)
    ensures AllSpoiled(m.filters, spoiled)
    ensures Read(after) == Some(Subscribe(m.subscriptionId, spoiled))
  {
    hide Body, FilterBytes, U16Bytes, U16At, Read, ReadBody, FirstByte;
    FrameBody(0x82, Body(m));
    SubscribeLayout(m);
    spoiled := SpoiledWire(SubscribeHead(m), m.filters, hits, after);
    SpoiledFits(m, spoiled);
    ReadInvertsWire(Subscribe(m.subscriptionId, spoiled));
  }

  /** The corrupted packet is the head followed by the spoiled filters. */
  lemma SpoiledWire(head: seq<Byte>, fs: seq<Filter>, hits: seq<nat>, after: seq<Byte>) returns (spoiled: seq<Filter>)
    requires |head| == 4 && forall f :: f in fs ==> |f.topic| < U16_LIMIT
    requires HitsFilters(head + FiltersBytes(fs), 4, hits) && Zeroed(head + FiltersBytes(fs), hits, after)
    ensures AllSpoiled(fs, spoiled)
    ensures after == head + FiltersBytes(spoiled) && |FiltersBytes(spoiled)| == |FiltersBytes(fs)|
  {
    hide FiltersBytes, U16At;
    HitsOnWalk(head + FiltersBytes(fs), 4, hits);
    spoiled := SpoiledBytes(head, fs, hits, after);
    assert after[..4] == head;
    assert after == after[..4] + after[4..];
  }

  /** Spoiled filters fit where the filters did, and leave what stands before them as it is. */
  lemma SpoiledFits(m: Message, spoiled: seq<Filter>)
    requires m.Subscribe? && Fits(m) && AllSpoiled(m.filters, spoiled)
    requires |FiltersBytes(spoiled)| == |FiltersBytes(m.filters)|
    ensures var n := Subscribe(m.subscriptionId, spoiled);
            Fits(n) && |Body(n)| == |Body(m)| && Wire(n) == SubscribeHead(m) + FiltersBytes(spoiled)
  {
    hide Encode, U16Bytes, FiltersBytes;
    var n := Subscribe(m.subscriptionId, spoiled);
    forall f | f in spoiled
      ensures |f.topic| < U16_LIMIT
    {
      var i :| 0 <= i < |spoiled| && spoiled[i] == f;
      assert m.filters[i] in m.filters;
    }
    SubscribeLayout(n);
  }

  // ---------------------------------------------------------------- verdicts

  /** The patterns that never touch the length field, the packet type or the packet's size. */
  predicate Preserving(pattern: Pattern) {
    pattern in {InvalidQoS, MalformedUtf8, InvalidTopicFilter, ProtocolViolation}
  }

  /** The patterns that leave no room for a valid header. */
  predicate Rejecting(pattern: Pattern) {
    pattern in {InvalidPacketType, OversizedRemainingLength}
  }

  /** The patterns that change the size of the packet without touching its header. */
  predicate Resizing(pattern: Pattern) {
    pattern in {TruncatedPayload, OversizedPayload, ExcessiveSubscriptions}
  }

  /** The preserving patterns and the two that write the first byte: none of them touches the size or the header. */
  predicate KeepsFrame(pattern: Pattern) {
    Preserving(pattern) || pattern.InvalidFixedHeader? || pattern.InvalidPacketType?
  }

  lemma FrameKept(pattern: Pattern, before: seq<Byte>, after: seq<Byte>)
    requires KeepsFrame(pattern) && Effect(pattern, before, after)
    ensures |after| == |before| && (Framed(after) <==> Framed(before))
    ensures Preserving(pattern) && before != [] ==> TypeNibble(after[0]) == TypeNibble(before[0])
  {
    if pattern.InvalidTopicFilter? {
      var hits :| TopicsCorrupted(before, hits, after);
      if hits != [] {
        HitsOnWalk(before, 4, hits);
      }
    } else if pattern.ProtocolViolation? {
      var v: nat :| v < 4 && Violated(v, before, after);
    } else if pattern.InvalidFixedHeader? {
      assert forall k :: 1 <= k < |after| ==> after[k] == after[1..][k - 1] == before[1..][k - 1] == before[k];
    }
    FramedBySizeAndHeader(before, after);
  }

  lemma PreservingKeepsVerdict(pattern: Pattern, before: seq<Byte>, after: seq<Byte>)
    requires Preserving(pattern) && Effect(pattern, before, after)
    ensures WellFramed(after) <==> WellFramed(before)
    ensures |after| == |before|
  {
    FrameKept(pattern, before, after);
  }

  lemma RejectingIsRejected(pattern: Pattern, before: seq<Byte>, after: seq<Byte>)
    requires Rejecting(pattern) && Effect(pattern, before, after)
    requires pattern.InvalidPacketType? ==> before != []
    requires pattern.OversizedRemainingLength? ==> |before| > 1
    ensures !WellFramed(after)
    ensures pattern.OversizedRemainingLength? ==> !Framed(after)
  {
    if pattern.OversizedRemainingLength? {
      assert after[1] == after[2] == after[3] == after[4] == 0xFF;
    }
  }

  /** A framed packet is no longer framed once its size has changed: framed packets are prefix-free. */
  lemma ResizingBreaksFrame(pattern: Pattern, before: seq<Byte>, after: seq<Byte>)
    requires Resizing(pattern) && Effect(pattern, before, after) && Framed(before)
    ensures Framed(after) <==> after == before
  {
    hide Framed;
    if Framed(after) {
      if |after| <= |before| {
        assert after <= before;
        FramedPrefixFree(after, before);
      } else {
        assert before <= after;
        FramedPrefixFree(before, after);
      }
    }
  }

  lemma ResizingIsRejected(pattern: Pattern, before: seq<Byte>, after: seq<Byte>)
    requires Resizing(pattern) && Effect(pattern, before, after) && WellFramed(before)
    ensures WellFramed(after) <==> after == before
    ensures pattern.TruncatedPayload? && |before| > 5 ==> after != before
    ensures pattern.ExcessiveSubscriptions? && TypeNibble(before[0]) == SUBSCRIBE_TYPE ==> after != before
  {
    if pattern.ExcessiveSubscriptions? && TypeNibble(before[0]) == SUBSCRIBE_TYPE {
      var extra :| 100 <= |extra| < 1100 && FiltersAppended(before, extra, after);
      assert |FiltersBytes(extra)| >= |FilterBytes(extra[0])| > 0;
    }
    ResizingBreaksFrame(pattern, before, after);
  }

  /** A new first byte is judged by its type alone; the rest is judged as before. */
  lemma FixedHeaderVerdict(before: seq<Byte>, after: seq<Byte>)
    requires before != [] && Effect(InvalidFixedHeader, before, after)
    ensures WellFramed(after) <==> ValidType(TypeNibble(after[0])) && Framed(before)
  {
    FrameKept(InvalidFixedHeader, before, after);
  }

  /**
   * The "invalid protocol name" violation changes no packet that has the layout of a message: byte 9 of a CONNECT
   * holds its flags, its protocol level or the third letter of the name, depending on the number of length bytes.
   */
  lemma NameViolationDoesNothing(m: Message, after: seq<Byte>)
    requires Fits(m) && Violated(0, Wire(m), after)
    ensures after == Wire(m)
  {
    assert Wire(m)[0] == FirstByte(m);
    if m.Connect? {
      ConnectLayout(m);
    }
  }
}
