/** The packet generators of the MQTT fuzzer, and what every packet they can produce satisfies. */
module MqttGenerators {
  import opened Bytes
  import opened Draws
  import opened RemainingLength
  import opened MqttDecoders
  import opened MqttPackets
  import opened Wrappers

  // ---------------------------------------------------------------- the corpora

  /** The bytes of a text whose characters are all ASCII, as every text of the corpora and the charsets is. */
  function Ascii(s: string): (bytes: seq<Byte>)
    ensures |bytes| == |s|
  {
    if s == "" then [] else [s[0] as int % 256] + Ascii(s[1..])
  }

  function Repeat(b: Byte, n: nat): (bytes: seq<Byte>)
    ensures |bytes| == n
  {
    if n == 0 then [] else [b] + Repeat(b, n - 1)
  }

  /** An ASCII text is read back from its bytes, character by character. */
  lemma {:induction false} AsciiAt(s: string, i: nat)
    requires i < |s| && s[i] as int < 128
    ensures Ascii(s)[i] as char == s[i]
  {
    if i > 0 {
      AsciiAt(s[1..], i - 1);
    }
  }

  lemma {:induction false} RepeatAt(b: Byte, n: nat, i: nat)
    requires i < n
    ensures Repeat(b, n)[i] == b
  {
    if i > 0 {
      RepeatAt(b, n - 1, i - 1);
    }
  }

  datatype Payload = Text(s: string) | Fill(b: Byte, n: nat)

  function PayloadLength(p: Payload): nat {
    match p
    case Text(s) => |s|
    case Fill(_, n) => n
  }

  function Expand(p: Payload): (bytes: seq<Byte>)
    ensures |bytes| == PayloadLength(p)
  {
    match p
    case Text(s) => Ascii(s)
    case Fill(b, n) => Repeat(b, n)
  }

  /** The fields of the fuzzer object, which its constructor fills and nothing changes. */
  datatype Corpora = Corpora(topics: seq<string>, clientIds: seq<string>, payloads: seq<Payload>)

  /** The lengths the packet bounds below rely on. */
  ghost predicate Modest(c: Corpora) {
    && (forall t :: t in c.topics ==> |t| <= LONGEST_TOPIC)
    && (forall id :: id in c.clientIds ==> |id| <= 115)
    && (forall p :: p in c.payloads ==> PayloadLength(p) < 10000)
  }

  const DEFAULT_TOPICS: seq<string> := [
    "sensor/temperature", "device/status", "home/living-room/light", "factory/machine1/alerts",
    "$SYS/broker/load/messages/received", "iot/+/telemetry", "building/floor/+/room/+/sensor/+", "/", ""]

  const DEFAULT_CLIENT_IDS: seq<string> := [
    "sensor001", "gateway-12345", "mobile-app-user123", "",
    "very-long-client-id-that-exceeds-normal-limits-and-might-cause-buffer-overflows-in-poorly-implemented-brokers"]

  const DEFAULT_PAYLOADS: seq<Payload> := [
    Text("Hello, MQTT!"), Text("{\"temperature\": 23.5, \"humidity\": 60.2}"), Text("ON"), Text("OFF"),
    Fill(0, 1000), Fill(0xFF, 100), Fill(0, 0)]

  lemma DefaultCorporaAreModest()
    ensures Modest(Corpora(DEFAULT_TOPICS, DEFAULT_CLIENT_IDS, DEFAULT_PAYLOADS))
  {
    assert forall i :: 0 <= i < |DEFAULT_TOPICS| ==> |DEFAULT_TOPICS[i]| <= LONGEST_TOPIC;
    assert forall i :: 0 <= i < |DEFAULT_CLIENT_IDS| ==> |DEFAULT_CLIENT_IDS[i]| <= 115;
    assert forall i :: 0 <= i < |DEFAULT_PAYLOADS| ==> PayloadLength(DEFAULT_PAYLOADS[i]) < 10000;
  }

  // ---------------------------------------------------------------- what can be drawn

  ghost predicate OverCharset(s: string, charset: string) {
    forall i :: 0 <= i < |s| ==> s[i] in charset
  }

  const TOPIC_CHARS: string := "abcdefghijklmnopqrstuvwxyz0123456789_-+#"
  const ID_CHARS: string := "abcdefghijklmnopqrstuvwxyzABCDEFGHIJKLMNOPQRSTUVWXYZ0123456789_-"

  ghost predicate Segment(s: string) { 1 <= |s| <= 50 && OverCharset(s, TOPIC_CHARS) }

  ghost predicate Segments(segments: seq<string>) { forall i :: 0 <= i < |segments| ==> Segment(segments[i]) }

  ghost predicate RandomSegments(segments: seq<string>) {
    1 <= |segments| <= 10 && Segments(segments)
  }

  function Join(segments: seq<string>): string {
    if segments == [] then ""
    else if |segments| == 1 then segments[0]
    else segments[0] + "/" + Join(segments[1..])
  }

  /** The text cut at every `c`. It is defined from the end of the text, so independently of Join. */
  function SplitAt(t: string, c: char): (parts: seq<string>)
    ensures |parts| >= 1
  {
    if t == "" then [""]
    else
      var parts, last := SplitAt(t[..|t| - 1], c), t[|t| - 1];
      var n := |parts| - 1;
      if last == c then parts + [""] else parts[n := parts[n] + [last]]
  }

  lemma {:induction false} SplitWithout(t: string, c: char)
    requires c !in t
    ensures SplitAt(t, c) == [t]
  {
    if t != "" {
      SplitWithout(t[..|t| - 1], c);
      assert t == t[..|t| - 1] + [t[|t| - 1]];
    }
  }

  lemma {:induction false} SplitFirst(first: string, rest: string, c: char)
    requires c !in first
    ensures SplitAt(first + [c] + rest, c) == [first] + SplitAt(rest, c)
  {
    var whole := first + [c] + rest;
    if rest == "" {
      assert whole[..|whole| - 1] == first;
      SplitWithout(first, c);
    } else {
      assert whole[..|whole| - 1] == first + [c] + rest[..|rest| - 1];
      SplitFirst(first, rest[..|rest| - 1], c);
    }
  }

  /** Cutting a joined topic at every slash gives its segments back. */
  lemma {:induction false} JoinSplits(segments: seq<string>)
    requires segments != [] && forall i :: 0 <= i < |segments| ==> '/' !in segments[i]
    ensures SplitAt(Join(segments), '/') == segments
  {
    if |segments| == 1 {
      SplitWithout(segments[0], '/');
    } else {
      JoinSplits(segments[1..]);
      SplitFirst(segments[0], Join(segments[1..]), '/');
      assert segments == [segments[0]] + segments[1..];
    }
  }

  /** There is one slash fewer than there are parts. */
  lemma {:induction false} SlashesOf(t: string, c: char)
    ensures multiset(t)[c] == |SplitAt(t, c)| - 1
  {
    if t != "" {
      SlashesOf(t[..|t| - 1], c);
      assert t == t[..|t| - 1] + [t[|t| - 1]];
    }
  }

  lemma NoSlash()
    ensures '/' !in TOPIC_CHARS
  {
  }

  lemma SlashFree(s: string)
    requires OverCharset(s, TOPIC_CHARS) && '/' !in TOPIC_CHARS
    ensures '/' !in s
  {
    hide TOPIC_CHARS;
  }

  /** A random topic has as many levels as segments were drawn: no character of the charset is a slash. */
  lemma RandomTopicLevels(segments: seq<string>)
    requires RandomSegments(segments)
    ensures SplitAt(Join(segments), '/') == segments && multiset(Join(segments))['/'] == |segments| - 1
  {
    NoSlash();
    forall i | 0 <= i < |segments|
      ensures '/' !in segments[i]
    {
      SlashFree(segments[i]);
    }
    hide OverCharset;
    JoinSplits(segments);
    SlashesOf(Join(segments), '/');
  }

  ghost predicate TopicText(c: Corpora, t: string) {
    t in c.topics || exists segments :: RandomSegments(segments) && t == Join(segments)
  }

  ghost predicate ClientIdText(c: Corpora, id: string) {
    id in c.clientIds || (1 <= |id| <= 100 && OverCharset(id, ID_CHARS))
  }

  ghost predicate IsTopic(c: Corpora, topic: seq<Byte>) {
    exists t :: TopicText(c, t) && topic == Ascii(t)
  }

  ghost predicate IsClientId(c: Corpora, id: seq<Byte>) {
    exists t :: ClientIdText(c, t) && id == Ascii(t)
  }

  ghost predicate IsPayload(c: Corpora, payload: seq<Byte>) {
    (exists p :: p in c.payloads && payload == Expand(p)) || |payload| < 10000
  }

  /** The messages the generators choose between. */
  ghost predicate Drawn(c: Corpora, m: Message) {
    match m
    case Connect(id, keepAlive, _) => IsClientId(c, id) && keepAlive < U16_LIMIT
    case Publish(topic, payload, qos, _, _, packetId) =>
      && IsTopic(c, topic) && IsPayload(c, payload) && qos <= 2
      && (packetId.Some? <==> qos > 0) && (packetId.Some? ==> packetId.value < U16_LIMIT)
    case Subscribe(id, filters) =>
      && id < U16_LIMIT && 1 <= |filters| <= 10
      && forall f :: f in filters ==> IsTopic(c, f.topic) && f.qos <= 2
    case PingReq => true
  }

  // ---------------------------------------------------------------- bounds

  const LONGEST_TOPIC: nat := 509
  const LONGEST_BODY: nat := 10512
  const LONGEST_PACKET: nat := 10515

  lemma {:induction false} JoinBound(segments: seq<string>)
    requires segments != [] && forall i :: 0 <= i < |segments| ==> |segments[i]| <= 50
    ensures |Join(segments)| <= 51 * |segments| - 1
  {
    if |segments| > 1 {
      JoinBound(segments[1..]);
    }
  }

  lemma TopicBound(c: Corpora, topic: seq<Byte>)
    requires Modest(c) && IsTopic(c, topic)
    ensures |topic| <= LONGEST_TOPIC
  {
    var t :| TopicText(c, t) && topic == Ascii(t);
    if t !in c.topics {
      var segments :| RandomSegments(segments) && t == Join(segments);
      JoinBound(segments);
    }
  }

  /** The bytes the subscribe generator reserves for its filters before it writes any of them. */
  function ReservedBytes(topics: seq<seq<Byte>>): nat {
    if topics == [] then 0 else ReservedBytes(topics[..|topics| - 1]) + 2 + |topics[|topics| - 1]| + 1
  }

  lemma ReservedSnoc(topics: seq<seq<Byte>>, topic: seq<Byte>)
    ensures ReservedBytes(topics + [topic]) == ReservedBytes(topics) + 2 + |topic| + 1
  {
    assert (topics + [topic])[..|topics|] == topics;
  }

  lemma {:induction false} FiltersSnoc(fs: seq<Filter>, f: Filter)
    ensures FiltersBytes(fs + [f]) == FiltersBytes(fs) + FilterBytes(f)
  {
    if fs == [] {
      assert FiltersBytes([f]) == FilterBytes(f) + FiltersBytes([]);
    } else {
      assert (fs + [f])[1..] == fs[1..] + [f];
      FiltersSnoc(fs[1..], f);
    }
  }

  lemma {:induction false} FiltersBound(fs: seq<Filter>)
    requires forall f :: f in fs ==> |f.topic| <= LONGEST_TOPIC
    ensures |FiltersBytes(fs)| <= (LONGEST_TOPIC + 3) * |fs|
  {
    if fs != [] {
      assert fs[0] in fs;
      FiltersBound(fs[1..]);
    }
  }

  lemma DrawnBounds(c: Corpora, m: Message)
    requires Modest(c) && Drawn(c, m)
    ensures Fits(m) && |Body(m)| <= LONGEST_BODY
    ensures m.Connect? ==> |Body(m)| < 128
  {
    match m
    case Connect(_, _, _) =>
    case Publish(topic, _, _, _, _, _) => TopicBound(c, topic);
    case Subscribe(_, filters) =>
      forall f | f in filters
        ensures |f.topic| <= LONGEST_TOPIC
      {
        TopicBound(c, f.topic);
      }
      FiltersBound(filters);
    case PingReq =>
  }

  /**
   * Every packet the generators can produce passes the validator, needs at most two length bytes (one for a
   * CONNECT), is at most 10515 bytes long, and reads back as the message it was made from.
   */
  lemma GeneratedPackets(c: Corpora, m: Message)
    requires Modest(c) && Drawn(c, m)
    ensures Fits(m)
    ensures WellFramed(Wire(m))
    ensures Read(Wire(m)) == Some(m)
    ensures ScanLength(Wire(m)[1..]) <= (if m.Connect? then 1 else 2)
    ensures |Wire(m)| <= LONGEST_PACKET
  {
    DrawnBounds(c, m);
    FrameValid(FirstByte(m), Body(m));
    FrameBody(FirstByte(m), Body(m));
    ReadInvertsWire(m);
    EncodeLength(|Body(m)|, 1);
    EncodeLength(|Body(m)|, 2);
    assert Pow128(1) == 128 * Pow128(0) && Pow128(2) == 128 * Pow128(1);
  }

  /** With the default keep-alive of a minute, the supposed length of the protocol name is sixty. */
  lemma KeepAliveAsNameLength(c: Corpora) returns (m: Message)
    ensures Drawn(c, m) && m.Connect? && m.keepAlive == 60 && Fits(m)
    ensures TypeFeatures(Wire(m)) == [60] != [|PROTOCOL_NAME|]
  {
    var id := ID_CHARS[..1];
    assert ClientIdText(c, id);
    m := Connect(Ascii(id), 60, true);
    ConnectFeatures(m);
  }

  // ---------------------------------------------------------------- selecting the parts

  /** Draw number `at` decides between a corpus of `size` entries, where the next draw picks one, and a random value. */
  predicate FromCorpus(draw: Draw, at: nat, size: nat) { ValueAt(draw, at, 0) % 2 == 1 && size > 0 }

  function CharsFrom(draw: Draw, at: nat, length: nat, charset: string): (s: string)
    requires charset != ""
    ensures |s| == length
  {
    seq(length, i requires 0 <= i < length => charset[ValueAt(draw, at + i, 0) % |charset|])
  }

  function SegmentsFrom(draw: Draw, at: nat, count: nat): (r: Taken<seq<string>>)
    ensures |r.value| == count
  {
    if count == 0 then Taken([], at)
    else
      var front := SegmentsFrom(draw, at, count - 1);
      var length := ValueAt(draw, front.next, 5) % 50 + 1;
      Taken(front.value + [CharsFrom(draw, front.next + 1, length, TOPIC_CHARS)], front.next + 1 + length)
  }

  lemma SegmentsSnoc(draw: Draw, at: nat, count: nat)
    ensures var front := SegmentsFrom(draw, at, count);
            var length := ValueAt(draw, front.next, 5) % 50 + 1;
            SegmentsFrom(draw, at, count + 1)
            == Taken(front.value + [CharsFrom(draw, front.next + 1, length, TOPIC_CHARS)], front.next + 1 + length)
  {
  }

  function TopicFrom(c: Corpora, draw: Draw, at: nat): Taken<string> {
    if FromCorpus(draw, at, |c.topics|) then Taken(c.topics[ValueAt(draw, at + 1, 0) % |c.topics|], at + 2)
    else
      var segments := SegmentsFrom(draw, at + 2, ValueAt(draw, at + 1, 2) % 10 + 1);
      Taken(Join(segments.value), segments.next)
  }

  function ClientIdFrom(c: Corpora, draw: Draw, at: nat): Taken<string> {
    if FromCorpus(draw, at, |c.clientIds|) then Taken(c.clientIds[ValueAt(draw, at + 1, 0) % |c.clientIds|], at + 2)
    else
      var length := ValueAt(draw, at + 1, 10) % 100 + 1;
      Taken(CharsFrom(draw, at + 2, length, ID_CHARS), at + 2 + length)
  }

  function BytesFrom(draw: Draw, at: nat, length: nat): (bytes: seq<Byte>)
    ensures |bytes| == length
  {
    seq(length, i requires 0 <= i < length => ValueAt(draw, at + i, 0) % 256)
  }

  function PayloadFrom(c: Corpora, draw: Draw, at: nat): Taken<seq<Byte>> {
    if FromCorpus(draw, at, |c.payloads|)
    then Taken(Expand(c.payloads[ValueAt(draw, at + 1, 0) % |c.payloads|]), at + 2)
    else
      var length := ValueAt(draw, at + 1, 100) % 10000;
      Taken(BytesFrom(draw, at + 2, length), at + 2 + length)
  }

  method SelectTopic(c: Corpora, data: Source) returns (topic: string)
    modifies data
    ensures data.position >= old(data.position)
    ensures TopicText(c, topic)
    ensures Taken(topic, data.position) == TopicFrom(c, data.draw, old(data.position))
  {
    hide SegmentsFrom, Join;
    var fromCorpus := data.Bool(false);
    if fromCorpus && |c.topics| > 0 {
      var draw := data.Usize(0);
      topic := c.topics[draw % |c.topics|];
    } else {
      ghost var segments;
      topic, segments := GenerateRandomTopic(data);
    }
  }

  method RandomString(data: Source, length: nat, charset: string) returns (s: string)
    requires charset != ""
    modifies data
    ensures data.position == old(data.position) + length
    ensures s == CharsFrom(data.draw, old(data.position), length, charset) && OverCharset(s, charset)
  {
    s := "";
    while |s| < length
      invariant |s| <= length && OverCharset(s, charset) && data.position == old(data.position) + |s|
      invariant forall i :: 0 <= i < |s| ==> s[i] == charset[data.At(old(data.position) + i, 0) % |charset|]
    {
      var draw := data.Usize(0);
      s := s + [charset[draw % |charset|]];
    }
  }

  method GenerateRandomTopic(data: Source) returns (topic: string, ghost segments: seq<string>)
    modifies data
    ensures data.position >= old(data.position)
    ensures RandomSegments(segments) && topic == Join(segments) && SplitAt(topic, '/') == segments
    ensures var p := old(data.position);
            Taken(segments, data.position) == SegmentsFrom(data.draw, p + 1, data.At(p, 2) % 10 + 1)
  {
    hide Join, SplitAt, Segments, SegmentsFrom;
    var draw := data.Usize(2);
    var segmentCount := draw % 10 + 1;
    var parts := DrawSegments(data, segmentCount);
    segments := parts;
    topic := Join(parts);
    RandomTopicLevels(segments);
  }

  method DrawSegments(data: Source, count: nat) returns (parts: seq<string>)
    modifies data
    ensures data.position >= old(data.position)
    ensures |parts| == count && Segments(parts)
    ensures Taken(parts, data.position) == SegmentsFrom(data.draw, old(data.position), count)
  {
    parts := [];
    while |parts| < count
      invariant |parts| <= count && data.position >= old(data.position)
      invariant Taken(parts, data.position) == SegmentsFrom(data.draw, old(data.position), |parts|)
      invariant Segments(parts)
    {
      hide SegmentsFrom, Segment, CharsFrom;
      SegmentsSnoc(data.draw, old(data.position), |parts|);
      var segment := DrawSegment(data);
      parts := parts + [segment];
    }
  }

  method DrawSegment(data: Source) returns (segment: string)
    modifies data
    ensures Segment(segment) && |segment| == data.At(old(data.position), 5) % 50 + 1
    ensures data.position == old(data.position) + 1 + |segment|
    ensures segment == CharsFrom(data.draw, old(data.position) + 1, |segment|, TOPIC_CHARS)
  {
    hide CharsFrom, OverCharset;
    var lengthDraw := data.Usize(5);
    segment := RandomString(data, lengthDraw % 50 + 1, TOPIC_CHARS);
  }

  method SelectClientId(c: Corpora, data: Source) returns (id: string)
    modifies data
    ensures data.position >= old(data.position)
    ensures ClientIdText(c, id)
    ensures Taken(id, data.position) == ClientIdFrom(c, data.draw, old(data.position))
  {
    hide CharsFrom;
    var fromCorpus := data.Bool(false);
    if fromCorpus && |c.clientIds| > 0 {
      var draw := data.Usize(0);
      id := c.clientIds[draw % |c.clientIds|];
    } else {
      var draw := data.Usize(10);
      id := RandomString(data, draw % 100 + 1, ID_CHARS);
    }
  }

  /** `rng` supplies the payload bytes for which `data` has no draw. */
  method SelectPayload(c: Corpora, data: Source, rng: Source) returns (payload: seq<Byte>)
    modifies data, rng
    ensures data.position >= old(data.position)
    ensures IsPayload(c, payload)
    ensures var r := PayloadFrom(c, data.draw, old(data.position));
            |payload| == |r.value| && (data != rng ==> data.position == r.next)
    ensures data != rng && !FromCorpus(data.draw, old(data.position), |c.payloads|) ==>
              FilledFrom(data.draw, old(data.position) + 2, rng.draw, old(rng.position), payload)
    ensures (data != rng && Endless(data.draw)) || FromCorpus(data.draw, old(data.position), |c.payloads|) ==>
              payload == PayloadFrom(c, data.draw, old(data.position)).value
  {
    hide Expand;
    var fromCorpus := data.Bool(false);
    if fromCorpus && |c.payloads| > 0 {
      var draw := data.Usize(0);
      payload := Expand(c.payloads[draw % |c.payloads|]);
    } else {
      var draw := data.Usize(100);
      payload := RandomBytes(data, rng, draw % 10000);
      if data != rng && Endless(data.draw) {
        AllBytesDrawn(data.draw, old(data.position) + 2, rng.draw, old(rng.position), payload);
      }
    }
  }

  /** How many of the `n` draws from number `at` on are missing. */
  function Missing(draw: Draw, at: nat, n: nat): nat {
    if n == 0 then 0 else Missing(draw, at, n - 1) + if draw(at + n - 1).Some? then 0 else 1
  }

  /** Byte number `i` is its draw or, if that is missing, the next one of the other source. */
  ghost predicate FilledFrom(draw: Draw, at: nat, other: Draw, otherAt: nat, bytes: seq<Byte>) {
    forall i :: 0 <= i < |bytes| ==>
      bytes[i] == if draw(at + i).Some? then draw(at + i).value % 256
                  else ValueAt(other, otherAt + Missing(draw, at, i), 0) % 256
  }

  lemma AllBytesDrawn(draw: Draw, at: nat, other: Draw, otherAt: nat, bytes: seq<Byte>)
    requires Endless(draw) && FilledFrom(draw, at, other, otherAt, bytes)
    ensures bytes == BytesFrom(draw, at, |bytes|)
  {
    forall i | 0 <= i < |bytes|
      ensures bytes[i] == ValueAt(draw, at + i, 0) % 256
    {
      assert draw(at + i).Some?;
    }
  }

  method RandomBytes(data: Source, rng: Source, length: nat) returns (bytes: seq<Byte>)
    modifies data, rng
    ensures |bytes| == length && data.position >= old(data.position)
    ensures data != rng ==>
              && data.position == old(data.position) + length
              && rng.position == old(rng.position) + Missing(data.draw, old(data.position), length)
              && FilledFrom(data.draw, old(data.position), rng.draw, old(rng.position), bytes)
  {
    bytes := [];
    while |bytes| < length
      invariant |bytes| <= length && data.position >= old(data.position)
      invariant data != rng ==>
                  && data.position == old(data.position) + |bytes|
                  && rng.position == old(rng.position) + Missing(data.draw, old(data.position), |bytes|)
                  && FilledFrom(data.draw, old(data.position), rng.draw, old(rng.position), bytes)
    {
      ghost var at := old(data.position);
      assert Missing(data.draw, at, |bytes| + 1)
          == Missing(data.draw, at, |bytes|) + if data.draw(at + |bytes|).Some? then 0 else 1;
      hide Missing;
      var byte := RandomByte(data, rng);
      bytes := bytes + [byte];
    }
  }

  method RandomByte(data: Source, rng: Source) returns (byte: Byte)
    modifies data, rng
    ensures data.position > old(data.position)
    ensures data != rng ==>
              && data.position == old(data.position) + 1
              && byte == (var d := data.draw(old(data.position));
                          if d.Some? then d.value % 256 else rng.At(old(rng.position), 0) % 256)
              && rng.position == old(rng.position) + if data.draw(old(data.position)).Some? then 0 else 1
  {
    var fallback := 0;
    if data.draw(data.position).None? {
      fallback := rng.U8(0);
    }
    byte := data.U8(fallback);
  }

  // ---------------------------------------------------------------- the messages that draws make

  function ConnectFrom(c: Corpora, draw: Draw, at: nat): Taken<Message> {
    var id := ClientIdFrom(c, draw, at);
    var keepAlive, clean := ValueAt(draw, id.next, 60) % U16_LIMIT, ValueAt(draw, id.next + 1, 1) % 2 == 1;
    Taken(Connect(Ascii(id.value), keepAlive, clean), id.next + 2)
  }

  /** The packet identifier of a PUBLISH is only drawn for a QoS above 0. */
  function PublishFrom(c: Corpora, draw: Draw, at: nat): Taken<Message> {
    var topic := TopicFrom(c, draw, at);
    var payload := PayloadFrom(c, draw, topic.next);
    var p := payload.next;
    var qos, retain, dup :=
      ValueAt(draw, p, 0) % 256 % 3, ValueAt(draw, p + 1, 0) % 2 == 1, ValueAt(draw, p + 2, 0) % 2 == 1;
    if qos == 0 then Taken(Publish(Ascii(topic.value), payload.value, qos, retain, dup, None), p + 3)
    else
      var id := ValueAt(draw, p + 3, 1) % U16_LIMIT;
      Taken(Publish(Ascii(topic.value), payload.value, qos, retain, dup, Some(id)), p + 4)
  }

  function TopicsFrom(c: Corpora, draw: Draw, at: nat, count: nat): (r: Taken<seq<seq<Byte>>>)
    ensures |r.value| == count
  {
    if count == 0 then Taken([], at)
    else
      var front := TopicsFrom(c, draw, at, count - 1);
      var topic := TopicFrom(c, draw, front.next);
      Taken(front.value + [Ascii(topic.value)], topic.next)
  }

  function FiltersFrom(draw: Draw, at: nat, topics: seq<seq<Byte>>): (filters: seq<Filter>)
    ensures |filters| == |topics|
  {
    seq(|topics|, k requires 0 <= k < |topics| => Filter(topics[k], ValueAt(draw, at + k, 0) % 256 % 3))
  }

  /** All topics of a SUBSCRIBE are drawn before the first QoS. */
  function SubscribeFrom(c: Corpora, draw: Draw, at: nat): Taken<Message> {
    var count := ValueAt(draw, at + 1, 1) % 10 + 1;
    var topics := TopicsFrom(c, draw, at + 2, count);
    var filters := FiltersFrom(draw, topics.next, topics.value);
    Taken(Subscribe(ValueAt(draw, at, 1) % U16_LIMIT, filters), topics.next + count)
  }

  function DrawnKind(draw: Draw, at: nat): nat { ValueAt(draw, at, 0) % 256 % 4 }

  /** The message that the draws from number `at` on make; the first draw picks its type. */
  function MessageFrom(c: Corpora, draw: Draw, at: nat): Taken<Message> {
    match DrawnKind(draw, at)
    case 0 => ConnectFrom(c, draw, at + 1)
    case 1 => PublishFrom(c, draw, at + 1)
    case 2 => SubscribeFrom(c, draw, at + 1)
    case _ => Taken(PingReq, at + 1)
  }

  // ---------------------------------------------------------------- a source that has run out

  function NoDraws(): Draw { (i: nat) => None }

  lemma NoDrawsValue(i: nat, default: nat)
    ensures ValueAt(NoDraws(), i, default) == default
  {
  }

  function FirstChars(charset: string, n: nat): (s: string)
    requires charset != ""
    ensures |s| == n && forall i :: 0 <= i < n ==> s[i] == charset[0]
  {
    if n == 0 then "" else FirstChars(charset, n - 1) + [charset[0]]
  }

  lemma NoDrawsChars(at: nat, n: nat, charset: string)
    requires charset != ""
    ensures CharsFrom(NoDraws(), at, n, charset) == FirstChars(charset, n)
  {
    var s := CharsFrom(NoDraws(), at, n, charset);
    assert 0 % |charset| == 0;
    forall i | 0 <= i < n
      ensures s[i] == charset[0]
    {
      assert ValueAt(NoDraws(), at + i, 0) == 0;
    }
  }

  /** The topic of a source that has run out: three segments of six times the first character. */
  function DefaultTopic(): string {
    var segment := FirstChars(TOPIC_CHARS, 6);
    segment + "/" + segment + "/" + segment
  }

  lemma NoDrawsSegments(at: nat)
    ensures var segment := FirstChars(TOPIC_CHARS, 6);
            SegmentsFrom(NoDraws(), at, 3) == Taken([segment, segment, segment], at + 21)
  {
    var segment := FirstChars(TOPIC_CHARS, 6);
    NoDrawsChars(at + 1, 6, TOPIC_CHARS);
    NoDrawsChars(at + 8, 6, TOPIC_CHARS);
    NoDrawsChars(at + 15, 6, TOPIC_CHARS);
    SegmentsSnoc(NoDraws(), at, 0);
    SegmentsSnoc(NoDraws(), at, 1);
    SegmentsSnoc(NoDraws(), at, 2);
    NoSegments(at);
    hide SegmentsFrom, CharsFrom, FirstChars;
    assert [] + [segment] + [segment] + [segment] == [segment, segment, segment];
  }

  lemma NoSegments(at: nat)
    ensures SegmentsFrom(NoDraws(), at, 0) == Taken([], at)
  {
  }

  lemma NoDrawsTopic(c: Corpora, at: nat)
    ensures TopicFrom(c, NoDraws(), at) == Taken(DefaultTopic(), at + 23)
  {
    var segment := FirstChars(TOPIC_CHARS, 6);
    NoDrawsSegments(at + 2);
    hide SegmentsFrom, FirstChars;
    JoinThree(segment, segment, segment);
  }

  lemma JoinThree(a: string, b: string, c: string)
    ensures Join([a, b, c]) == a + "/" + b + "/" + c
  {
    assert [a, b, c][1..] == [b, c] && [b, c][1..] == [c];
    assert Join([b, c]) == b + "/" + c;
    assert Join([a, b, c]) == a + "/" + Join([b, c]);
    assert a + "/" + (b + "/" + c) == a + "/" + b + "/" + c;
  }

  /** When the draws have run out: a CONNECT with eleven times the first character, and a keep-alive of a minute. */
  lemma NoDrawsMessage(c: Corpora, at: nat)
    ensures MessageFrom(c, NoDraws(), at) == Taken(Connect(Ascii(FirstChars(ID_CHARS, 11)), 60, true), at + 16)
  {
    NoDrawsChars(at + 3, 11, ID_CHARS);
    hide CharsFrom, FirstChars, Ascii, ID_CHARS, NoDraws, ValueAt;
    NoDrawsValue(at, 0);
    NoDrawsValue(at + 1, 0);
    NoDrawsValue(at + 2, 10);
    NoDrawsValue(at + 14, 60);
    NoDrawsValue(at + 15, 1);
  }

  /** If they run out right behind the type: a SUBSCRIBE for two default topics. */
  lemma NoDrawsSubscribe(c: Corpora, at: nat)
    ensures SubscribeFrom(c, NoDraws(), at).value
         == Subscribe(1, [Filter(Ascii(DefaultTopic()), 0), Filter(Ascii(DefaultTopic()), 0)])
  {
    hide DefaultTopic, TopicsFrom, Ascii, FiltersFrom, NoDraws, ValueAt;
    var topics := TopicsFrom(c, NoDraws(), at + 2, 2);
    NoDrawsValue(at, 1);
    NoDrawsValue(at + 1, 1);
    NoDrawsTopics(c, at + 2);
    NoDrawsFilters(topics.next, topics.value);
  }

  lemma NoDrawsFilters(at: nat, topics: seq<seq<Byte>>)
    requires |topics| == 2
    ensures FiltersFrom(NoDraws(), at, topics) == [Filter(topics[0], 0), Filter(topics[1], 0)]
  {
    var filters := FiltersFrom(NoDraws(), at, topics);
    assert ValueAt(NoDraws(), at + 0, 0) == 0 && ValueAt(NoDraws(), at + 1, 0) == 0;
    assert filters[0] == Filter(topics[0], 0) && filters[1] == Filter(topics[1], 0);
  }

  lemma NoDrawsTopics(c: Corpora, at: nat)
    ensures TopicsFrom(c, NoDraws(), at, 2).value == [Ascii(DefaultTopic()), Ascii(DefaultTopic())]
  {
    NoDrawsTopic(c, at);
    NoDrawsTopic(c, at + 23);
    hide DefaultTopic, TopicFrom, Ascii;
    assert TopicsFrom(c, NoDraws(), at, 0) == Taken([], at);
    assert [] + [Ascii(DefaultTopic())] == [Ascii(DefaultTopic())];
    assert TopicsFrom(c, NoDraws(), at, 1) == Taken([Ascii(DefaultTopic())], at + 23);
    assert TopicsFrom(c, NoDraws(), at, 2).value == [Ascii(DefaultTopic())] + [Ascii(DefaultTopic())];
  }

  /** And a PUBLISH of a hundred bytes without any flag. */
  lemma NoDrawsPublish(c: Corpora, at: nat)
    ensures var m := PublishFrom(c, NoDraws(), at).value;
            m.Publish? && m == Publish(Ascii(DefaultTopic()), m.payload, 0, false, false, None) && |m.payload| == 100
  {
    NoDrawsTopic(c, at);
    hide DefaultTopic, TopicFrom, Ascii, BytesFrom;
  }

  // ---------------------------------------------------------------- the generators

  method GenerateConnectPacket(c: Corpora, data: Source) returns (packet: seq<Byte>, ghost m: Message)
    requires Modest(c)
    modifies data
    ensures data.position >= old(data.position)
    ensures Taken(m, data.position) == ConnectFrom(c, data.draw, old(data.position))
    ensures m.Connect? && Drawn(c, m) && Fits(m) && packet == Wire(m)
  {
    hide Wire, Body, ClientIdText, ClientIdFrom, ID_CHARS, Drawn, Fits, Ascii, Modest;
    var clientId := SelectClientId(c, data);
    var keepAlive := data.U16(60);
    var cleanSession := data.Bool(true);
    m := Connect(Ascii(clientId), keepAlive, cleanSession);
    ConnectIsDrawn(c, clientId, keepAlive, cleanSession);
    DrawnBounds(c, m);
    packet := BuildConnect(Ascii(clientId), keepAlive, cleanSession);
  }

  lemma ConnectIsDrawn(c: Corpora, id: string, keepAlive: nat, clean: bool)
    requires ClientIdText(c, id) && keepAlive < U16_LIMIT
    ensures Drawn(c, Connect(Ascii(id), keepAlive, clean))
  {
  }

  /** The second half of the connect generator. The remaining length is computed before the body is written. */
  method BuildConnect(clientId: seq<Byte>, keepAlive: nat, cleanSession: bool) returns (packet: seq<Byte>)
    requires Fits(Connect(clientId, keepAlive, cleanSession))
    ensures packet == Wire(Connect(clientId, keepAlive, cleanSession))
  {
    hide Encode, U16Bytes;
    var buffer := new ByteVec([]);
    buffer.PutU8(0x10);
    var variableHeaderLen := 2 + |PROTOCOL_NAME| + 1 + 1 + 2;
    var payloadLen := 2 + |clientId|;
    var remainingLength := variableHeaderLen + payloadLen;
    EncodeRemainingLength(buffer, remainingLength);
    PutConnectBody(buffer, clientId, keepAlive, cleanSession);
    packet := buffer.bytes;
  }

  method PutConnectBody(buffer: ByteVec, clientId: seq<Byte>, keepAlive: nat, cleanSession: bool)
    modifies buffer
    ensures buffer.bytes == old(buffer.bytes) + Body(Connect(clientId, keepAlive, cleanSession))
  {
    hide U16Bytes;
    ghost var head := buffer.bytes;
    ghost var body := U16Bytes(4);
    buffer.PutU16(|PROTOCOL_NAME|);
    buffer.PutSlice(PROTOCOL_NAME);
    body := Extend(head, body, PROTOCOL_NAME);
    buffer.PutU8(4);
    body := Extend(head, body, [4]);
    var connectFlags: Byte := if cleanSession then 0x02 else 0x00;
    buffer.PutU8(connectFlags);
    body := Extend(head, body, [connectFlags]);
    buffer.PutU16(keepAlive);
    body := Extend(head, body, U16Bytes(keepAlive));
    buffer.PutU16(|clientId|);
    body := Extend(head, body, U16Bytes(|clientId|));
    buffer.PutSlice(clientId);
    body := Extend(head, body, clientId);
  }

  /** Appending to a body that follows a head is appending to both together. */
  lemma Extend(head: seq<Byte>, body: seq<Byte>, more: seq<Byte>) returns (longer: seq<Byte>)
    ensures longer == body + more
    ensures head + body + more == head + longer
  {
    longer := body + more;
  }

  method GeneratePublishPacket(c: Corpora, data: Source, rng: Source) returns (packet: seq<Byte>, ghost m: Message)
    requires Modest(c)
    modifies data, rng
    ensures data.position >= old(data.position)
    ensures data != rng && Endless(data.draw) ==>
              Taken(m, data.position) == PublishFrom(c, data.draw, old(data.position))
    ensures m.Publish? && Drawn(c, m) && Fits(m) && packet == Wire(m)
  {
    hide TopicText, TopicFrom, PayloadFrom, PublishFrom, IsTopic, IsPayload, FromCorpus, Drawn, Fits, Wire, Ascii,
         Endless, Modest;
    var topic := SelectTopic(c, data);
    var payload := SelectPayload(c, data, rng);
    var qosDraw := data.U8(0);
    var retain := data.Bool(false);
    var dup := data.Bool(false);
    TopicOfText(c, topic);
    TopicBound(c, Ascii(topic));
    packet, m := BuildPublish(data, Ascii(topic), payload, qosDraw % 3, retain, dup);
    PublishIsDrawn(c, m);
    if data != rng && Endless(data.draw) {
      PublishAssembled(c, data.draw, old(data.position), topic, payload, m);
    }
  }

  lemma TopicOfText(c: Corpora, t: string)
    requires TopicText(c, t)
    ensures IsTopic(c, Ascii(t))
  {
  }

  lemma PublishIsDrawn(c: Corpora, m: Message)
    requires m.Publish? && Fits(m) && IsTopic(c, m.topic) && IsPayload(c, m.payload)
    ensures Drawn(c, m)
  {
  }

  lemma PublishAssembled(c: Corpora, draw: Draw, at: nat, topic: string, payload: seq<Byte>, m: Message)
    requires TopicFrom(c, draw, at).value == topic
    requires PayloadFrom(c, draw, TopicFrom(c, draw, at).next).value == payload
    requires var p := PayloadFrom(c, draw, TopicFrom(c, draw, at).next).next;
             && m.Publish? && m.qos == ValueAt(draw, p, 0) % 256 % 3
             && m == Publish(Ascii(topic), payload, m.qos, ValueAt(draw, p + 1, 0) % 2 == 1,
                             ValueAt(draw, p + 2, 0) % 2 == 1, m.packetId)
             && m.packetId == if m.qos > 0 then Some(ValueAt(draw, p + 3, 1) % U16_LIMIT) else None
    ensures var p := PayloadFrom(c, draw, TopicFrom(c, draw, at).next).next;
            PublishFrom(c, draw, at) == Taken(m, p + if m.qos > 0 then 4 else 3)
  {
    hide TopicFrom, PayloadFrom, ValueAt, Ascii;
  }

  method PublishFlags(qos: Byte, retain: bool, dup: bool) returns (flags: Byte)
    requires qos <= 2
    ensures flags == 0x30 + (if dup then 8 else 0) + 2 * qos + (if retain then 1 else 0)
  {
    flags := 0x30;
    if dup { flags := flags + 0x08; }
    flags := flags + 2 * qos;
    if retain { flags := flags + 0x01; }
  }

  method PutPacketId(data: Source, buffer: ByteVec, qos: Byte) returns (ghost packetId: Option<nat>)
    modifies data, buffer
    ensures data.position == old(data.position) + if qos > 0 then 1 else 0
    ensures packetId.Some? <==> qos > 0
    ensures packetId.Some? ==> packetId.value == data.At(old(data.position), 1) % U16_LIMIT
    ensures buffer.bytes == old(buffer.bytes) + IdBytes(packetId)
  {
    packetId := None;
    if qos != 0 {
      var id := data.U16(1);
      buffer.PutU16(id);
      packetId := Some(id);
    }
  }

  /** The second half of the publish generator; the packet identifier is drawn between topic and payload. */
  method BuildPublish(data: Source, topic: seq<Byte>, payload: seq<Byte>, qos: Byte, retain: bool, dup: bool)
    returns (packet: seq<Byte>, ghost m: Message)
    requires qos <= 2 && |topic| < U16_LIMIT
    modifies data
    ensures data.position == old(data.position) + if qos > 0 then 1 else 0
    ensures m.Publish? && m == Publish(topic, payload, qos, retain, dup, m.packetId)
    ensures qos > 0 ==> m.packetId == Some(data.At(old(data.position), 1) % U16_LIMIT)
    ensures Fits(m) && packet == Wire(m)
  {
    hide Encode, U16Bytes;
    var buffer := new ByteVec([]);
    var flags := PublishFlags(qos, retain, dup);
    buffer.PutU8(flags);

    var remainingLength := 2 + |topic| + |payload|;
    if qos != 0 {
      remainingLength := remainingLength + 2;
    }
    EncodeRemainingLength(buffer, remainingLength);

    ghost var head := buffer.bytes;
    ghost var body := U16Bytes(|topic|);
    buffer.PutU16(|topic|);
    buffer.PutSlice(topic);
    body := Extend(head, body, topic);
    ghost var packetId := PutPacketId(data, buffer, qos);
    body := Extend(head, body, IdBytes(packetId));
    buffer.PutSlice(payload);
    body := Extend(head, body, payload);
    packet := buffer.bytes;
    m := Publish(topic, payload, qos, retain, dup, packetId);
  }

  method GenerateSubscribePacket(c: Corpora, data: Source) returns (packet: seq<Byte>, ghost m: Message)
    requires Modest(c)
    modifies data
    ensures data.position >= old(data.position)
    ensures Taken(m, data.position) == SubscribeFrom(c, data.draw, old(data.position))
    ensures m.Subscribe? && Drawn(c, m) && Fits(m) && packet == Wire(m)
  {
    hide Drawn, Fits, Wire, Body, Modest, IsTopic, ReservedBytes, ChosenFilters, TopicsFrom, SubscribeFrom;
    var packetId := data.U16(1);
    var draw := data.Usize(1);
    var topics, remainingLength := SelectTopics(c, data, draw % 10 + 1);
    ghost var at := data.position;
    ghost var filters;
    packet, filters := BuildSubscribe(data, packetId, topics, remainingLength);
    m := Subscribe(packetId, filters);
    SubscribeIsDrawn(c, data, at, packetId, topics, filters);
    SubscribeAssembled(c, data, old(data.position), packetId, topics, filters);
  }

  lemma SubscribeIsDrawn(c: Corpora, data: Source, at: nat, id: nat, topics: seq<seq<Byte>>, filters: seq<Filter>)
    requires Modest(c) && id < U16_LIMIT && 1 <= |topics| <= 10
    requires forall i :: 0 <= i < |topics| ==> IsTopic(c, topics[i])
    requires |filters| == |topics| && ChosenFilters(data, at, topics, filters)
    ensures var m := Subscribe(id, filters); Drawn(c, m) && Fits(m) && Wire(m) == Frame(0x82, Body(m))
  {
    hide IsTopic, Modest, Wire;
    forall f | f in filters
      ensures IsTopic(c, f.topic) && f.qos <= 2
    {
      var k :| 0 <= k < |filters| && filters[k] == f;
      assert f.topic == topics[k];
    }
    DrawnBounds(c, Subscribe(id, filters));
    WireOfSubscribe(Subscribe(id, filters));
  }

  lemma WireOfSubscribe(m: Message)
    requires m.Subscribe? && Fits(m)
    ensures Wire(m) == Frame(0x82, Body(m))
  {
  }

  lemma SubscribeAssembled(c: Corpora, data: Source, at: nat, id: nat, topics: seq<seq<Byte>>, filters: seq<Filter>)
    requires id == data.At(at, 1) % U16_LIMIT && |filters| == |topics| == data.At(at + 1, 1) % 10 + 1
    requires TopicsFrom(c, data.draw, at + 2, |topics|).value == topics
    requires ChosenFilters(data, TopicsFrom(c, data.draw, at + 2, |topics|).next, topics, filters)
    ensures SubscribeFrom(c, data.draw, at)
         == Taken(Subscribe(id, filters), TopicsFrom(c, data.draw, at + 2, |topics|).next + |topics|)
  {
    hide TopicsFrom;
    assert filters == FiltersFrom(data.draw, TopicsFrom(c, data.draw, at + 2, |topics|).next, topics);
  }

  /** The first loop of the subscribe generator: topics are chosen, and their bytes reserved, before any is written. */
  method SelectTopics(c: Corpora, data: Source, count: nat)
    returns (topics: seq<seq<Byte>>, remainingLength: nat)
    modifies data
    ensures data.position >= old(data.position)
    ensures |topics| == count && remainingLength == 2 + ReservedBytes(topics)
    ensures Taken(topics, data.position) == TopicsFrom(c, data.draw, old(data.position), count)
    ensures forall i :: 0 <= i < |topics| ==> IsTopic(c, topics[i])
  {
    remainingLength := 2;
    topics := [];
    while |topics| < count
      invariant |topics| <= count && data.position >= old(data.position)
      invariant Taken(topics, data.position) == TopicsFrom(c, data.draw, old(data.position), |topics|)
      invariant forall i :: 0 <= i < |topics| ==> IsTopic(c, topics[i])
      invariant remainingLength == 2 + ReservedBytes(topics)
    {
      hide Ascii, ReservedBytes, TopicText, TopicFrom;
      var topic := SelectTopic(c, data);
      assert IsTopic(c, Ascii(topic));
      remainingLength := remainingLength + 2 + |topic| + 1;
      ReservedSnoc(topics, Ascii(topic));
      topics := topics + [Ascii(topic)];
    }
  }

  /** The second half of the subscribe generator. */
  method BuildSubscribe(data: Source, packetId: nat, topics: seq<seq<Byte>>, remainingLength: nat)
    returns (packet: seq<Byte>, ghost filters: seq<Filter>)
    requires remainingLength == 2 + ReservedBytes(topics)
    modifies data
    ensures data.position == old(data.position) + |topics|
    ensures |filters| == |topics| && ChosenFilters(data, old(data.position), topics, filters)
    ensures packet == Frame(0x82, Body(Subscribe(packetId, filters)))
  {
    hide Encode, Body;
    var buffer := new ByteVec([]);
    buffer.PutU8(0x82);
    EncodeRemainingLength(buffer, remainingLength);
    filters := PutSubscribeBody(data, buffer, packetId, topics);
    packet := buffer.bytes;
  }

  method PutSubscribeBody(data: Source, buffer: ByteVec, packetId: nat, topics: seq<seq<Byte>>)
    returns (ghost filters: seq<Filter>)
    modifies data, buffer
    ensures data.position == old(data.position) + |topics|
    ensures |filters| == |topics| && ChosenFilters(data, old(data.position), topics, filters)
    ensures buffer.bytes == old(buffer.bytes) + Body(Subscribe(packetId, filters))
    ensures |Body(Subscribe(packetId, filters))| == 2 + ReservedBytes(topics)
  {
    hide U16Bytes, FiltersBytes, ReservedBytes;
    ghost var head := buffer.bytes;
    buffer.PutU16(packetId);
    filters := PutFilters(data, buffer, topics);
    ghost var body := Extend(head, U16Bytes(packetId), FiltersBytes(filters));
  }

  method PutFilter(buffer: ByteVec, topic: seq<Byte>, qos: Byte)
    modifies buffer
    ensures buffer.bytes == old(buffer.bytes) + FilterBytes(Filter(topic, qos))
  {
    buffer.PutU16(|topic|);
    buffer.PutSlice(topic);
    buffer.PutU8(qos);
  }

  /** The filters are the topics, in order, with the QoS that draws number `at` and following choose. */
  ghost predicate ChosenFilters(data: Source, at: nat, topics: seq<seq<Byte>>, filters: seq<Filter>) {
    && |filters| <= |topics|
    && forall k :: 0 <= k < |filters| ==> filters[k] == Filter(topics[k], data.At(at + k, 0) % 256 % 3)
  }

  /** The payload loop of the subscribe generator; it draws one QoS for each topic. */
  method PutFilters(data: Source, buffer: ByteVec, topics: seq<seq<Byte>>) returns (ghost filters: seq<Filter>)
    modifies data, buffer
    ensures data.position == old(data.position) + |topics|
    ensures buffer.bytes == old(buffer.bytes) + FiltersBytes(filters)
    ensures |filters| == |topics| && ChosenFilters(data, old(data.position), topics, filters)
    ensures |FiltersBytes(filters)| == ReservedBytes(topics)
  {
    filters := [];
    for i := 0 to |topics|
      invariant |filters| == i && data.position == old(data.position) + i
      invariant ChosenFilters(data, old(data.position), topics, filters)
      invariant buffer.bytes == old(buffer.bytes) + FiltersBytes(filters)
    {
      hide FilterBytes, FiltersBytes;
      var qosDraw := data.U8(0);
      PutFilter(buffer, topics[i], qosDraw % 3);
      ghost var f := Filter(topics[i], qosDraw % 3);
      FiltersSnoc(filters, f);
      filters := filters + [f];
    }
    FiltersFillReserved(filters, topics);
  }

  /** The space reserved for the topics is what filters with these topics take. */
  lemma {:induction false} FiltersFillReserved(filters: seq<Filter>, topics: seq<seq<Byte>>)
    requires |filters| == |topics| && forall k :: 0 <= k < |filters| ==> filters[k].topic == topics[k]
    ensures |FiltersBytes(filters)| == ReservedBytes(topics)
  {
    if filters != [] {
      var n := |filters| - 1;
      FiltersFillReserved(filters[..n], topics[..n]);
      FiltersSnoc(filters[..n], filters[n]);
      assert filters[..n] + [filters[n]] == filters;
    }
  }

  /** The type numbers between which the first draw chooses. */
  function Kind(m: Message): nat {
    match m
    case Connect(_, _, _) => 0
    case Publish(_, _, _, _, _, _) => 1
    case Subscribe(_, _) => 2
    case PingReq => 3
  }

  lemma GeneratedAccepted(c: Corpora, m: Message)
    requires Modest(c) && Drawn(c, m) && Fits(m)
    ensures WellFramed(Wire(m)) && |Wire(m)| <= LONGEST_PACKET
  {
    GeneratedPackets(c, m);
  }

  /** The numbers of the types, and the only packet of the last one. */
  lemma KindNumbers(m: Message)
    ensures Kind(m) < 4 && (Kind(m) == 0 <==> m.Connect?) && (Kind(m) == 1 <==> m.Publish?)
    ensures (Kind(m) == 2 <==> m.Subscribe?) && (Kind(m) == 3 <==> m.PingReq?)
    ensures m.PingReq? ==> Fits(m) && Wire(m) == [0xC0, 0x00]
  {
    assert Encode(0) == [0];
  }

  lemma PingReqWire(c: Corpora)
    ensures Fits(PingReq) && Drawn(c, PingReq) && Wire(PingReq) == [0xC0, 0x00]
  {
    assert Encode(0) == [0];
  }

  method GenerateKind(c: Corpora, kind: nat, data: Source, rng: Source) returns (packet: seq<Byte>, ghost m: Message)
    requires Modest(c) && kind < 4
    modifies data, rng
    ensures data.position >= old(data.position)
    ensures Drawn(c, m) && Fits(m) && packet == Wire(m) && Kind(m) == kind
    ensures var p := old(data.position);
            data != rng && Endless(data.draw) && p > 0 && DrawnKind(data.draw, p - 1) == kind ==>
              Taken(m, data.position) == MessageFrom(c, data.draw, p - 1)
  {
    hide Drawn, Fits, Wire, Modest, ConnectFrom, PublishFrom, SubscribeFrom;
    match kind {
      case 0 => packet, m := GenerateConnectPacket(c, data);
      case 1 => packet, m := GeneratePublishPacket(c, data, rng);
      case 2 => packet, m := GenerateSubscribePacket(c, data);
      case _ =>
        packet, m := [0xC0, 0x00], PingReq;
        PingReqWire(c);
    }
  }

  /**
   * The first draw picks the type; whatever is drawn, the packet is the wire form of a message that may be chosen.
   * When no draw is missing, it is the message that the draws make.
   */
  method GenerateValidPacket(c: Corpora, data: Source, rng: Source) returns (packet: seq<Byte>, ghost m: Message)
    requires Modest(c)
    modifies data, rng
    ensures data.position >= old(data.position)
    ensures Kind(m) == DrawnKind(data.draw, old(data.position))
    ensures match data.At(old(data.position), 0) % 256 % 4
            case 0 => m.Connect?
            case 1 => m.Publish?
            case 2 => m.Subscribe?
            case _ => packet == [0xC0, 0x00]
    ensures Drawn(c, m) && Fits(m) && packet == Wire(m)
    ensures data != rng && Endless(data.draw) ==>
              Taken(m, data.position) == MessageFrom(c, data.draw, old(data.position))
    ensures WellFramed(packet) && |packet| <= LONGEST_PACKET
  {
    hide Drawn, Fits, Wire, Read, WellFramed, MessageFrom, Endless, Kind;
    var draw := data.U8(0);
    packet, m := GenerateKind(c, draw % 4, data, rng);
    KindNumbers(m);
    GeneratedAccepted(c, m);
  }
}
