/**
 * The draws behind a message: every message in the reach of the generators has draws that make it, so `Drawn`
 * describes exactly what can be generated.
 */
module MqttDraws {
  import opened Bytes
  import opened Wrappers
  import opened Draws
  import opened MqttPackets
  import opened MqttGenerators

  /** From number `at` on, the draws are the given ones. */
  ghost predicate Holds(draw: Draw, at: nat, values: seq<nat>) {
    forall i :: 0 <= i < |values| ==> draw(at + i) == Some(values[i])
  }

  lemma HoldsParts(draw: Draw, at: nat, first: seq<nat>, rest: seq<nat>)
    requires Holds(draw, at, first + rest)
    ensures Holds(draw, at, first) && Holds(draw, at + |first|, rest)
  {
    forall i | 0 <= i < |first|
      ensures draw(at + i) == Some(first[i])
    {
      assert (first + rest)[i] == first[i];
    }
    forall i | 0 <= i < |rest|
      ensures draw(at + |first| + i) == Some(rest[i])
    {
      assert (first + rest)[|first| + i] == rest[i];
    }
  }

  function IndexIn<T(==)>(s: seq<T>, x: T): (i: nat)
    requires x in s
    ensures i < |s| && s[i] == x
  {
    if s[0] == x then 0 else 1 + IndexIn(s[1..], x)
  }

  // ---------------------------------------------------------------- texts

  lemma SmallModulus(i: nat, n: nat)
    requires i < n
    ensures i % n == i
  {
  }

  ghost function CharDraws(s: string, charset: string): (values: seq<nat>)
    requires OverCharset(s, charset)
    ensures |values| == |s|
  {
    seq(|s|, i requires 0 <= i < |s| => IndexIn(charset, s[i]))
  }

  lemma CharsRead(draw: Draw, at: nat, s: string, charset: string)
    requires charset != "" && OverCharset(s, charset) && Holds(draw, at, CharDraws(s, charset))
    ensures CharsFrom(draw, at, |s|, charset) == s
  {
    var values := CharDraws(s, charset);
    forall i | 0 <= i < |s|
      ensures charset[ValueAt(draw, at + i, 0) % |charset|] == s[i]
    {
      assert draw(at + i) == Some(values[i]) && values[i] == IndexIn(charset, s[i]);
      hide Holds, CharDraws, IndexIn;
      SmallModulus(values[i], |charset|);
    }
  }

  ghost function SegmentDraws(segments: seq<string>): (values: seq<nat>)
    requires Segments(segments)
  {
    if segments == [] then []
    else
      var last := segments[|segments| - 1];
      SegmentDraws(segments[..|segments| - 1]) + ([|last| - 1] + CharDraws(last, TOPIC_CHARS))
  }

  lemma {:induction false} SegmentsRead(draw: Draw, at: nat, segments: seq<string>)
    requires Segments(segments) && Holds(draw, at, SegmentDraws(segments))
    ensures SegmentsFrom(draw, at, |segments|) == Taken(segments, at + |SegmentDraws(segments)|)
  {
    if segments != [] {
      var front, last := segments[..|segments| - 1], segments[|segments| - 1];
      var values, next := SegmentDraws(front), at + |SegmentDraws(front)|;
      hide CharsFrom, CharDraws, Segment, OverCharset;
      HoldsParts(draw, at, values, [|last| - 1] + CharDraws(last, TOPIC_CHARS));
      SegmentsRead(draw, at, front);
      SegmentRead(draw, next, last);
      assert front + [last] == segments;
    }
  }

  lemma SegmentRead(draw: Draw, at: nat, s: string)
    requires Segment(s) && Holds(draw, at, [|s| - 1] + CharDraws(s, TOPIC_CHARS))
    ensures ValueAt(draw, at, 5) % 50 + 1 == |s| && CharsFrom(draw, at + 1, |s|, TOPIC_CHARS) == s
  {
    HoldsParts(draw, at, [|s| - 1], CharDraws(s, TOPIC_CHARS));
    assert draw(at + 0) == Some([|s| - 1][0]);
    CharsRead(draw, at + 1, s, TOPIC_CHARS);
  }

  ghost function TopicDraws(c: Corpora, t: string): seq<nat>
    requires TopicText(c, t)
  {
    if t in c.topics then [1, IndexIn(c.topics, t)]
    else
      var segments :| RandomSegments(segments) && t == Join(segments);
      assert Segments(segments);
      [0, |segments| - 1] + SegmentDraws(segments)
  }

  lemma PairRead(draw: Draw, at: nat, a: nat, b: nat)
    requires Holds(draw, at, [a, b])
    ensures draw(at) == Some(a) && draw(at + 1) == Some(b)
  {
    assert draw(at + 0) == Some([a, b][0]) && draw(at + 1) == Some([a, b][1]);
  }

  lemma CorpusTopicRead(c: Corpora, draw: Draw, at: nat, i: nat)
    requires i < |c.topics| && Holds(draw, at, [1, i])
    ensures TopicFrom(c, draw, at) == Taken(c.topics[i], at + 2)
  {
    hide Holds, SegmentsFrom, Join;
    PairRead(draw, at, 1, i);
    SmallModulus(i, |c.topics|);
  }

  lemma RandomTopicRead(c: Corpora, draw: Draw, at: nat, segments: seq<string>)
    requires Segments(segments) && 1 <= |segments| <= 10
    requires Holds(draw, at, [0, |segments| - 1] + SegmentDraws(segments))
    ensures TopicFrom(c, draw, at) == Taken(Join(segments), at + 2 + |SegmentDraws(segments)|)
  {
    hide Holds, SegmentsFrom, SegmentDraws, Segments, Join, TopicFrom;
    HoldsParts(draw, at, [0, |segments| - 1], SegmentDraws(segments));
    PairRead(draw, at, 0, |segments| - 1);
    SegmentsRead(draw, at + 2, segments);
    SegmentsMakeTopic(c, draw, at, segments);
  }

  lemma SegmentsMakeTopic(c: Corpora, draw: Draw, at: nat, segments: seq<string>)
    requires draw(at) == Some(0) && draw(at + 1) == Some(|segments| - 1) && 1 <= |segments| <= 10
    requires SegmentsFrom(draw, at + 2, |segments|).value == segments
    ensures TopicFrom(c, draw, at) == Taken(Join(segments), SegmentsFrom(draw, at + 2, |segments|).next)
  {
    hide SegmentsFrom, Join;
    assert ValueAt(draw, at + 1, 2) % 10 + 1 == |segments|;
  }

  lemma TopicRead(c: Corpora, draw: Draw, at: nat, t: string)
    requires TopicText(c, t) && Holds(draw, at, TopicDraws(c, t))
    ensures TopicFrom(c, draw, at) == Taken(t, at + |TopicDraws(c, t)|)
  {
    hide TopicFrom, Join, Holds, SegmentDraws;
    if t in c.topics {
      CorpusTopicRead(c, draw, at, IndexIn(c.topics, t));
    } else {
      var segments :| RandomSegments(segments) && t == Join(segments)
                      && TopicDraws(c, t) == [0, |segments| - 1] + SegmentDraws(segments);
      RandomTopicRead(c, draw, at, segments);
    }
  }

  ghost function ClientIdDraws(c: Corpora, id: string): seq<nat>
    requires ClientIdText(c, id)
  {
    if id in c.clientIds then [1, IndexIn(c.clientIds, id)] else [0, |id| - 1] + CharDraws(id, ID_CHARS)
  }

  lemma CorpusIdRead(c: Corpora, draw: Draw, at: nat, i: nat)
    requires i < |c.clientIds| && Holds(draw, at, [1, i])
    ensures ClientIdFrom(c, draw, at) == Taken(c.clientIds[i], at + 2)
  {
    hide Holds, CharsFrom;
    PairRead(draw, at, 1, i);
    SmallModulus(i, |c.clientIds|);
  }

  lemma RandomIdRead(c: Corpora, draw: Draw, at: nat, id: string)
    requires 1 <= |id| <= 100 && OverCharset(id, ID_CHARS) && Holds(draw, at, [0, |id| - 1] + CharDraws(id, ID_CHARS))
    ensures ClientIdFrom(c, draw, at) == Taken(id, at + 2 + |id|)
  {
    hide Holds, CharsFrom, CharDraws, OverCharset;
    HoldsParts(draw, at, [0, |id| - 1], CharDraws(id, ID_CHARS));
    PairRead(draw, at, 0, |id| - 1);
    CharsRead(draw, at + 2, id, ID_CHARS);
    assert ValueAt(draw, at + 1, 10) % 100 + 1 == |id|;
  }

  lemma ClientIdRead(c: Corpora, draw: Draw, at: nat, id: string)
    requires ClientIdText(c, id) && Holds(draw, at, ClientIdDraws(c, id))
    ensures ClientIdFrom(c, draw, at) == Taken(id, at + |ClientIdDraws(c, id)|)
  {
    hide Holds, ClientIdFrom, CharDraws, OverCharset, ID_CHARS;
    if id in c.clientIds {
      CorpusIdRead(c, draw, at, IndexIn(c.clientIds, id));
    } else {
      RandomIdRead(c, draw, at, id);
    }
  }

  ghost function PayloadDraws(c: Corpora, payload: seq<Byte>): seq<nat>
    requires IsPayload(c, payload)
  {
    if exists p :: p in c.payloads && payload == Expand(p)
    then
      var p :| p in c.payloads && payload == Expand(p);
      [1, IndexIn(c.payloads, p)]
    else [0, |payload|] + ByteDraws(payload)
  }

  function ByteDraws(bytes: seq<Byte>): (values: seq<nat>)
    ensures |values| == |bytes|
  {
    seq(|bytes|, i requires 0 <= i < |bytes| => bytes[i] as nat)
  }

  lemma BytesRead(draw: Draw, at: nat, bytes: seq<Byte>)
    requires Holds(draw, at, ByteDraws(bytes))
    ensures BytesFrom(draw, at, |bytes|) == bytes
  {
    var values := ByteDraws(bytes);
    forall i | 0 <= i < |bytes|
      ensures ValueAt(draw, at + i, 0) % 256 == bytes[i]
    {
      assert draw(at + i) == Some(values[i]);
    }
  }

  lemma CorpusPayloadRead(c: Corpora, draw: Draw, at: nat, i: nat)
    requires i < |c.payloads| && Holds(draw, at, [1, i])
    ensures PayloadFrom(c, draw, at) == Taken(Expand(c.payloads[i]), at + 2)
  {
    hide Expand, BytesFrom, Holds;
    PairRead(draw, at, 1, i);
    SmallModulus(i, |c.payloads|);
  }

  lemma RandomPayloadRead(c: Corpora, draw: Draw, at: nat, payload: seq<Byte>)
    requires |payload| < 10000 && Holds(draw, at, [0, |payload|] + ByteDraws(payload))
    ensures PayloadFrom(c, draw, at) == Taken(payload, at + 2 + |payload|)
  {
    HoldsParts(draw, at, [0, |payload|], ByteDraws(payload));
    PairRead(draw, at, 0, |payload|);
    BytesRead(draw, at + 2, payload);
    hide Holds, BytesFrom, ByteDraws;
  }

  lemma PayloadRead(c: Corpora, draw: Draw, at: nat, payload: seq<Byte>)
    requires IsPayload(c, payload) && Holds(draw, at, PayloadDraws(c, payload))
    ensures PayloadFrom(c, draw, at) == Taken(payload, at + |PayloadDraws(c, payload)|)
  {
    hide Holds, PayloadFrom, ByteDraws, Expand;
    if exists p :: p in c.payloads && payload == Expand(p) {
      var p :| p in c.payloads && payload == Expand(p) && PayloadDraws(c, payload) == [1, IndexIn(c.payloads, p)];
      CorpusPayloadRead(c, draw, at, IndexIn(c.payloads, p));
    } else {
      RandomPayloadRead(c, draw, at, payload);
    }
  }

  // ---------------------------------------------------------------- lists of topics

  ghost function TextOf(c: Corpora, topic: seq<Byte>): (t: string)
    requires IsTopic(c, topic)
    ensures TopicText(c, t) && topic == Ascii(t)
  {
    var t :| TopicText(c, t) && topic == Ascii(t);
    t
  }

  ghost predicate Topics(c: Corpora, topics: seq<seq<Byte>>) { forall i :: 0 <= i < |topics| ==> IsTopic(c, topics[i]) }

  ghost function TopicsDraws(c: Corpora, topics: seq<seq<Byte>>): seq<nat>
    requires Topics(c, topics)
  {
    if topics == [] then []
    else TopicsDraws(c, topics[..|topics| - 1]) + TopicDraws(c, TextOf(c, topics[|topics| - 1]))
  }

  lemma {:induction false} TopicsRead(c: Corpora, draw: Draw, at: nat, topics: seq<seq<Byte>>)
    requires Topics(c, topics) && Holds(draw, at, TopicsDraws(c, topics))
    ensures TopicsFrom(c, draw, at, |topics|) == Taken(topics, at + |TopicsDraws(c, topics)|)
    decreases |topics|, 0
  {
    if topics != [] {
      var front, last := topics[..|topics| - 1], topics[|topics| - 1];
      hide Holds, TopicsFrom, TopicFrom, TopicDraws, TopicText, IsTopic, Ascii;
      var t := TextOf(c, last);
      var values := TopicsDraws(c, front);
      assert TopicsDraws(c, topics) == values + TopicDraws(c, t);
      assert front + [last] == topics;
      LastTopicRead(c, draw, at, front, t);
    }
  }

  lemma {:induction false} LastTopicRead(c: Corpora, draw: Draw, at: nat, front: seq<seq<Byte>>, t: string)
    requires Topics(c, front) && TopicText(c, t)
    requires Holds(draw, at, TopicsDraws(c, front) + TopicDraws(c, t))
    ensures TopicsFrom(c, draw, at, |front| + 1)
         == Taken(front + [Ascii(t)], at + |TopicsDraws(c, front) + TopicDraws(c, t)|)
    decreases |front|, 1
  {
    hide Topics, TopicsDraws, TopicDraws, TopicsFrom, TopicFrom, TopicText, IsTopic, Holds, Ascii;
    var values, more := TopicsDraws(c, front), TopicDraws(c, t);
    HoldsParts(draw, at, values, more);
    TopicsRead(c, draw, at, front);
    TopicRead(c, draw, at + |values|, t);
    TopicsStep(c, draw, at, front, Ascii(t));
  }

  lemma TopicsStep(c: Corpora, draw: Draw, at: nat, front: seq<seq<Byte>>, last: seq<Byte>)
    requires TopicsFrom(c, draw, at, |front|).value == front
    requires Ascii(TopicFrom(c, draw, TopicsFrom(c, draw, at, |front|).next).value) == last
    ensures TopicsFrom(c, draw, at, |front| + 1)
         == Taken(front + [last], TopicFrom(c, draw, TopicsFrom(c, draw, at, |front|).next).next)
  {
    hide TopicFrom, Ascii;
  }

  function TopicsOf(filters: seq<Filter>): (topics: seq<seq<Byte>>)
    ensures |topics| == |filters|
  {
    seq(|filters|, i requires 0 <= i < |filters| => filters[i].topic)
  }

  function QoSDraws(filters: seq<Filter>): (values: seq<nat>)
    ensures |values| == |filters|
  {
    seq(|filters|, i requires 0 <= i < |filters| => filters[i].qos as nat)
  }

  lemma FiltersRead(draw: Draw, at: nat, filters: seq<Filter>)
    requires Holds(draw, at, QoSDraws(filters)) && forall f :: f in filters ==> f.qos <= 2
    ensures FiltersFrom(draw, at, TopicsOf(filters)) == filters
  {
    var values, topics := QoSDraws(filters), TopicsOf(filters);
    forall i | 0 <= i < |filters|
      ensures Filter(topics[i], ValueAt(draw, at + i, 0) % 256 % 3) == filters[i]
    {
      assert draw(at + i) == Some(values[i]) && filters[i] in filters;
    }
  }

  // ---------------------------------------------------------------- messages

  function BoolDraw(b: bool): nat { if b then 1 else 0 }

  /** The draws for the parts of a message, in the order in which the generators draw them. */
  ghost function PartDraws(c: Corpora, m: Message): seq<nat>
    requires Drawn(c, m)
  {
    match m
    case Connect(id, keepAlive, clean) => ClientIdDraws(c, IdTextOf(c, id)) + [keepAlive, BoolDraw(clean)]
    case Publish(topic, payload, _, _, _, _) =>
      TopicDraws(c, TextOf(c, topic)) + (PayloadDraws(c, payload) + FlagDraws(m))
    case Subscribe(id, filters) =>
      FilterTopics(c, filters);
      [id, |filters| - 1] + (TopicsDraws(c, TopicsOf(filters)) + QoSDraws(filters))
    case PingReq => []
  }

  /** Draws that make a message: its type, and then its parts. */
  ghost function MessageDraws(c: Corpora, m: Message): seq<nat>
    requires Drawn(c, m)
  {
    [Kind(m)] + PartDraws(c, m)
  }

  ghost function IdTextOf(c: Corpora, id: seq<Byte>): (t: string)
    requires IsClientId(c, id)
    ensures ClientIdText(c, t) && id == Ascii(t)
  {
    var t :| ClientIdText(c, t) && id == Ascii(t);
    t
  }

  function FlagDraws(m: Message): seq<nat>
    requires m.Publish?
  {
    [m.qos as nat, BoolDraw(m.retain), BoolDraw(m.dup)] + if m.packetId.Some? then [m.packetId.value] else []
  }

  predicate FlagsFit(m: Message)
    requires m.Publish?
  {
    && m.qos <= 2 && (m.packetId.Some? <==> m.qos > 0)
    && (m.packetId.Some? ==> m.packetId.value < U16_LIMIT)
  }

  lemma FilterTopics(c: Corpora, filters: seq<Filter>)
    requires forall f :: f in filters ==> IsTopic(c, f.topic)
    ensures Topics(c, TopicsOf(filters))
  {
    forall i | 0 <= i < |filters|
      ensures IsTopic(c, TopicsOf(filters)[i])
    {
      assert filters[i] in filters;
    }
  }

  lemma ConnectRead(c: Corpora, draw: Draw, at: nat, id: string, keepAlive: nat, clean: bool)
    requires ClientIdText(c, id) && keepAlive < U16_LIMIT
    requires Holds(draw, at, ClientIdDraws(c, id) + [keepAlive, BoolDraw(clean)])
    ensures ConnectFrom(c, draw, at)
         == Taken(Connect(Ascii(id), keepAlive, clean), at + |ClientIdDraws(c, id)| + 2)
  {
    hide Holds, ClientIdText, ClientIdFrom, ClientIdDraws, Ascii;
    HoldsParts(draw, at, ClientIdDraws(c, id), [keepAlive, BoolDraw(clean)]);
    ClientIdRead(c, draw, at, id);
    PairRead(draw, at + |ClientIdDraws(c, id)|, keepAlive, BoolDraw(clean));
  }

  lemma FlagsRead(draw: Draw, at: nat, m: Message)
    requires m.Publish? && FlagsFit(m) && Holds(draw, at, FlagDraws(m))
    ensures ValueAt(draw, at, 0) % 256 % 3 == m.qos && (ValueAt(draw, at + 1, 0) % 2 == 1 <==> m.retain)
    ensures ValueAt(draw, at + 2, 0) % 2 == 1 <==> m.dup
    ensures m.packetId.Some? ==> ValueAt(draw, at + 3, 1) % U16_LIMIT == m.packetId.value
  {
    var values := FlagDraws(m);
    assert draw(at + 0) == Some(values[0]) && draw(at + 1) == Some(values[1]) && draw(at + 2) == Some(values[2]);
    assert m.packetId.Some? ==> draw(at + 3) == Some(values[3]);
  }

  lemma PublishRead(c: Corpora, draw: Draw, at: nat, m: Message, topic: string)
    requires m.Publish? && FlagsFit(m) && TopicText(c, topic) && m.topic == Ascii(topic) && IsPayload(c, m.payload)
    requires Holds(draw, at, TopicDraws(c, topic) + (PayloadDraws(c, m.payload) + FlagDraws(m)))
    ensures PublishFrom(c, draw, at)
         == Taken(m, at + |TopicDraws(c, topic)| + |PayloadDraws(c, m.payload)| + |FlagDraws(m)|)
  {
    hide Holds, TopicText, TopicFrom, TopicDraws, IsPayload, PayloadFrom, PayloadDraws, PublishFrom, Ascii;
    var first, second := TopicDraws(c, topic), PayloadDraws(c, m.payload);
    HoldsParts(draw, at, first, second + FlagDraws(m));
    HoldsParts(draw, at + |first|, second, FlagDraws(m));
    TopicRead(c, draw, at, topic);
    PayloadRead(c, draw, at + |first|, m.payload);
    FlagsRead(draw, at + |first| + |second|, m);
    hide ValueAt;
    PublishAssembled(c, draw, at, topic, m.payload, m);
  }

  lemma SubscribeRead(c: Corpora, draw: Draw, at: nat, id: nat, filters: seq<Filter>)
    requires id < U16_LIMIT && 1 <= |filters| <= 10 && Topics(c, TopicsOf(filters))
    requires forall f :: f in filters ==> f.qos <= 2
    requires Holds(draw, at, [id, |filters| - 1] + (TopicsDraws(c, TopicsOf(filters)) + QoSDraws(filters)))
    ensures SubscribeFrom(c, draw, at)
         == Taken(Subscribe(id, filters), at + 2 + |TopicsDraws(c, TopicsOf(filters))| + |filters|)
  {
    hide Holds, Topics, TopicsDraws, TopicsFrom, FiltersFrom, QoSDraws, TopicsOf;
    var topics := TopicsOf(filters);
    var values := TopicsDraws(c, topics);
    HoldsParts(draw, at, [id, |filters| - 1], values + QoSDraws(filters));
    HoldsParts(draw, at + 2, values, QoSDraws(filters));
    PairRead(draw, at, id, |filters| - 1);
    TopicsRead(c, draw, at + 2, topics);
    FiltersRead(draw, at + 2 + |values|, filters);
  }

  lemma PartsRead(c: Corpora, draw: Draw, at: nat, m: Message)
    requires Drawn(c, m) && Holds(draw, at, PartDraws(c, m))
    ensures m.Connect? ==> ConnectFrom(c, draw, at) == Taken(m, at + |PartDraws(c, m)|)
    ensures m.Publish? ==> PublishFrom(c, draw, at) == Taken(m, at + |PartDraws(c, m)|)
    ensures m.Subscribe? ==> SubscribeFrom(c, draw, at) == Taken(m, at + |PartDraws(c, m)|)
    ensures m.PingReq? ==> PartDraws(c, m) == []
  {
    hide Holds, ConnectFrom, PublishFrom, SubscribeFrom, IsTopic, IsClientId, TopicText, ClientIdText, IsPayload,
         ClientIdDraws, TopicDraws, PayloadDraws, TopicsDraws, Topics, Ascii;
    match m
    case Connect(id, keepAlive, clean) => ConnectRead(c, draw, at, IdTextOf(c, id), keepAlive, clean);
    case Publish(topic, _, _, _, _, _) =>
      PublishRead(c, draw, at, m, TextOf(c, topic));
    case Subscribe(id, filters) =>
      FilterTopics(c, filters);
      SubscribeRead(c, draw, at, id, filters);
    case PingReq =>
  }

  /** The draws of a message make it, wherever they stand, and no further draw is used. */
  lemma DrawsMakeMessage(c: Corpora, draw: Draw, at: nat, m: Message)
    requires Drawn(c, m) && Holds(draw, at, MessageDraws(c, m))
    ensures MessageFrom(c, draw, at) == Taken(m, at + |MessageDraws(c, m)|)
  {
    hide PartDraws, ConnectFrom, PublishFrom, SubscribeFrom;
    assert draw(at + 0) == Some(MessageDraws(c, m)[0]) == Some(Kind(m));
    HoldsParts(draw, at, [Kind(m)], PartDraws(c, m));
    hide Holds;
    PartsRead(c, draw, at + 1, m);
    assert DrawnKind(draw, at) == Kind(m) && |MessageDraws(c, m)| == 1 + |PartDraws(c, m)|;
  }

  // ---------------------------------------------------------------- what can be drawn

  lemma CharsAreOverCharset(draw: Draw, at: nat, length: nat, charset: string)
    requires charset != ""
    ensures OverCharset(CharsFrom(draw, at, length, charset), charset)
  {
  }

  lemma {:induction false} SegmentsAreSegments(draw: Draw, at: nat, count: nat)
    ensures Segments(SegmentsFrom(draw, at, count).value)
  {
    if count > 0 {
      SegmentsAreSegments(draw, at, count - 1);
      var front := SegmentsFrom(draw, at, count - 1);
      CharsAreOverCharset(draw, front.next + 1, ValueAt(draw, front.next, 5) % 50 + 1, TOPIC_CHARS);
      hide CharsFrom, OverCharset;
    }
  }

  lemma TopicFromIsText(c: Corpora, draw: Draw, at: nat)
    ensures TopicText(c, TopicFrom(c, draw, at).value)
    ensures IsTopic(c, Ascii(TopicFrom(c, draw, at).value))
  {
    hide Join, SegmentsFrom;
    if !FromCorpus(draw, at, |c.topics|) {
      var count := ValueAt(draw, at + 1, 2) % 10 + 1;
      SegmentsAreSegments(draw, at + 2, count);
      assert RandomSegments(SegmentsFrom(draw, at + 2, count).value);
    }
  }

  lemma ClientIdFromIsText(c: Corpora, draw: Draw, at: nat)
    ensures IsClientId(c, Ascii(ClientIdFrom(c, draw, at).value))
  {
    hide CharsFrom, OverCharset, Ascii;
    CharsAreOverCharset(draw, at + 2, ValueAt(draw, at + 1, 10) % 100 + 1, ID_CHARS);
    assert ClientIdText(c, ClientIdFrom(c, draw, at).value);
  }

  lemma PayloadFromIsPayload(c: Corpora, draw: Draw, at: nat)
    ensures IsPayload(c, PayloadFrom(c, draw, at).value)
  {
    hide Expand;
  }

  lemma {:induction false} TopicsFromAreTopics(c: Corpora, draw: Draw, at: nat, count: nat)
    ensures Topics(c, TopicsFrom(c, draw, at, count).value)
  {
    hide IsTopic, TopicFrom, Ascii;
    if count > 0 {
      TopicsFromAreTopics(c, draw, at, count - 1);
      TopicFromIsText(c, draw, TopicsFrom(c, draw, at, count - 1).next);
    }
  }

  /** Any draws make a message in the reach of the generators. */
  lemma MessageFromIsDrawn(c: Corpora, draw: Draw, at: nat)
    ensures Drawn(c, MessageFrom(c, draw, at).value)
  {
    hide IsTopic, IsClientId, IsPayload, TopicText, TopicFrom, TopicsFrom, ClientIdFrom, PayloadFrom, Ascii;
    ClientIdFromIsText(c, draw, at + 1);
    TopicFromIsText(c, draw, at + 1);
    PayloadFromIsPayload(c, draw, TopicFrom(c, draw, at + 1).next);
    TopicsFromAreTopics(c, draw, at + 3, ValueAt(draw, at + 2, 1) % 10 + 1);
  }

  /** An endless source that begins with the given draws. */
  function Stream(values: seq<nat>): Draw {
    (i: nat) => Some(if i < |values| then values[i] else 0)
  }

  /** The messages in the reach of the generators are exactly those that an endless source of draws can make. */
  lemma DrawnIsReachable(c: Corpora, m: Message)
    ensures Drawn(c, m) <==> exists draw :: Endless(draw) && MessageFrom(c, draw, 0).value == m
  {
    if Drawn(c, m) {
      var draw := Stream(MessageDraws(c, m));
      assert Endless(draw) && Holds(draw, 0, MessageDraws(c, m));
      DrawsMakeMessage(c, draw, 0, m);
    }
    hide Drawn, MessageFrom;
    if draw :| Endless(draw) && MessageFrom(c, draw, 0).value == m {
      MessageFromIsDrawn(c, draw, 0);
    }
  }
}
