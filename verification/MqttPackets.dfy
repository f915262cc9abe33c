/**
 * The packets the generators mean to produce: messages, their wire layout (OASIS MQTT 3.1.1, sections 3.1, 3.3,
 * 3.8 and 3.12), and an independent reader of that layout.
 */
module MqttPackets {
  import opened Bytes
  import opened RemainingLength
  import opened MqttDecoders
  import opened Wrappers

  datatype Filter = Filter(topic: seq<Byte>, qos: Byte)

  datatype Message =
    | Connect(clientId: seq<Byte>, keepAlive: nat, cleanSession: bool)
    | Publish(topic: seq<Byte>, payload: seq<Byte>, qos: Byte, retain: bool, dup: bool, packetId: Option<nat>)
    | Subscribe(subscriptionId: nat, filters: seq<Filter>)
    | PingReq

  const U16_LIMIT: nat := 0x1_0000
  const PROTOCOL_NAME: seq<Byte> := [0x4D, 0x51, 0x54, 0x54]

  /** What every length field and identifier of a message has to fit. */
  predicate Fits(m: Message) {
    match m
    case Connect(id, keepAlive, _) => |id| < U16_LIMIT && keepAlive < U16_LIMIT
    case Publish(topic, _, qos, _, _, packetId) =>
      && |topic| < U16_LIMIT && qos <= 2
      && (packetId.Some? <==> qos > 0) && (packetId.Some? ==> packetId.value < U16_LIMIT)
    case Subscribe(id, filters) => id < U16_LIMIT && forall f :: f in filters ==> |f.topic| < U16_LIMIT
    case PingReq => true
  }

  // ---------------------------------------------------------------- layout

  function FirstByte(m: Message): Byte
    requires Fits(m)
  {
    match m
    case Connect(_, _, _) => 0x10
    case Publish(_, _, qos, retain, dup, _) => 0x30 + (if dup then 8 else 0) + 2 * qos + (if retain then 1 else 0)
    case Subscribe(_, _) => 0x82
    case PingReq => 0xC0
  }

  function FilterBytes(f: Filter): (bytes: seq<Byte>)
    ensures |bytes| == 2 + |f.topic| + 1
  {
    U16Bytes(|f.topic|) + f.topic + [f.qos]
  }

  function FiltersBytes(fs: seq<Filter>): seq<Byte> {
    if fs == [] then [] else FilterBytes(fs[0]) + FiltersBytes(fs[1..])
  }

  function IdBytes(packetId: Option<nat>): seq<Byte> {
    if packetId.Some? then U16Bytes(packetId.value) else []
  }

  function Body(m: Message): seq<Byte> {
    match m
    case Connect(id, keepAlive, clean) =>
      U16Bytes(4) + PROTOCOL_NAME + [4] + [if clean then 2 else 0] + U16Bytes(keepAlive) + U16Bytes(|id|) + id
    case Publish(topic, payload, _, _, _, packetId) =>
      U16Bytes(|topic|) + topic + IdBytes(packetId) + payload
    case Subscribe(id, filters) => U16Bytes(id) + FiltersBytes(filters)
    case PingReq => []
  }

  function Frame(first: Byte, body: seq<Byte>): seq<Byte> {
    [first] + Encode(|body|) + body
  }

  function Wire(m: Message): seq<Byte>
    requires Fits(m)
  {
    Frame(FirstByte(m), Body(m))
  }

  // ---------------------------------------------------------------- framing

  /** A frame passes the validator exactly when its type is valid and its body is shorter than 2^28 bytes. */
  lemma FrameValid(first: Byte, body: seq<Byte>)
    ensures WellFramed(Frame(first, body)) <==> ValidType(TypeNibble(first)) && |body| < LENGTH_LIMIT
    ensures |body| < LENGTH_LIMIT ==> Header(Frame(first, body), |Encode(|body|)|)
  {
    var p := Frame(first, body);
    hide Encode, Complete, Value;
    assert p[0] == first;
    EncodedHeader(first, |body|, body);
    if |body| < LENGTH_LIMIT {
      var h := |Encode(|body|)|;
      assert Header(p, h) && |p| == 1 + h + HeaderValue(p, h);
    }
  }

  /** The body of a frame is what follows the length bytes that a scan finds. */
  lemma FrameBody(first: Byte, body: seq<Byte>)
    requires |body| < LENGTH_LIMIT
    ensures var p := Frame(first, body);
            ScanLength(p[1..]) == |Encode(|body|)| && p[1 + ScanLength(p[1..])..] == body
  {
    var p := Frame(first, body);
    FrameValid(first, body);
    HeaderIsScan(p, |Encode(|body|)|);
  }

  // ---------------------------------------------------------------- an independent reader

  /** Reads `u16 length, topic, QoS` entries until the bytes are used up. */
  function ReadFilters(s: seq<Byte>): (r: Option<seq<Filter>>)
    decreases |s|
  {
    if s == [] then Some([])
    else if |s| < 2 || |s| < U16At(s, 0) + 3 then None
    else
      var n := U16At(s, 0);
      var rest := ReadFilters(s[n + 3..]);
      if rest.None? then None else Some([Filter(s[2..n + 2], s[n + 2])] + rest.value)
  }

  function ReadConnect(b: seq<Byte>): Option<Message> {
    if |b| >= 12 && U16At(b, 0) == 4 && b[2..6] == PROTOCOL_NAME && b[6] == 4 && U16At(b, 10) == |b| - 12
    then Some(Connect(b[12..], U16At(b, 8), (b[7] / 2) % 2 == 1))
    else None
  }

  function ReadPublish(first: Byte, b: seq<Byte>): Option<Message> {
    var qos := (first / 2) % 4;
    var fixed := if qos > 0 then 4 else 2;
    if |b| < 2 || |b| < U16At(b, 0) + fixed then None
    else
      var n := U16At(b, 0);
      Some(Publish(b[2..n + 2], b[n + fixed..], qos, first % 2 == 1, (first / 8) % 2 == 1,
                   if qos > 0 then Some(U16At(b, n + 2)) else None))
  }

  function ReadSubscribe(b: seq<Byte>): Option<Message> {
    if |b| < 2 then None
    else
      var filters := ReadFilters(b[2..]);
      if filters.None? then None else Some(Subscribe(U16At(b, 0), filters.value))
  }

  function ReadBody(first: Byte, body: seq<Byte>): Option<Message> {
    match TypeNibble(first)
    case 1 => ReadConnect(body)
    case 3 => ReadPublish(first, body)
    case 8 => ReadSubscribe(body)
    case 12 => if body == [] then Some(PingReq) else None
    case _ => None
  }

  function Read(p: seq<Byte>): Option<Message> {
    if p == [] then None else ReadBody(p[0], p[1 + ScanLength(p[1..])..])
  }

  // ---------------------------------------------------------------- reading back

  /** The first filter can be cut off the rest. */
  lemma FilterHead(f: Filter, rest: seq<Byte>)
    requires |f.topic| < U16_LIMIT
    ensures var s, n := FilterBytes(f) + rest, |f.topic|;
            && |s| >= n + 3 && U16At(s, 0) == n
            && s[2..n + 2] == f.topic && s[n + 2] == f.qos && s[n + 3..] == rest
  {
    var s, n := FilterBytes(f) + rest, |f.topic|;
    assert s[0..2] == U16Bytes(n);
    U16Elsewhere(s, 0, n);
  }

  lemma {:induction false} FiltersRoundTrip(fs: seq<Filter>)
    requires forall f :: f in fs ==> |f.topic| < U16_LIMIT
    ensures ReadFilters(FiltersBytes(fs)) == Some(fs)
  {
    if fs != [] {
      assert fs[0] in fs;
      FilterHead(fs[0], FiltersBytes(fs[1..]));
      FiltersRoundTrip(fs[1..]);
      assert fs == [Filter(fs[0].topic, fs[0].qos)] + fs[1..];
    }
  }

  /** Where the parts of a CONNECT body stand. */
  lemma ConnectParts(m: Message)
    requires m.Connect? && Fits(m)
    ensures var b := Body(m);
            && |b| == 12 + |m.clientId| && b[0..2] == U16Bytes(4) && b[2..6] == PROTOCOL_NAME && b[6] == 4
            && b[7] == (if m.cleanSession then 2 else 0) && b[8..10] == U16Bytes(m.keepAlive)
            && b[10..12] == U16Bytes(|m.clientId|) && b[12..] == m.clientId
  {
    hide U16Bytes;
  }

  lemma ConnectRoundTrip(m: Message)
    requires m.Connect? && Fits(m)
    ensures ReadConnect(Body(m)) == Some(m)
  {
    ConnectParts(m);
    hide U16At, U16Bytes, Body;
    U16Elsewhere(Body(m), 0, 4);
    U16Elsewhere(Body(m), 8, m.keepAlive);
    U16Elsewhere(Body(m), 10, |m.clientId|);
  }

  /** Where the parts of a PUBLISH body stand. */
  lemma PublishParts(m: Message)
    requires m.Publish? && Fits(m)
    ensures var b, n, fixed := Body(m), |m.topic|, if m.packetId.Some? then 4 else 2;
            && |b| >= n + fixed && U16At(b, 0) == n && b[2..n + 2] == m.topic && b[n + fixed..] == m.payload
            && (m.packetId.Some? ==> U16At(b, n + 2) == m.packetId.value)
  {
    var b, n := Body(m), |m.topic|;
    assert b[0..2] == U16Bytes(n);
    U16Elsewhere(b, 0, n);
    if m.packetId.Some? {
      assert b[n + 2..n + 4] == U16Bytes(m.packetId.value);
      U16Elsewhere(b, n + 2, m.packetId.value);
    }
  }

  /** The flag bits of a PUBLISH give QoS, RETAIN and DUP back. */
  lemma PublishFlagBits(m: Message)
    requires m.Publish? && Fits(m)
    ensures var first := FirstByte(m);
            TypeNibble(first) == PUBLISH_TYPE && (first / 2) % 4 == m.qos
            && (first % 2 == 1 <==> m.retain) && ((first / 8) % 2 == 1 <==> m.dup)
  {
  }

  lemma PublishRoundTrip(m: Message)
    requires m.Publish? && Fits(m)
    ensures ReadPublish(FirstByte(m), Body(m)) == Some(m)
  {
    hide FirstByte, Body, U16At;
    PublishFlagBits(m);
    PublishParts(m);
  }

  lemma SubscribeRoundTrip(id: nat, filters: seq<Filter>)
    requires Fits(Subscribe(id, filters))
    ensures ReadSubscribe(Body(Subscribe(id, filters))) == Some(Subscribe(id, filters))
  {
    var b := Body(Subscribe(id, filters));
    assert b[0..2] == U16Bytes(id) && b[2..] == FiltersBytes(filters);
    U16Elsewhere(b, 0, id);
    FiltersRoundTrip(filters);
  }

  lemma BodyRoundTrip(m: Message)
    requires Fits(m)
    ensures ReadBody(FirstByte(m), Body(m)) == Some(m)
  {
    match m
    case Connect(_, _, _) => ConnectRoundTrip(m);
    case Publish(_, _, _, _, _, _) => PublishRoundTrip(m);
    case Subscribe(id, filters) => SubscribeRoundTrip(id, filters);
    case PingReq =>
  }

  /** Reading a packet back gives the message: client id, topics, identifiers, flags and payload all survive. */
  lemma ReadInvertsWire(m: Message)
    requires Fits(m) && |Body(m)| < LENGTH_LIMIT
    ensures Read(Wire(m)) == Some(m)
  {
    FrameBody(FirstByte(m), Body(m));
    BodyRoundTrip(m);
  }

  // ---------------------------------------------------------------- features of well-formed packets

  /** The length feature of a packet is the size of its body. */
  lemma WireLength(m: Message)
    requires Fits(m) && |Body(m)| < LENGTH_LIMIT
    ensures |Wire(m)| > 1 && LengthFeature(Wire(m)) == |Body(m)|
  {
    hide Body, FirstByte, LengthFeature;
    EncodeDecodes(|Body(m)|);
    FrameValid(FirstByte(m), Body(m));
    FrameBody(FirstByte(m), Body(m));
    WireIsWellFramed(m);
    DecodersAgree(Wire(m));
  }

  lemma WireIsWellFramed(m: Message)
    requires Fits(m) && |Body(m)| < LENGTH_LIMIT
    ensures WellFramed(Wire(m))
  {
    FrameValid(FirstByte(m), Body(m));
  }

  /** The feature extractor recovers QoS, RETAIN and DUP of a PUBLISH. */
  lemma PublishFeatures(m: Message)
    requires m.Publish? && Fits(m) && |Body(m)| < LENGTH_LIMIT
    ensures Features(Wire(m)) == [PUBLISH_TYPE, FirstByte(m) % 16, |Wire(m)|, |Body(m)|] + TypeFeatures(Wire(m))
    ensures TypeFeatures(Wire(m)) == [m.qos, if m.retain then 1 else 0, if m.dup then 1 else 0]
  {
    hide Body, FirstByte, Encode, LengthFeature;
    WireLength(m);
    PublishFlagBits(m);
    assert Wire(m)[0] == FirstByte(m);
  }

  /** How many length bytes a CONNECT has; its client id is the only part of variable size. */
  function ConnectLengthBytes(m: Message): nat
    requires m.Connect?
  {
    if |m.clientId| < 116 then 1 else if |m.clientId| < 16372 then 2 else 3
  }

  /** What bytes 10 and 11 of a CONNECT hold: the keep-alive interval, or two of the bytes before it. */
  function SupposedNameLength(m: Message): nat
    requires m.Connect?
  {
    var flags := if m.cleanSession then 2 else 0;
    match ConnectLengthBytes(m)
    case 1 => m.keepAlive
    case 2 => 256 * flags + m.keepAlive / 256
    case _ => 256 * 4 + flags
  }

  /**
   * The fifth feature of a CONNECT, read at bytes 10 and 11 as the length of the protocol name, is something else for
   * every number of length bytes; it happens to equal that length exactly under the condition stated. The name stands
   * two bytes behind the length bytes, and its length right behind them.
   */
  lemma ConnectFeatures(m: Message)
    requires m.Connect? && Fits(m)
    ensures Features(Wire(m)) == [CONNECT_TYPE, 0, |Wire(m)|, 12 + |m.clientId|] + TypeFeatures(Wire(m))
    ensures TypeFeatures(Wire(m)) == [SupposedNameLength(m)]
    ensures TypeFeatures(Wire(m)) == [|PROTOCOL_NAME|] <==>
            match ConnectLengthBytes(m)
            case 1 => m.keepAlive == 4
            case 2 => !m.cleanSession && 1024 <= m.keepAlive < 1280
            case _ => false
    ensures var k := ConnectLengthBytes(m);
            U16At(Wire(m), 1 + k) == |PROTOCOL_NAME| && Wire(m)[3 + k..7 + k] == PROTOCOL_NAME
  {
    ConnectParts(m);
    ConnectLength(m);
    ConnectLayout(m);
    hide LengthFeature, Encode, U16At, Body;
    WireLength(m);
    assert Wire(m)[0] == 0x10;
  }

  lemma ConnectLength(m: Message)
    requires m.Connect? && Fits(m)
    ensures |Encode(|Body(m)|)| == ConnectLengthBytes(m) && |Body(m)| == 12 + |m.clientId|
  {
    ConnectParts(m);
    EncodeLength(|Body(m)|, 1);
    EncodeLength(|Body(m)|, 2);
    EncodeLength(|Body(m)|, 3);
    assert Pow128(0) == 1 && Pow128(1) == 128 && Pow128(2) == 128 * 128 && Pow128(3) == 128 * 128 * 128;
  }

  lemma ConnectLayout(m: Message)
    requires m.Connect? && Fits(m)
    ensures var p, k := Wire(m), ConnectLengthBytes(m);
            && |p| == 13 + k + |m.clientId| && p[9] != 0x4D && U16At(p, 10) == SupposedNameLength(m)
            && U16At(p, 1 + k) == |PROTOCOL_NAME| && p[3 + k..7 + k] == PROTOCOL_NAME
  {
    ConnectParts(m);
    ConnectLength(m);
    var p, b, k := Wire(m), Body(m), ConnectLengthBytes(m);
    hide Encode, U16Bytes, U16At, Body, ConnectLengthBytes, SupposedNameLength;
    assert p[1 + k..] == b;
    NameInPlace(p, b, k);
    assert p[9] == b[8 - k] && p[10] == b[9 - k] && p[11] == b[10 - k];
    SupposedBytes(m, p);
  }

  lemma NameInPlace(p: seq<Byte>, b: seq<Byte>, k: nat)
    requires |p| >= 1 + k && p[1 + k..] == b && |b| >= 12
    requires b[0..2] == U16Bytes(4) && b[2..6] == PROTOCOL_NAME
    ensures U16At(p, 1 + k) == |PROTOCOL_NAME| && p[3 + k..7 + k] == PROTOCOL_NAME
    ensures b[5] == 0x54
  {
    hide U16Bytes, U16At;
    assert p[1 + k..3 + k] == b[0..2] && p[3 + k..7 + k] == b[2..6];
    U16Elsewhere(p, 1 + k, 4);
    assert b[5] == b[2..6][3];
  }

  lemma SupposedBytes(m: Message, p: seq<Byte>)
    requires m.Connect? && Fits(m) && |p| >= 12
    requires var b, k := Body(m), ConnectLengthBytes(m); |b| >= 12 && p[10] == b[9 - k] && p[11] == b[10 - k]
    ensures U16At(p, 10) == SupposedNameLength(m)
  {
    ConnectParts(m);
    var b := Body(m);
    hide Body;
    assert b[8] == b[8..10][0] && b[9] == b[8..10][1];
  }
}
