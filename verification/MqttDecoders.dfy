/**
 * The validator and the three other decoders of the remaining-length field, each proved against one
 * reference: the header of a packet, defined in RemainingLength without a loop.
 */
module MqttDecoders {
  import opened Bytes
  import opened RemainingLength

  predicate ValidType(t: nat) { 1 <= t <= 14 }

  /** The packet has a header and exactly as many bytes as the header announces. */
  ghost predicate Framed(p: seq<Byte>) {
    exists h: nat :: Header(p, h) && |p| == 1 + h + HeaderValue(p, h)
  }

  /** The reference for `validate_packet`. */
  ghost predicate WellFramed(p: seq<Byte>) {
    p != [] && ValidType(TypeNibble(p[0])) && Framed(p)
  }

  /** Only the size of a packet and its bytes 1 to 4 decide whether it is framed. */
  lemma FramedBySizeAndHeader(p: seq<Byte>, q: seq<Byte>)
    requires |p| == |q|
    requires forall k :: 1 <= k < |p| && k <= MAX_BYTES ==> p[k] == q[k]
    ensures Framed(p) <==> Framed(q)
  {
    forall h: nat | h <= MAX_BYTES && h < |p|
      ensures p[1..h + 1] == q[1..h + 1] && (Header(p, h) <==> Header(q, h))
    {
    }
  }

  /** `n` times 128^k, as the decoders maintain it, never exceeds this before they give up. */
  const MULTIPLIER_LIMIT: nat := 128 * 128 * 128

  lemma LimitIsThreeBytes(k: nat)
    ensures Pow128(k) > MULTIPLIER_LIMIT <==> k >= 4
  {
    assert Pow128(0) == 1 && Pow128(1) == 128 && Pow128(2) == 128 * 128 && Pow128(3) == 128 * 128 * 128;
    if k >= 4 {
      assert Pow128(k) == 128 * Pow128(k - 1);
      if k > 4 {
        LimitIsThreeBytes(k - 1);
      }
    } else {
      assert k == 0 || k == 1 || k == 2 || k == 3;
    }
  }

  /** One turn of a decoding loop: the next byte is added with the weight of its position. */
  lemma ValueStep(p: seq<Byte>, pos: nat)
    requires 1 <= pos < |p|
    ensures Value(p[1..pos + 1]) == Value(p[1..pos]) + (p[pos] % 128) * Pow128(pos - 1)
  {
    assert p[1..pos + 1] == p[1..pos] + [p[pos]];
    ValueSnoc(p[1..pos], p[pos]);
  }

  method ValidatePacket(packet: seq<Byte>) returns (ok: bool)
    ensures ok <==> WellFramed(packet)
  {
    if |packet| == 0 {
      return false;
    }
    var packetType := TypeNibble(packet[0]);
    if packetType == 0 || packetType == 15 {
      return false;
    }
    if |packet| < 2 {
      return false;
    }
    var pos: nat, multiplier: nat, remainingLength: nat := 1, 1, 0;
    while true
      invariant 1 <= pos <= MAX_BYTES
      invariant forall i :: 1 <= i < pos && i < |packet| ==> Continues(packet[i])
      invariant pos <= |packet|
      invariant multiplier == Pow128(pos - 1)
      invariant remainingLength == Value(packet[1..pos])
      decreases MAX_BYTES - pos
    {
      if pos >= |packet| {
        return false;
      }
      var byte := packet[pos];
      ValueStep(packet, pos);
      remainingLength := remainingLength + (byte % 128) * multiplier;
      if !Continues(byte) {
        break;
      }
      multiplier := multiplier * 128;
      LimitIsThreeBytes(pos);
      if multiplier > MULTIPLIER_LIMIT || pos > 4 {
        return false;
      }
      pos := pos + 1;
    }
    assert Header(packet, pos);
    assert forall h: nat :: Header(packet, h) ==> h == pos;
    return pos + 1 + remainingLength == |packet|;
  }

  // ---------------------------------------------------------------- the packet analyser

  /** The reference for `looks_like_mqtt`, which never compares the announced length with the real one. */
  ghost predicate LooksLike(p: seq<Byte>) {
    && p != []
    && ValidType(TypeNibble(p[0]))
    && (|p| == 1 || exists h: nat :: Header(p, h))
  }

  method LooksLikeMqtt(data: seq<Byte>) returns (ok: bool)
    ensures ok <==> LooksLike(data)
  {
    if |data| == 0 {
      return false;
    }
    var packetType := TypeNibble(data[0]);
    if packetType == 0 || packetType == 15 {
      return false;
    }
    if |data| > 1 {
      var pos: nat, multiplier: nat := 1, 1;
      while true
        invariant 1 <= pos <= MAX_BYTES
        invariant forall i :: 1 <= i < pos && i < |data| ==> Continues(data[i])
        invariant multiplier == Pow128(pos - 1)
        decreases MAX_BYTES - pos
      {
        if pos >= |data| {
          return false;
        }
        if !Continues(data[pos]) {
          break;
        }
        multiplier := multiplier * 128;
        LimitIsThreeBytes(pos);
        if multiplier > MULTIPLIER_LIMIT || pos + 1 > 4 {
          return false;
        }
        pos := pos + 1;
      }
      assert Header(data, pos);
    }
    return true;
  }

  // ---------------------------------------------------------------- the feature collector

  /** `k` is where a scan of at most four length bytes stops: after a final byte, or for lack of bytes or patience. */
  ghost predicate StopsAt(s: seq<Byte>, k: nat) {
    && k <= |s| && k <= MAX_BYTES
    && (forall i :: 0 <= i < k - 1 ==> Continues(s[i]))
    && (k == |s| || k == MAX_BYTES || (k > 0 && !Continues(s[k - 1])))
  }

  function ScanLength(s: seq<Byte>, limit: nat := MAX_BYTES): (k: nat)
    ensures k <= |s| && k <= limit
    ensures forall i :: 0 <= i < k - 1 ==> Continues(s[i])
    ensures k == |s| || k == limit || (k > 0 && !Continues(s[k - 1]))
  {
    if s == [] || limit == 0 then 0
    else if !Continues(s[0]) then 1
    else
      var k := ScanLength(s[1..], limit - 1);
      assert forall i :: 0 < i < k ==> s[i] == s[1..][i - 1];
      1 + k
  }

  /** The scan stops in one place only, so StopsAt says all there is to say about ScanLength. */
  lemma ScanStops(s: seq<Byte>, k: nat)
    ensures StopsAt(s, k) <==> k == ScanLength(s)
  {
    assert StopsAt(s, ScanLength(s));
  }

  method CountRemainingLengthBytes(data: seq<Byte>) returns (count: nat)
    ensures StopsAt(data, count)
  {
    count := 0;
    while count < |data| && count < 4
      invariant count <= |data| && count <= 4
      invariant forall i :: 0 <= i < count ==> Continues(data[i])
    {
      count := count + 1;
      if !Continues(data[count - 1]) {
        break;
      }
    }
  }

  // ---------------------------------------------------------------- extract_features

  const CONNECT_TYPE: nat := 1
  const PUBLISH_TYPE: nat := 3

  /** What `extract_features` reports as remaining length: the value of the bytes a scan covers. */
  function LengthFeature(p: seq<Byte>): nat
    requires |p| > 1
  {
    Value(p[1..1 + ScanLength(p[1..])])
  }

  /** The features that depend on the packet type: two bytes of a CONNECT; QoS, RETAIN and DUP of a PUBLISH. */
  function TypeFeatures(p: seq<Byte>): seq<nat>
    requires p != []
  {
    if TypeNibble(p[0]) == CONNECT_TYPE && |p| >= 12 then [U16At(p, 10)]
    else if TypeNibble(p[0]) == PUBLISH_TYPE then [(p[0] / 2) % 4, p[0] % 2, (p[0] / 8) % 2]
    else []
  }

  function Features(p: seq<Byte>): seq<nat> {
    if p == [] then [0]
    else
      [TypeNibble(p[0]), p[0] % 16, |p|]
      + (if |p| > 1 then [LengthFeature(p)] else [])
      + TypeFeatures(p)
  }

  /** The features determine the first byte and the size, and of a PUBLISH the flags, of a CONNECT bytes 10 and 11. */
  lemma FeaturesTellPacket(p: seq<Byte>)
    requires p != []
    ensures var f := Features(p);
            && |f| >= 3 && p[0] == 16 * f[0] + f[1] && f[1] < 16 && |p| == f[2]
            && (|p| > 1 ==> |f| >= 4 && f[3] == LengthFeature(p))
            && (f[0] == 1 ==> (|f| == 5 <==> |p| >= 12))
            && (f[0] == 1 && |p| >= 12 ==> f[4] == 256 * p[10] as nat + p[11] as nat)
            && (f[0] == 3 && |p| > 1 ==> |f| == 7 && f[1] == 8 * f[6] + 2 * f[4] + f[5])
            && (f[0] !in {1, 3} ==> |f| <= 4)
  {
    hide LengthFeature;
    LowNibbleBits(p[0]);
  }

  method ExtractFeatures(packet: seq<Byte>) returns (features: seq<nat>)
    ensures features == Features(packet)
  {
    features := [];
    if |packet| == 0 {
      return [0];
    }
    var packetType := TypeNibble(packet[0]);
    var flags := packet[0] % 16;
    LowNibbleBits(packet[0]);
    features := features + [packetType];
    features := features + [flags];
    features := features + [|packet|];
    if |packet| > 1 {
      var remainingLength := LengthLoop(packet);
      features := features + [remainingLength];
    }
    match packetType {
      case 1 =>
        if |packet| > 10 {
          if |packet| >= 12 {
            features := features + [U16At(packet, 10)];
          }
        }
      case 3 =>
        features := features + [(flags / 2) % 4];
        features := features + [flags % 2];
        features := features + [(flags / 8) % 2];
      case _ =>
    }
  }

  /** The decoding loop inside `extract_features`: it breaks where the validator rejects. */
  method LengthLoop(packet: seq<Byte>) returns (remainingLength: nat)
    requires |packet| > 1
    ensures remainingLength == LengthFeature(packet)
  {
    var tail := packet[1..];
    var pos: nat, multiplier: nat := 1, 1;
    remainingLength := 0;
    ghost var seen := 0;
    while pos < |packet|
      invariant 1 <= pos <= MAX_BYTES && pos <= |packet|
      invariant seen == pos - 1
      invariant forall i :: 1 <= i < pos ==> Continues(packet[i])
      invariant multiplier == Pow128(pos - 1)
      invariant remainingLength == Value(packet[1..pos])
      decreases |packet| - pos
    {
      var byte := packet[pos];
      ValueStep(packet, pos);
      remainingLength := remainingLength + (byte % 128) * multiplier;
      seen := seen + 1;
      if !Continues(byte) {
        break;
      }
      multiplier := multiplier * 128;
      LimitIsThreeBytes(pos);
      pos := pos + 1;
      if pos > 5 || multiplier > MULTIPLIER_LIMIT {
        break;
      }
    }
    assert StopsAt(tail, seen) && remainingLength == Value(packet[1..1 + seen]);
    ScanStops(tail, seen);
  }

  // ---------------------------------------------------------------- the four decoders agree

  lemma HeaderIsScan(p: seq<Byte>, h: nat)
    requires p != []
    ensures Header(p, h) <==> h == ScanLength(p[1..]) && h > 0 && !Continues(p[h])
  {
    var tail := p[1..];
    assert forall i :: 1 <= i < |p| ==> p[i] == tail[i - 1];
    if Header(p, h) {
      assert StopsAt(tail, h);
    }
    ScanStops(tail, h);
  }

  /**
   * On every packet the validator accepts, the counter of length bytes returns the header's size, the feature
   * extractor reports the rest of the packet as remaining length, and the analyser recognises MQTT.
   */
  lemma DecodersAgree(p: seq<Byte>)
    requires WellFramed(p)
    ensures var h := ScanLength(p[1..]);
            Header(p, h) && LengthFeature(p) == HeaderValue(p, h) == |p| - 1 - h
    ensures LooksLike(p)
  {
    var h: nat :| Header(p, h) && |p| == 1 + h + HeaderValue(p, h);
    HeaderIsScan(p, h);
  }

  /** Exactly what the validator asks beyond the analyser: a second byte, and the announced length. */
  lemma ValidatorVersusAnalyser(p: seq<Byte>)
    ensures WellFramed(p) <==> |p| >= 2 && LooksLike(p) && |p| == 1 + ScanLength(p[1..]) + LengthFeature(p)
  {
    if |p| >= 2 && LooksLike(p) {
      var h: nat :| Header(p, h);
      HeaderIsScan(p, h);
    }
    if WellFramed(p) {
      DecodersAgree(p);
    }
  }

  // ---------------------------------------------------------------- accepted packets form a prefix code

  /** No framed packet is a proper prefix of another framed packet: they have the same header. */
  lemma FramedPrefixFree(p: seq<Byte>, q: seq<Byte>)
    requires Framed(p) && Framed(q) && p <= q
    ensures p == q
  {
    var h: nat :| Header(p, h) && |p| == 1 + h + HeaderValue(p, h);
    var k: nat :| Header(q, k) && |q| == 1 + k + HeaderValue(q, k);
    assert Header(q, h);
    HeaderUnique(q, h, k);
    assert p[1..h + 1] == q[1..h + 1];
  }

  /** No accepted packet is a proper prefix of another accepted packet. */
  lemma PrefixFree(p: seq<Byte>, q: seq<Byte>)
    requires WellFramed(p) && WellFramed(q) && p <= q
    ensures p == q
  {
    FramedPrefixFree(p, q);
  }

  function Concat(ps: seq<seq<Byte>>): seq<Byte> {
    if ps == [] then [] else ps[0] + Concat(ps[1..])
  }

  /** A byte stream is the concatenation of accepted packets in at most one way. */
  lemma {:induction false} StreamsSplitUniquely(ps: seq<seq<Byte>>, qs: seq<seq<Byte>>)
    requires forall i :: 0 <= i < |ps| ==> WellFramed(ps[i])
    requires forall i :: 0 <= i < |qs| ==> WellFramed(qs[i])
    requires Concat(ps) == Concat(qs)
    ensures ps == qs
  {
    assert ps != [] ==> WellFramed(ps[0]);
    assert qs != [] ==> WellFramed(qs[0]);
    if ps != [] && qs != [] {
      var p, q, s := ps[0], qs[0], Concat(ps);
      assert WellFramed(p) && WellFramed(q);
      assert p == s[..|p|] && q == s[..|q|];
      if |p| <= |q| {
        assert p <= q;
        PrefixFree(p, q);
      } else {
        assert q <= p;
        PrefixFree(q, p);
      }
      assert Concat(ps[1..]) == s[|p|..] == Concat(qs[1..]);
      StreamsSplitUniquely(ps[1..], qs[1..]);
      assert ps == [p] + ps[1..] && qs == [q] + qs[1..];
    }
  }
}
