/** The base-128 "remaining length" field of an MQTT packet (OASIS MQTT 3.1.1, section 2.2.3). */
module RemainingLength {
  import opened Bytes

  predicate Continues(b: Byte) { b >= 128 }

  function Pow128(k: nat): (p: nat)
    ensures p >= 1
  {
    if k == 0 then 1 else 128 * Pow128(k - 1)
  }

  /** What a group of length bytes denotes, least significant byte first. */
  function Value(s: seq<Byte>): nat {
    if s == [] then 0 else s[0] % 128 + 128 * Value(s[1..])
  }

  /** A complete length field: exactly the last byte has no continuation bit. */
  ghost predicate Complete(s: seq<Byte>) {
    && s != []
    && (forall i :: 0 <= i < |s| - 1 ==> Continues(s[i]))
    && !Continues(s[|s| - 1])
  }

  /** The bytes that `encode_remaining_length` appends. There is no bound on `n` and none on the result. */
  function Encode(n: nat): (s: seq<Byte>)
    ensures |s| >= 1
  {
    if n < 128 then [n] else [n % 128 + 128] + Encode(n / 128)
  }

  method EncodeRemainingLength(packet: ByteVec, remaining: nat)
    modifies packet
    ensures packet.bytes == old(packet.bytes) + Encode(remaining)
  {
    var length := remaining;
    ghost var done: seq<Byte> := [];
    while true
      invariant done + Encode(length) == Encode(remaining)
      invariant packet.bytes == old(packet.bytes) + done
      decreases length
    {
      var byte: Byte := length % 128;
      length := length / 128;
      if length > 0 {
        byte := byte + 128;
      }
      packet.PutU8(byte);
      ghost var before := done;
      done := done + [byte];
      if length == 0 {
        break;
      }
      assert done + Encode(length) == before + ([byte] + Encode(length));
    }
  }

  // ---------------------------------------------------------------- values

  lemma {:induction false} ValueSnoc(s: seq<Byte>, b: Byte)
    ensures Value(s + [b]) == Value(s) + (b % 128) * Pow128(|s|)
  {
    if s == [] {
      assert Value([b]) == b % 128 + 128 * Value([]);
    } else {
      assert (s + [b])[1..] == s[1..] + [b];
      ValueSnoc(s[1..], b);
      var d, p := b % 128, Pow128(|s| - 1);
      assert d * (128 * p) == 128 * (d * p);
    }
  }

  lemma {:induction false} ValueBound(s: seq<Byte>)
    ensures Value(s) < Pow128(|s|)
  {
    if s != [] {
      ValueBound(s[1..]);
    }
  }

  /** A complete field whose last byte is not a redundant zero needs all of its bytes. */
  lemma {:induction false} ValueLowerBound(s: seq<Byte>)
    requires Complete(s) && |s| > 1 && s[|s| - 1] != 0
    ensures Value(s) >= Pow128(|s| - 1)
  {
    var t := s[1..];
    assert t[|t| - 1] == s[|s| - 1];
    if |t| == 1 {
      assert Value(t) == t[0] % 128 + 128 * Value([]);
    } else {
      assert Complete(t);
      ValueLowerBound(t);
    }
  }

  lemma ZeroValue(s: seq<Byte>)
    requires Complete(s) && Value(s) == 0
    ensures s[|s| - 1] == 0
  {
    if |s| == 1 {
      assert Value(s) == s[0] % 128 + 128 * Value([]);
    } else {
      ZeroValue(s[1..]);
    }
  }

  // ---------------------------------------------------------------- encoding and decoding are inverse

  lemma {:induction false} EncodeDecodes(n: nat)
    ensures Complete(Encode(n)) && Value(Encode(n)) == n
  {
    var s := Encode(n);
    if n < 128 {
      assert Value(s) == s[0] % 128 + 128 * Value([]);
    } else {
      EncodeDecodes(n / 128);
      var t := Encode(n / 128);
      assert s[1..] == t;
      forall i | 0 <= i < |s| - 1
        ensures Continues(s[i])
      {
        if i > 0 {
          assert s[i] == t[i - 1];
        }
      }
    }
  }

  /** Decoding and encoding again gives back the bytes exactly when they carry no redundant zero byte. */
  lemma {:induction false} DecodeEncodes(s: seq<Byte>)
    requires Complete(s)
    ensures Encode(Value(s)) == s <==> |s| == 1 || s[|s| - 1] != 0
  {
    assert Value([s[0]]) == s[0] % 128 + 128 * Value([]);
    if |s| == 1 {
      assert s == [s[0]];
    } else {
      var t := s[1..];
      assert Complete(t) && t[|t| - 1] == s[|s| - 1];
      DecodeEncodes(t);
      if Value(t) == 0 {
        ZeroValue(t);
      }
      assert Value(s) == s[0] - 128 + 128 * Value(t);
      if Value(t) > 0 {
        assert Value(s) / 128 == Value(t) && Value(s) % 128 == s[0] - 128;
        assert Encode(Value(s)) == [s[0]] + Encode(Value(t));
        assert s == [s[0]] + t;
        assert Encode(Value(s))[1..] == Encode(Value(t));
      }
    }
  }

  /** The encoder never spends a byte more than any complete field with the same value. */
  lemma {:induction false} EncodeIsShortest(s: seq<Byte>)
    requires Complete(s)
    ensures |Encode(Value(s))| <= |s|
  {
    if |s| == 1 {
      assert Value(s) == s[0] % 128 + 128 * Value([]);
    } else {
      assert Complete(s[1..]);
      EncodeIsShortest(s[1..]);
      assert Value(s) / 128 == Value(s[1..]);
    }
  }

  /** `k` bytes suffice exactly for the values below 128 to the power `k`. */
  lemma {:induction false} EncodeLength(n: nat, k: nat)
    requires k >= 1
    ensures |Encode(n)| <= k <==> n < Pow128(k)
  {
    if n < 128 {
      assert Pow128(k) == 128 * Pow128(k - 1);
    } else if k == 1 {
      assert Pow128(1) == 128 * Pow128(0);
    } else {
      EncodeLength(n / 128, k - 1);
      assert Pow128(k) == 128 * Pow128(k - 1);
    }
  }

  const MAX_BYTES: nat := 4
  const LENGTH_LIMIT: nat := 0x1000_0000

  lemma FourBytes(n: nat)
    ensures |Encode(n)| <= MAX_BYTES <==> n < LENGTH_LIMIT
  {
    EncodeLength(n, 4);
    assert Pow128(4) == 128 * (128 * (128 * (128 * Pow128(0))));
  }

  // ---------------------------------------------------------------- the field inside a packet

  /** Bytes 1..h of the packet are its length field. */
  ghost predicate Header(p: seq<Byte>, h: nat) {
    && 1 <= h <= MAX_BYTES && h < |p|
    && (forall i :: 1 <= i < h ==> Continues(p[i]))
    && !Continues(p[h])
  }

  /** The number a header denotes. */
  ghost function HeaderValue(p: seq<Byte>, h: nat): nat
    requires Header(p, h)
  {
    Value(p[1..h + 1])
  }

  lemma HeaderUnique(p: seq<Byte>, h: nat, k: nat)
    requires Header(p, h) && Header(p, k)
    ensures h == k
  {
  }

  lemma HeaderIsComplete(p: seq<Byte>, h: nat)
    requires 1 <= h <= MAX_BYTES && h < |p|
    ensures Header(p, h) <==> Complete(p[1..h + 1])
  {
    var s := p[1..h + 1];
    assert forall i :: 1 <= i <= h ==> p[i] == s[i - 1];
    assert forall i :: 0 <= i < h ==> s[i] == p[i + 1];
  }

  /**
   * Base-128 round trip inside a packet: after any first byte and before any suffix, the encoding of `n` is
   * the header, with value `n`, exactly when `n` is below 2^28; otherwise there is no header at all.
   */
  lemma EncodedHeader(first: Byte, n: nat, suffix: seq<Byte>)
    ensures var p := [first] + Encode(n) + suffix;
            if n < LENGTH_LIMIT
            then Header(p, |Encode(n)|) && HeaderValue(p, |Encode(n)|) == n
            else forall h: nat :: !Header(p, h)
  {
    var e := Encode(n);
    var p := [first] + e + suffix;
    EncodeDecodes(n);
    FourBytes(n);
    assert forall i :: 1 <= i <= |e| ==> p[i] == e[i - 1];
    assert p[1..|e| + 1] == e;
  }
}
