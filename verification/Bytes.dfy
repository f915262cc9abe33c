/** Bytes, the growable buffers that hold them, and the bit masks the program applies to them. */
module Bytes {

  /** One `u8`. Masks are written as arithmetic; the lemmas below tie them to the bit operators. */
  type Byte = b: int | 0 <= b < 256

  /** A `Vec<u8>` or `BytesMut`: a list of bytes that its owner edits in place. */
  class ByteVec {
    var bytes: seq<Byte>

    constructor (contents: seq<Byte>)
      ensures bytes == contents
    {
      bytes := contents;
    }

    method PutU8(b: Byte)
      modifies this
      ensures bytes == old(bytes) + [b]
    {
      bytes := bytes + [b];
    }

    /** Appends `n as u16` in big-endian order; the cast drops everything above 16 bits. */
    method PutU16(n: nat)
      modifies this
      ensures bytes == old(bytes) + U16Bytes(n)
    {
      bytes := bytes + U16Bytes(n);
    }

    method PutSlice(s: seq<Byte>)
      modifies this
      ensures bytes == old(bytes) + s
    {
      bytes := bytes + s;
    }

    method Set(i: nat, b: Byte)
      requires i < |bytes|
      modifies this
      ensures bytes == old(bytes)[i := b]
    {
      bytes := bytes[i := b];
    }

    method Insert(i: nat, b: Byte)
      requires i <= |bytes|
      modifies this
      ensures bytes == old(bytes)[..i] + [b] + old(bytes)[i..]
    {
      bytes := bytes[..i] + [b] + bytes[i..];
    }
  }

  /** The MQTT control packet type: `(b & 0xF0) >> 4`. */
  function TypeNibble(b: Byte): (t: nat)
    ensures t < 16
  {
    b / 16
  }

  function U16Bytes(n: nat): (s: seq<Byte>)
    ensures |s| == 2
  {
    [(n / 256) % 256, n % 256]
  }

  /** `u16::from_be_bytes` of the two bytes at `at`. */
  function U16At(s: seq<Byte>, at: nat): (n: nat)
    requires at + 1 < |s|
    ensures n < 0x1_0000
  {
    (s[at] as nat) * 256 + s[at + 1] as nat
  }

  /** Reading back a `put_u16` returns the low 16 bits of what was written. */
  lemma U16RoundTrip(n: nat)
    ensures U16At(U16Bytes(n), 0) == n % 0x1_0000
    ensures n < 0x1_0000 ==> U16At(U16Bytes(n), 0) == n
  {
    assert ((n / 256) % 256) * 256 + n % 256 == n % 0x1_0000;
  }

  /** A u16 reads the same wherever its two bytes stand. */
  lemma U16Elsewhere(s: seq<Byte>, at: nat, n: nat)
    requires n < 0x1_0000 && at + 2 <= |s| && s[at..at + 2] == U16Bytes(n)
    ensures U16At(s, at) == n
  {
    U16RoundTrip(n);
    assert s[at] == s[at..at + 2][0] && s[at + 1] == s[at..at + 2][1];
  }

  lemma SameU16(p: seq<Byte>, at: nat, q: seq<Byte>, at': nat)
    requires at + 1 < |p| && at' + 1 < |q| && p[at] == q[at'] && p[at + 1] == q[at' + 1]
    ensures U16At(p, at) == U16At(q, at')
  {
  }

  function OrBit(x: nat, y: nat): (r: nat)
    ensures r <= 1
  {
    if x % 2 == 1 || y % 2 == 1 then 1 else 0
  }

  /** `b | (c & 0x0F)`, bit by bit: the high nibble of `b` survives. */
  function OrLowNibble(b: Byte, c: Byte): (r: Byte)
    ensures TypeNibble(r) == TypeNibble(b)
  {
    b - b % 16 + OrBit(b, c) + 2 * OrBit(b / 2, c / 2) + 4 * OrBit(b / 4, c / 4) + 8 * OrBit(b / 8, c / 8)
  }

  /** `(b & 0xF9) | 0x06`: bits 1 and 2 become 1, the others stay. */
  function SetQoSBits(b: Byte): (r: Byte)
    ensures r / 8 == b / 8 && r % 2 == b % 2 && (r / 2) % 4 == 3
  {
    8 * (b / 8) + 6 + b % 2
  }

  /** The flag bits can be read from the byte or from its low nibble. */
  lemma LowNibbleBits(b: Byte)
    ensures (b % 16 / 2) % 4 == (b / 2) % 4 && b % 16 % 2 == b % 2 && (b % 16 / 8) % 2 == (b / 8) % 2
  {
    var q: int, f: int := b / 16, b % 16;
    assert b == 16 * q + f;
    DropFours(2 * q, f / 2);
    DropPairs(8 * q, f);
    DropPairs(q, f / 8);
    assert b / 2 == 4 * (2 * q) + f / 2 && b == 2 * (8 * q) + f && b / 8 == 2 * q + f / 8;
  }

  lemma DropFours(q: nat, r: nat)
    ensures (4 * q + r) % 4 == r % 4
  {
  }

  lemma DropPairs(q: nat, r: nat)
    ensures (2 * q + r) % 2 == r % 2
  {
  }

  /** The arithmetic used for the masks that read a byte is the bit operation of the source. */
  lemma ReadingMasks(b: bv8)
    ensures (b & 0x7F) as int == b as int % 128
    ensures (b & 0x80 == 0) <==> b as int < 128
    ensures (b & 0x0F) as int == b as int % 16
    ensures ((b & 0xF0) >> 4) as int == b as int / 16
  {
    if b & 0x80 == 0 {
      assert b & 0x7F == b;
    } else {
      assert b & 0x7F == b - 0x80;
    }
    assert b & 0x0F == b % 16;
    assert (b & 0xF0) >> 4 == b / 16;
  }

  /** The same for the masks that build a continuation byte and the reserved packet type. */
  lemma ContinuationMask(b: bv8)
    requires b < 0x80
    ensures (b | 0x80) as int == b as int + 128
  {
    assert b | 0x80 == b + 0x80;
  }

  lemma ReservedTypeMask(b: bv8)
    ensures ((b & 0x0F) | 0xF0) as int == 240 + b as int % 16
  {
    assert (b & 0x0F) | 0xF0 == 0xF0 + b % 16;
    assert b % 16 < 16;
  }

  /** And for the mask that sets the QoS bits. */
  lemma QoSMask(b: bv8)
    ensures ((b & 0xF9) | 0x06) as int == SetQoSBits(b as int)
  {
    HighBits(b);
    LowBit(b);
    QoSMaskParts(b);
  }

  lemma HighBits(b: bv8)
    ensures (b & 0xF8) as int == 8 * (b as int / 8)
  {
    assert b & 0xF8 == b - b % 8;
    assert (b % 8) as int == b as int % 8;
  }

  lemma LowBit(b: bv8)
    ensures (b & 0x01) as int == b as int % 2
  {
    assert b & 0x01 == b % 2;
  }

  lemma QoSMaskParts(b: bv8)
    ensures ((b & 0xF9) | 0x06) as int == (b & 0xF8) as int + 6 + (b & 0x01) as int
  {
    assert (b & 0xF9) | 0x06 == (b & 0xF8) + 6 + (b & 0x01);
    var high, low := b & 0xF8, b & 0x01;
    assert high <= 0xF8 && low <= 1;
  }

  /** And for the OR with a low nibble. */
  lemma OrMask(b: bv8, c: bv8)
    ensures (b | (c & 0x0F)) as int == OrLowNibble(b as int, c as int)
  {
    OrMaskAsSum(b, c);
    BitsBelow(b, c);
    hide OrBits, OrBit;
  }

  lemma OrMaskAsSum(b: bv8, c: bv8)
    ensures (b | (c & 0x0F)) as int
         == b as int - b as int % 16 + OrBits(b, c) as int + 2 * OrBits(b / 2, c / 2) as int
            + 4 * OrBits(b / 4, c / 4) as int + 8 * OrBits(b / 8, c / 8) as int
  {
    OrMaskParts(b, c);
    hide OrBits;
    MaskedSum(b, OrBits(b, c), OrBits(b / 2, c / 2), OrBits(b / 4, c / 4), OrBits(b / 8, c / 8));
  }

  lemma BitsBelow(b: bv8, c: bv8)
    ensures OrBits(b, c) as int == OrBit(b as int, c as int)
    ensures OrBits(b / 2, c / 2) as int == OrBit(b as int / 2, c as int / 2)
    ensures OrBits(b / 4, c / 4) as int == OrBit(b as int / 4, c as int / 4)
    ensures OrBits(b / 8, c / 8) as int == OrBit(b as int / 8, c as int / 8)
  {
    Quotients(b);
    Quotients(c);
    hide OrBits, OrBit;
    OrBitIsBit(b, c);
    OrBitIsBit(b / 2, c / 2);
    OrBitIsBit(b / 4, c / 4);
    OrBitIsBit(b / 8, c / 8);
  }

  /** The bit-vector counterpart of OrBit. */
  function OrBits(x: bv8, y: bv8): (r: bv8)
    ensures r <= 1
  {
    if x % 2 == 1 || y % 2 == 1 then 1 else 0
  }

  lemma OrMaskParts(b: bv8, c: bv8)
    ensures b | (c & 0x0F)
         == (b & 0xF0)
            + ((OrBits(b, c) + 2 * OrBits(b / 2, c / 2)) + (4 * OrBits(b / 4, c / 4) + 8 * OrBits(b / 8, c / 8)))
  {
  }

  lemma Quotients(x: bv8)
    ensures (x / 2) as int == x as int / 2 && (x / 4) as int == x as int / 4 && (x / 8) as int == x as int / 8
  {
    Half(x);
    Quarter(x);
    Eighth(x);
  }

  lemma Half(x: bv8)
    ensures (x / 2) as int == x as int / 2
  {
  }

  lemma Quarter(x: bv8)
    ensures (x / 4) as int == x as int / 4
  {
  }

  lemma Eighth(x: bv8)
    ensures (x / 8) as int == x as int / 8
  {
  }

  lemma OddByte(x: bv8)
    ensures (x % 2 == 1) <==> x as int % 2 == 1
  {
    assert (x % 2) as int == x as int % 2;
  }

  lemma OrBitIsBit(x: bv8, y: bv8)
    ensures OrBits(x, y) as int == OrBit(x as int, y as int)
  {
    OddByte(x);
    OddByte(y);
  }

  lemma PairSums(x: bv8, y: bv8)
    requires x <= 1 && y <= 1
    ensures (x + 2 * y) as int == x as int + 2 * y as int && x + 2 * y <= 3
    ensures (4 * x + 8 * y) as int == 4 * x as int + 8 * y as int && (4 * x + 8 * y) & 0x0C == 4 * x + 8 * y
  {
    assert (x == 0 || x == 1) && (y == 0 || y == 1);
  }

  lemma DisjointSum(low: bv8, high: bv8)
    requires low <= 3 && high & 0x0C == high
    ensures (low + high) as int == low as int + high as int && low + high <= 0x0F
  {
    assert low & 0x03 == low;
    assert ((low & 0x03) + (high & 0x0C)) as int == (low & 0x03) as int + (high & 0x0C) as int;
  }

  lemma NibbleSum(b: bv8, low: bv8)
    requires low <= 0x0F
    ensures ((b & 0xF0) + low) as int == (b & 0xF0) as int + low as int
  {
    assert low & 0x0F == low;
    assert ((b & 0xF0) + (low & 0x0F)) as int == (b & 0xF0) as int + (low & 0x0F) as int;
  }

  lemma HighNibble(x: bv8)
    ensures (x & 0xF0) as int == x as int - x as int % 16
  {
    NibbleSum(x, x & 0x0F);
    assert (x & 0xF0) + (x & 0x0F) == x;
    ReadingMasks(x);
  }

  lemma MaskedSum(b: bv8, b0: bv8, b1: bv8, b2: bv8, b3: bv8)
    requires b0 <= 1 && b1 <= 1 && b2 <= 1 && b3 <= 1
    ensures ((b & 0xF0) + ((b0 + 2 * b1) + (4 * b2 + 8 * b3))) as int
         == b as int - b as int % 16 + b0 as int + 2 * b1 as int + 4 * b2 as int + 8 * b3 as int
  {
    PairSums(b0, b1);
    PairSums(b2, b3);
    DisjointSum(b0 + 2 * b1, 4 * b2 + 8 * b3);
    NibbleSum(b, (b0 + 2 * b1) + (4 * b2 + 8 * b3));
    HighNibble(b);
  }

  // ---------------------------------------------------------------- single bits

  function Pow2(k: nat): (n: nat)
    ensures n > 0
  {
    if k == 0 then 1 else 2 * Pow2(k - 1)
  }

  /** The number with bit `k` inverted. */
  function Flip(n: nat, k: nat): nat {
    if k == 0 then 2 * (n / 2) + (1 - n % 2) else 2 * Flip(n / 2, k - 1) + n % 2
  }

  lemma FlipParts(n: nat, k: nat)
    ensures Flip(n, k) / 2 == if k == 0 then n / 2 else Flip(n / 2, k - 1)
    ensures Flip(n, k) % 2 == if k == 0 then 1 - n % 2 else n % 2
  {
  }

  lemma {:induction false} FlipBelow(n: nat, k: nat, width: nat)
    requires k < width && n < Pow2(width)
    ensures Flip(n, k) < Pow2(width)
  {
    assert Pow2(width) == 2 * Pow2(width - 1);
    FlipParts(n, k);
    hide Flip, Pow2;
    if k > 0 {
      FlipBelow(n / 2, k - 1, width - 1);
    }
    assert Flip(n, k) / 2 < Pow2(width - 1);
  }

  lemma {:induction false} FlipTwice(n: nat, k: nat)
    ensures Flip(Flip(n, k), k) == n
  {
    FlipParts(n, k);
    FlipParts(Flip(n, k), k);
    if k > 0 {
      FlipTwice(n / 2, k - 1);
    }
    hide Flip;
    SameHalves(Flip(Flip(n, k), k), n);
  }

  lemma {:induction false} FlipsCommute(n: nat, j: nat, k: nat)
    ensures Flip(Flip(n, j), k) == Flip(Flip(n, k), j)
  {
    FlipParts(n, j);
    FlipParts(n, k);
    FlipParts(Flip(n, j), k);
    FlipParts(Flip(n, k), j);
    if j > 0 && k > 0 {
      FlipsCommute(n / 2, j - 1, k - 1);
    }
    hide Flip;
    SameHalves(Flip(Flip(n, j), k), Flip(Flip(n, k), j));
  }

  lemma SameHalves(x: nat, y: nat)
    requires x / 2 == y / 2 && x % 2 == y % 2
    ensures x == y
  {
  }

  /** `b ^ (1 << k)`. */
  function FlipBit(b: Byte, k: nat): Byte
    requires k < 8
  {
    assert Pow2(8) == 256;
    FlipBelow(b, k, 8);
    Flip(b, k)
  }

  /** The bit-vector counterpart of Flip. */
  function XorBit(b: bv8, k: nat): bv8
    requires k < 8
  {
    b ^ (1 << k)
  }

  /** The arithmetic form is the bit operation. */
  lemma {:induction false} FlipMask(b: bv8, k: nat)
    requires k < 8
    ensures XorBit(b, k) as int == Flip(b as int, k)
  {
    LowBits(b);
    if k == 0 {
      XorLowest(b);
    } else {
      XorHigher(b, k);
      hide XorBit;
      FlipMask(b / 2, k - 1);
      DoubleAndBit(XorBit(b / 2, k - 1), b % 2);
    }
  }

  lemma LowBits(b: bv8)
    ensures (b / 2) as int == b as int / 2 && (b % 2) as int == b as int % 2
  {
    Half(b);
  }

  lemma XorLowest(b: bv8)
    ensures XorBit(b, 0) as int == 2 * (b as int / 2) + (1 - b as int % 2)
  {
    LowBits(b);
    assert b ^ 1 == 2 * (b / 2) + (1 - b % 2);
    DoubleAndBit(b / 2, 1 - b % 2);
    assert b % 2 == 0 || b % 2 == 1;
  }

  lemma XorHigher(b: bv8, k: nat)
    requires 0 < k < 8
    ensures XorBit(b, k) == 2 * XorBit(b / 2, k - 1) + b % 2 && XorBit(b / 2, k - 1) < 128
  {
    assert k == 1 || k == 2 || k == 3 || k == 4 || k == 5 || k == 6 || k == 7;
  }

  lemma DoubleAndBit(x: bv8, y: bv8)
    requires x < 128 && y <= 1
    ensures (2 * x + y) as int == 2 * x as int + y as int
  {
  }
}
