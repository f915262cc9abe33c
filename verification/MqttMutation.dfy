/** The mutation of a corpus case: four edits that all protocols share, and one malformed pattern. */
module MqttMutation {
  import opened Bytes
  import opened Wrappers
  import opened Draws
  import opened MqttCorruption

  // ---------------------------------------------------------------- bit flips

  datatype BitAt = BitAt(byte: nat, bit: nat)

  predicate Within(f: BitAt, size: nat) { f.byte < size && f.bit < 8 }

  function FlipOne(s: seq<Byte>, f: BitAt): seq<Byte>
    requires Within(f, |s|)
  {
    s[f.byte := FlipBit(s[f.byte], f.bit)]
  }

  /** All bits inverted, one after the other; a bit that is listed twice is inverted twice. */
  function FlipAll(s: seq<Byte>, flips: seq<BitAt>): (t: seq<Byte>)
    requires forall f :: f in flips ==> Within(f, |s|)
    ensures |t| == |s|
  {
    if flips == [] then s else FlipOne(FlipAll(s, flips[..|flips| - 1]), flips[|flips| - 1])
  }

  lemma FlipOneCommutes(s: seq<Byte>, f: BitAt, g: BitAt)
    requires Within(f, |s|) && Within(g, |s|)
    ensures FlipOne(FlipOne(s, f), g) == FlipOne(FlipOne(s, g), f)
  {
    if f.byte == g.byte {
      FlipsCommute(s[f.byte], f.bit, g.bit);
    }
  }

  lemma FlipOneTwice(s: seq<Byte>, f: BitAt)
    requires Within(f, |s|)
    ensures FlipOne(FlipOne(s, f), f) == s
  {
    FlipTwice(s[f.byte], f.bit);
  }

  lemma {:induction false} FlipFirstOrLast(s: seq<Byte>, f: BitAt, flips: seq<BitAt>)
    requires Within(f, |s|) && forall g :: g in flips ==> Within(g, |s|)
    ensures FlipAll(FlipOne(s, f), flips) == FlipOne(FlipAll(s, flips), f)
  {
    hide FlipOne;
    if flips != [] {
      var front, g := flips[..|flips| - 1], flips[|flips| - 1];
      FlipFirstOrLast(s, f, front);
      FlipOneCommutes(FlipAll(s, front), f, g);
    }
  }

  /** The same flips once more restore the input, in whatever order and however often bits are listed. */
  lemma {:induction false} FlipAllTwice(s: seq<Byte>, flips: seq<BitAt>)
    requires forall f :: f in flips ==> Within(f, |s|)
    ensures FlipAll(FlipAll(s, flips), flips) == s
  {
    hide FlipOne;
    if flips != [] {
      var front, f := flips[..|flips| - 1], flips[|flips| - 1];
      var t := FlipAll(s, front);
      FlipFirstOrLast(t, f, front);
      FlipAllTwice(s, front);
      FlipOneTwice(s, f);
    }
  }

  function DrawnFlips(draw: Draw, at: nat, size: nat, count: nat): (flips: seq<BitAt>)
    requires size > 0
    ensures |flips| == count && forall f :: f in flips ==> Within(f, size)
  {
    seq(count, i requires 0 <= i < count =>
      BitAt(ValueAt(draw, at + 2 * i, 0) % size, ValueAt(draw, at + 2 * i + 1, 0) % 256 % 8))
  }

  function BitFlipped(draw: Draw, at: nat, s: seq<Byte>): seq<Byte> {
    if s == [] then s else FlipAll(s, DrawnFlips(draw, at + 1, |s|, ValueAt(draw, at, 1) % 8 + 1))
  }

  /** Two draws for each flip: the byte, and the bit in it. */
  ghost predicate FlipsAsDrawn(data: Source, at: nat, size: nat, flips: seq<BitAt>)
    requires size > 0
  {
    forall i :: 0 <= i < |flips| ==>
      flips[i] == BitAt(data.At(at + 2 * i, 0) % size, data.At(at + 2 * i + 1, 0) % 256 % 8)
  }

  lemma FlipsSnoc(data: Source, at: nat, size: nat, flips: seq<BitAt>, f: BitAt)
    requires size > 0 && FlipsAsDrawn(data, at, size, flips)
    requires f == BitAt(data.At(at + 2 * |flips|, 0) % size, data.At(at + 2 * |flips| + 1, 0) % 256 % 8)
    ensures FlipsAsDrawn(data, at, size, flips + [f])
  {
  }

  method BitFlipMutation(input: seq<Byte>, data: Source) returns (output: seq<Byte>, ghost flips: seq<BitAt>)
    modifies data
    ensures output == BitFlipped(data.draw, old(data.position), input)
    ensures forall f :: f in flips ==> Within(f, |input|)
    ensures output == FlipAll(input, flips)
    ensures |flips| == if input == [] then 0 else data.At(old(data.position), 1) % 8 + 1
    ensures input != [] ==> FlipsAsDrawn(data, old(data.position) + 1, |input|, flips)
  {
    output, flips := input, [];
    if |output| > 0 {
      hide FlipAll, DrawnFlips, FlipsAsDrawn;
      var draw := data.Usize(1);
      output, flips := FlipBits(input, data, draw % 8 + 1);
      AsDrawn(data, old(data.position) + 1, |input|, flips);
    }
  }

  lemma AsDrawn(data: Source, at: nat, size: nat, flips: seq<BitAt>)
    requires size > 0 && FlipsAsDrawn(data, at, size, flips)
    ensures flips == DrawnFlips(data.draw, at, size, |flips|)
  {
  }

  method FlipBits(input: seq<Byte>, data: Source, count: nat) returns (output: seq<Byte>, ghost flips: seq<BitAt>)
    requires input != []
    modifies data
    ensures |flips| == count && forall f :: f in flips ==> Within(f, |input|)
    ensures output == FlipAll(input, flips)
    ensures FlipsAsDrawn(data, old(data.position), |input|, flips)
  {
    output, flips := input, [];
    for i := 0 to count
      invariant |flips| == i && |output| == |input| && data.position == old(data.position) + 2 * i
      invariant forall f :: f in flips ==> Within(f, |input|)
      invariant output == FlipAll(input, flips)
      invariant FlipsAsDrawn(data, old(data.position), |input|, flips)
    {
      hide FlipBit, FlipAll, FlipsAsDrawn;
      var byteDraw := data.Usize(0);
      var bitDraw := data.U8(0);
      var byteIdx, bitIdx := byteDraw % |output|, bitDraw % 8;
      ghost var f := BitAt(byteIdx, bitIdx);
      FlipAllSnoc(input, flips, f);
      FlipsSnoc(data, old(data.position), |input|, flips, f);
      output := output[byteIdx := FlipBit(output[byteIdx], bitIdx)];
      flips := flips + [f];
    }
  }

  lemma FlipAllSnoc(s: seq<Byte>, flips: seq<BitAt>, f: BitAt)
    requires Within(f, |s|) && forall g :: g in flips ==> Within(g, |s|)
    ensures FlipAll(s, flips + [f]) == FlipOne(FlipAll(s, flips), f)
  {
    assert (flips + [f])[..|flips|] == flips;
  }

  // ---------------------------------------------------------------- insertion and deletion

  function InsertAt(s: seq<Byte>, i: nat, b: Byte): seq<Byte>
    requires i <= |s|
  {
    s[..i] + [b] + s[i..]
  }

  function DeleteAt(s: seq<Byte>, i: nat): seq<Byte>
    requires i < |s|
  {
    s[..i] + s[i + 1..]
  }

  /** Deletion and insertion at the same place undo each other. */
  lemma InsertDeleteInverse(s: seq<Byte>, i: nat, b: Byte)
    ensures i <= |s| ==> DeleteAt(InsertAt(s, i, b), i) == s
    ensures i < |s| ==> InsertAt(DeleteAt(s, i), i, s[i]) == s
  {
  }

  function Inserted(draw: Draw, at: nat, s: seq<Byte>): seq<Byte> {
    InsertAt(s, ValueAt(draw, at, 0) % (|s| + 1), ValueAt(draw, at + 1, 0) % 256)
  }

  function Deleted(draw: Draw, at: nat, s: seq<Byte>): seq<Byte> {
    if s == [] then s else DeleteAt(s, ValueAt(draw, at, 0) % |s|)
  }

  method ByteInsertMutation(input: seq<Byte>, data: Source) returns (output: seq<Byte>)
    modifies data
    ensures output == Inserted(data.draw, old(data.position), input)
    ensures var i := data.At(old(data.position), 0) % (|input| + 1);
            output == input[..i] + [data.At(old(data.position) + 1, 0) % 256] + input[i..]
  {
    var buffer := new ByteVec(input);
    var draw := data.Usize(0);
    var insertPos := draw % (|buffer.bytes| + 1);
    var insertByte := data.U8(0);
    buffer.Insert(insertPos, insertByte);
    output := buffer.bytes;
  }

  method ByteDeleteMutation(input: seq<Byte>, data: Source) returns (output: seq<Byte>)
    modifies data
    ensures output == Deleted(data.draw, old(data.position), input)
    ensures input != [] ==>
              var i := data.At(old(data.position), 0) % |input|;
              output == input[..i] + input[i + 1..]
  {
    output := input;
    if |output| > 0 {
      var draw := data.Usize(0);
      var deletePos := draw % |output|;
      output := output[..deletePos] + output[deletePos + 1..];
    }
  }

  // ---------------------------------------------------------------- arithmetic

  /** The big-endian number at `i` plus `delta`, modulo 2^16. */
  function AddAt(s: seq<Byte>, i: nat, delta: nat): seq<Byte>
    requires i + 1 < |s|
  {
    s[..i] + U16Bytes((U16At(s, i) + delta) % 0x1_0000) + s[i + 2..]
  }

  lemma AddAtParts(s: seq<Byte>, i: nat, delta: nat)
    requires i + 1 < |s|
    ensures var t := AddAt(s, i, delta);
            && |t| == |s| && t[..i] == s[..i] && t[i + 2..] == s[i + 2..]
            && U16At(t, i) == (U16At(s, i) + delta) % 0x1_0000
  {
    var n, t := (U16At(s, i) + delta) % 0x1_0000, AddAt(s, i, delta);
    hide U16At, U16Bytes;
    assert t[i..i + 2] == U16Bytes(n);
    U16Elsewhere(t, i, n);
  }

  lemma WrappedSum(a: nat, b: nat)
    ensures (a + b % 0x1_0000) % 0x1_0000 == (a + b) % 0x1_0000
  {
  }

  /** Adding the complement restores the input. */
  lemma AddIsUndone(s: seq<Byte>, i: nat, delta: nat)
    requires i + 1 < |s| && delta < 0x1_0000
    ensures U16At(AddAt(s, i, delta), i) == (U16At(s, i) + delta) % 0x1_0000
    ensures AddAt(AddAt(s, i, delta), i, 0x1_0000 - delta) == s
  {
    var n := (U16At(s, i) + delta) % 0x1_0000;
    AddAtParts(s, i, delta);
    hide U16At, U16Bytes;
    assert (n + (0x1_0000 - delta)) % 0x1_0000 == U16At(s, i);
    BytesOfU16(s, i);
  }

  lemma BytesOfU16(s: seq<Byte>, i: nat)
    requires i + 1 < |s|
    ensures U16Bytes(U16At(s, i)) == s[i..i + 2]
  {
  }

  /** The drawn `i16` is added as the `u16` with the same bits. */
  function Added(draw: Draw, at: nat, s: seq<Byte>): seq<Byte> {
    if |s| < 2 then s else AddAt(s, ValueAt(draw, at, 0) % (|s| - 1), ValueAt(draw, at + 1, 1) % 0x1_0000)
  }

  method ArithmeticMutation(input: seq<Byte>, data: Source) returns (output: seq<Byte>)
    modifies data
    ensures output == Added(data.draw, old(data.position), input)
    ensures |output| == |input|
    ensures |input| >= 2 ==>
              var i := data.At(old(data.position), 0) % (|input| - 1);
              && U16At(output, i) == (U16At(input, i) + data.At(old(data.position) + 1, 1)) % 0x1_0000
              && output[..i] == input[..i] && output[i + 2..] == input[i + 2..]
  {
    hide U16At, U16Bytes;
    output := input;
    if |output| >= 2 {
      var draw := data.Usize(0);
      var pos := draw % (|output| - 1);
      var value := U16At(output, pos);
      var delta := data.U16(1);
      var bytes := U16Bytes((value + delta) % 0x1_0000);
      output := output[pos := bytes[0]];
      output := output[pos + 1 := bytes[1]];
      assert output == input[..pos] + bytes + input[pos + 2..];
      AddAtParts(input, pos, delta);
      WrappedSum(value, data.At(old(data.position) + 1, 1));
    }
  }

  // ---------------------------------------------------------------- mutate_packet

  const DELETION: nat := 2
  const MALFORMED: nat := 4

  function KindOfMutation(draw: Draw, at: nat): (kind: nat)
    ensures kind < 5
  {
    ValueAt(draw, at, 0) % 256 % 5
  }

  function DrawnPattern(draw: Draw, at: nat): Pattern { PATTERNS[ValueAt(draw, at, 0) % |PATTERNS|] }

  /** The draws from number `at` on pick the pattern that reads the first byte without a test. */
  predicate PicksUnguarded(draw: Draw, at: nat) {
    KindOfMutation(draw, at) == MALFORMED && DrawnPattern(draw, at + 1).ExcessiveSubscriptions?
  }

  /** What the draws from number `at` on can make of a case; `None` is a panic. */
  ghost predicate MutationOf(draw: Draw, at: nat, base: seq<Byte>, r: Option<seq<Byte>>) {
    match KindOfMutation(draw, at)
    case 0 => r == Some(BitFlipped(draw, at + 1, base))
    case 1 => r == Some(Inserted(draw, at + 1, base))
    case 2 => r == Some(Deleted(draw, at + 1, base))
    case 3 => r == Some(Added(draw, at + 1, base))
    case _ =>
      if base == [] && DrawnPattern(draw, at + 1).ExcessiveSubscriptions? then r == None
      else r.Some? && Effect(DrawnPattern(draw, at + 1), base, r.value)
  }

  /** The protocol's mutation is tried first and always has a result, so there is never a fallback. */
  method MutatePacket(packet: seq<Byte>, data: Source, rng: Source) returns (mutated: Option<seq<Byte>>)
    modifies data, rng
    ensures mutated.None? <==> packet == [] && PicksUnguarded(data.draw, old(data.position))
    ensures MutationOf(data.draw, old(data.position), packet, mutated)
    ensures var p := old(data.position);
            match data.At(p, 0) % 256 % 5
            case 0 => mutated == Some(BitFlipped(data.draw, p + 1, packet))
            case 1 => mutated == Some(Inserted(data.draw, p + 1, packet))
            case 2 => mutated == Some(Deleted(data.draw, p + 1, packet))
            case 3 => mutated == Some(Added(data.draw, p + 1, packet))
            case _ => true
    ensures var p := old(data.position);
            data != rng && mutated.Some? && KindOfMutation(data.draw, p) == MALFORMED ==>
              AppliedBy(DrawnPattern(data.draw, p + 1), data.draw, p + 2, rng.draw, old(rng.position), packet,
                        mutated.value, data.position)
  {
    hide BitFlipped, Inserted, Deleted, Added, Effect, AppliedBy;
    var draw := data.U8(0);
    var mutationType := draw % 5;
    var output;
    match mutationType {
      case 0 =>
        ghost var flips;
        output, flips := BitFlipMutation(packet, data);
      case 1 => output := ByteInsertMutation(packet, data);
      case 2 => output := ByteDeleteMutation(packet, data);
      case 3 => output := ArithmeticMutation(packet, data);
      case _ =>
        var index := data.Usize(0);
        mutated := ApplyMalformedPattern(packet, PATTERNS[index % |PATTERNS|], data, rng);
        return;
    }
    mutated := Some(output);
  }

  /** Nothing but an empty case and that pattern makes the mutation panic. */
  lemma PanicsOnEmpty(draw: Draw, at: nat, base: seq<Byte>, r: Option<seq<Byte>>)
    requires MutationOf(draw, at, base, r)
    ensures r.None? <==> base == [] && PicksUnguarded(draw, at)
  {
    hide Effect, PATTERNS;
  }

  /** Only the deletion of its last byte makes a case empty. */
  lemma EmptyMutant(draw: Draw, at: nat, base: seq<Byte>, r: Option<seq<Byte>>)
    requires MutationOf(draw, at, base, r) && base != []
    ensures r == Some([]) <==> |base| == 1 && KindOfMutation(draw, at) == DELETION
  {
    hide Effect, DrawnPattern, FlipAll, DrawnFlips;
    match KindOfMutation(draw, at)
    case 0 => assert |BitFlipped(draw, at + 1, base)| == |base|;
    case 1 => assert |Inserted(draw, at + 1, base)| == |base| + 1;
    case 2 => assert |Deleted(draw, at + 1, base)| == |base| - 1;
    case 3 => assert |Added(draw, at + 1, base)| == |base|;
    case _ => PatternLeavesBytes(DrawnPattern(draw, at + 1), base, r.value);
  }

  lemma PatternLeavesBytes(pattern: Pattern, before: seq<Byte>, after: seq<Byte>)
    requires Effect(pattern, before, after) && before != []
    ensures after != []
  {
    if KeepsFrame(pattern) {
      FrameKept(pattern, before, after);
    }
  }
}
